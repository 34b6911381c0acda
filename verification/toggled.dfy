/** Toggle buttons of `ui/src/widget/button/toggled.rs`.

    A click flips a button's `Toggled` flag, except that a toggled
    `Exclusive` button cannot be untoggled by clicking.  Whenever an
    exclusive button becomes toggled, every other toggled exclusive button
    under the same parent is untoggled, so each parent has at most one
    toggled exclusive child. */
module Toggle {
  import opened Maybe

  type Entity = nat

  /** One entity with `Toggled`: its flag, whether it is `Exclusive`, and
      its parent (`ChildOf`), if any. */
  datatype Button = Button(toggled: bool, exclusive: bool, parent: Option<Entity>)

  /** Every entity that carries `Toggled`. */
  type Buttons = map<Entity, Button>

  /** `Toggled::flip`. */
  function Flip(toggled: bool): (r: bool)
    ensures r != toggled
  {
    !toggled
  }

  lemma FlipInvolution(toggled: bool)
    ensures Flip(Flip(toggled)) == toggled
  {
  }

  /** `Exclusive` requires `Toggled`, which defaults to untoggled. */
  function NewExclusive(parent: Option<Entity>): (b: Button)
    ensures b.exclusive && !b.toggled && b.parent == parent
  {
    Button(false, true, parent)
  }

  /** `x` is an exclusive sibling of the exclusive child `e`. */
  predicate ExclusiveSibling(bs: Buttons, e: Entity, x: Entity)
    requires e in bs && x in bs
  {
    x != e && bs[x].exclusive && bs[x].parent.Some? && bs[x].parent == bs[e].parent
  }

  /** `ensure_single`, the reaction to a `Toggled` insert on `e`: when `e` is
      a toggled exclusive child, its toggled exclusive siblings get
      `Toggled(false)` (whose own reactions do nothing).  Everything else,
      `e` itself included, is left alone. */
  function EnsureSingle(bs: Buttons, e: Entity): (r: Buttons)
    requires e in bs
    ensures r.Keys == bs.Keys
    ensures r[e] == bs[e]
    ensures forall x :: x in bs ==> r[x].exclusive == bs[x].exclusive && r[x].parent == bs[x].parent
    ensures forall x :: x in bs && bs[e].exclusive && bs[e].toggled && ExclusiveSibling(bs, e, x) ==> !r[x].toggled
    ensures forall x :: x in bs && !(bs[e].exclusive && bs[e].toggled && ExclusiveSibling(bs, e, x)) ==> r[x] == bs[x]
  {
    if bs[e].exclusive && bs[e].toggled && bs[e].parent.Some? then
      map x | x in bs :: if ExclusiveSibling(bs, e, x) && bs[x].toggled then bs[x].(toggled := false) else bs[x]
    else bs
  }

  /** Inserting `Toggled(value)` on `e` and running `ensure_single`.  An
      entity without `Toggled` yet is spawned with the `Exclusive` marker
      and the parent of `spawned`, which the observer already sees. */
  function InsertToggled(bs: Buttons, e: Entity, value: bool, spawned: Button): (r: Buttons)
    ensures r.Keys == bs.Keys + {e}
    ensures r[e].toggled == value
    ensures e in bs ==> r[e].exclusive == bs[e].exclusive && r[e].parent == bs[e].parent
    ensures e !in bs ==> r[e].exclusive == spawned.exclusive && r[e].parent == spawned.parent
    ensures forall x :: x in bs && x != e ==> r[x].exclusive == bs[x].exclusive && r[x].parent == bs[x].parent
    ensures forall x :: x in bs && x != e && Grouped(r[e]) && bs[x].exclusive && bs[x].parent == r[e].parent ==> !r[x].toggled
    ensures forall x :: x in bs && x != e && !(Grouped(r[e]) && bs[x].exclusive && bs[x].parent == r[e].parent) ==> r[x] == bs[x]
  {
    var b := if e in bs then bs[e] else spawned;
    EnsureSingle(bs[e := b.(toggled := value)], e)
  }

  /** `toggle`, the reaction to a click on `e`. */
  function Click(bs: Buttons, e: Entity): (r: Buttons)
    ensures r.Keys == bs.Keys
    ensures e !in bs ==> r == bs
    ensures e in bs && bs[e].exclusive && bs[e].toggled ==> r == bs
    ensures e in bs && !(bs[e].exclusive && bs[e].toggled) ==> r[e].toggled == !bs[e].toggled
  {
    if e !in bs then bs
    else if bs[e].exclusive && bs[e].toggled then bs
    else InsertToggled(bs, e, Flip(bs[e].toggled), bs[e])
  }

  /** At most one toggled exclusive child per parent. */
  predicate AtMostOnePerParent(bs: Buttons)
  {
    forall x, y :: x in bs && y in bs && Grouped(bs[x]) && Grouped(bs[y]) && bs[x].parent == bs[y].parent ==> x == y
  }

  /** A toggled exclusive button with a parent. */
  predicate Grouped(b: Button)
  {
    b.toggled && b.exclusive && b.parent.Some?
  }

  /** Any `Toggled` insert, a spawn included, keeps at most one toggled
      exclusive child per parent, and a toggled exclusive child it leaves
      behind is the only one of its parent. */
  lemma InsertToggledKeepsSingle(bs: Buttons, e: Entity, value: bool, spawned: Button)
    requires AtMostOnePerParent(bs)
    ensures AtMostOnePerParent(InsertToggled(bs, e, value, spawned))
    ensures var r := InsertToggled(bs, e, value, spawned);
            Grouped(r[e]) ==> forall x :: x in r && x != e && Grouped(r[x]) ==> r[x].parent != r[e].parent
  {
  }

  /** Spawning a toggled exclusive button next to a toggled exclusive
      sibling untoggles the sibling. */
  lemma SpawnToggledUntogglesSibling()
    ensures InsertToggled(map[1 := Button(true, true, Some(0))], 2, true, NewExclusive(Some(0)))
            == map[1 := Button(false, true, Some(0)), 2 := Button(true, true, Some(0))]
  {
  }

  /** Clicking any button keeps at most one toggled exclusive child per
      parent; clicking an exclusive button leaves it toggled. */
  lemma ClickKeepsSingle(bs: Buttons, e: Entity)
    requires AtMostOnePerParent(bs)
    ensures AtMostOnePerParent(Click(bs, e))
    ensures e in bs && bs[e].exclusive ==> Click(bs, e)[e].toggled
  {
    if e in bs && !(bs[e].exclusive && bs[e].toggled) {
      InsertToggledKeepsSingle(bs, e, Flip(bs[e].toggled), bs[e]);
    }
  }
}
