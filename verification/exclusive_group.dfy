/** Exclusive groups of `ui/src/widget/button/exclusive_group.rs`: a parent
    with `ExclusiveGroup` remembers its active child, and when another child
    becomes toggled the remembered one is untoggled. */
module Group {
  import opened Maybe

  type Entity = nat

  /** The entities alive, their `Toggled` flags, their parents (`ChildOf`)
      and the `ExclusiveGroup.active` of every group. */
  datatype Tree = Tree(alive: set<Entity>, toggled: map<Entity, bool>, parent: map<Entity, Entity>, active: map<Entity, Option<Entity>>)

  /** `Default for ExclusiveGroup`: no active child yet. */
  function NewGroup(): (active: Option<Entity>)
    ensures active.None?
  {
    None
  }

  /** `e` is a toggled child of a group. */
  predicate ToggledInGroup(t: Tree, e: Entity)
  {
    e in t.toggled && t.toggled[e] && e in t.parent && t.parent[e] in t.active
  }

  /** The previously active child that `ensure_single` untoggles when `e`
      is toggled on: another live entity remembered by `e`'s group. */
  function Displaced(t: Tree, e: Entity): (d: Option<Entity>)
    ensures d.Some? ==> d.value != e && d.value in t.alive && ToggledInGroup(t, e)
  {
    if ToggledInGroup(t, e) then
      var a := t.active[t.parent[e]];
      if a.Some? && a.value != e && a.value in t.alive then a else None
    else None
  }

  /** `ensure_single`, the reaction to a `Toggled` insert on `e`.  Untoggling,
      a missing parent or a parent without a group changes nothing.
      Otherwise the remembered active child, if it is another live entity,
      gets `Toggled(false)` (whose own reaction does nothing), and `e`
      becomes the group's active child. */
  function OnToggledInsert(t: Tree, e: Entity): (r: Tree)
    requires e in t.toggled
    ensures r.alive == t.alive && r.parent == t.parent
    ensures r.toggled.Keys >= t.toggled.Keys && r.active.Keys == t.active.Keys
    ensures !ToggledInGroup(t, e) ==> r == t
    ensures ToggledInGroup(t, e) ==> r.active == t.active[t.parent[e] := Some(e)]
    ensures ToggledInGroup(t, e) ==> r.toggled[e]
    ensures Displaced(t, e).Some? ==> r.toggled == t.toggled[Displaced(t, e).value := false]
    ensures Displaced(t, e).None? ==> r.toggled == t.toggled
  {
    if !t.toggled[e] || e !in t.parent || t.parent[e] !in t.active then t
    else
      var g := t.parent[e];
      var toggled :=
        if t.active[g].Some? && t.active[g].value != e && t.active[g].value in t.alive
        then t.toggled[t.active[g].value := false] else t.toggled;
      t.(toggled := toggled, active := t.active[g := Some(e)])
  }

  /** Inserting `Toggled(value)` on a live entity and running the reaction. */
  function InsertToggled(t: Tree, e: Entity, value: bool): (r: Tree)
    requires e in t.alive
    ensures e in r.toggled && r.toggled[e] == value
    ensures r.active.Keys == t.active.Keys
    ensures value && e in t.parent && t.parent[e] in t.active ==> r.active[t.parent[e]] == Some(e)
  {
    OnToggledInsert(t.(toggled := t.toggled[e := value]), e)
  }

  /** Every toggled child of a group is the group's active child; only live
      entities carry `Toggled`. */
  predicate Tracked(t: Tree)
  {
    && t.toggled.Keys <= t.alive
    && forall c | c in t.toggled :: ToggledInGroup(t, c) ==> t.active[t.parent[c]] == Some(c)
  }

  /** Hence at most one child of a group is toggled. */
  lemma TrackedMeansSingle(t: Tree, a: Entity, b: Entity)
    requires Tracked(t)
    requires ToggledInGroup(t, a) && ToggledInGroup(t, b) && t.parent[a] == t.parent[b]
    ensures a == b
  {
  }

  /** Any `Toggled` insert on a live entity keeps every group tracking its
      single toggled child; re-toggling the active child keeps it toggled. */
  lemma InsertToggledKeepsTracked(t: Tree, e: Entity, value: bool)
    requires Tracked(t)
    requires e in t.alive
    ensures Tracked(InsertToggled(t, e, value))
  {
    var t1 := t.(toggled := t.toggled[e := value]);
    var r := InsertToggled(t, e, value);
    forall c | ToggledInGroup(r, c)
      ensures r.active[r.parent[c]] == Some(c)
    {
      if c != e && Displaced(t1, e) != Some(c) {
        assert ToggledInGroup(t, c);
      }
    }
  }

  /** Toggling on the group's already-active child untoggles nobody and
      keeps it active. */
  lemma RetoggleActiveKeepsIt(t: Tree, e: Entity)
    requires e in t.alive && e in t.parent && t.parent[e] in t.active
    requires t.active[t.parent[e]] == Some(e)
    ensures InsertToggled(t, e, true).toggled == t.toggled[e := true]
    ensures InsertToggled(t, e, true).active == t.active
  {
  }
}
