/** Component-backed resources of `core/src/component_res.rs`.

    A singleton value of component type `C` lives on a dedicated entity; the
    `ResEntities` map remembers, per component type, which entity that is.
    Adding a registered type's component records its entity (reporting an
    error when the type was already recorded), removing it forgets the type,
    and the queued `InsertComponentRes` command either replaces the value on
    the recorded entity or spawns a new entity for it. */
module ComponentRes {
  import opened Maybe

  type TypeId = nat
  type Entity = nat

  /** Each entity's components by type; `next` is the id the next spawn
      gets; `registry` is `ResEntities`; `errors` counts logged errors. */
  datatype World<V> = World(entities: map<Entity, map<TypeId, V>>, next: Entity, registry: map<TypeId, Entity>, errors: nat)

  /** The failure of `world.entity_mut` on an entity that does not exist. */
  datatype Panic = MissingEntity(entity: Entity)

  /** `register`, the reaction to a component of type `t` being added to
      `e`: `t` now maps to `e`; an earlier mapping is replaced and logged. */
  function Register<V>(w: World<V>, t: TypeId, e: Entity): (r: World<V>)
    ensures r.registry == w.registry[t := e]
    ensures r.errors == w.errors + (if t in w.registry then 1 else 0)
    ensures r.entities == w.entities && r.next == w.next
  {
    var errors := if t in w.registry then w.errors + 1 else w.errors;
    w.(registry := w.registry[t := e], errors := errors)
  }

  /** `unregister`, the reaction to a component of type `t` being removed
      from any entity: `t` is forgotten. */
  function Unregister<V>(w: World<V>, t: TypeId): (r: World<V>)
    ensures r.registry.Keys == w.registry.Keys - {t}
    ensures forall u :: u in r.registry ==> r.registry[u] == w.registry[u]
    ensures r.entities == w.entities && r.next == w.next && r.errors == w.errors
  {
    w.(registry := w.registry - {t})
  }

  /** `InsertComponentRes::apply`: write `v` on the entity recorded for `t`,
      or spawn a fresh entity holding `v` when `t` is not recorded (the new
      entity is then recorded by `register`). */
  function Apply<V>(w: World<V>, t: TypeId, v: V): (r: Result<World<V>, Panic>)
    ensures t in w.registry && w.registry[t] !in w.entities ==> r == Err(MissingEntity(w.registry[t]))
    ensures r.Ok? ==> t in r.value.registry && r.value.registry[t] in r.value.entities
                      && t in r.value.entities[r.value.registry[t]] && r.value.entities[r.value.registry[t]][t] == v
    ensures r.Ok? && t in w.registry ==> r.value.registry[t] == w.registry[t]
    ensures t !in w.registry ==> r.Ok? && r.value.registry[t] == w.next && r.value.next == w.next + 1
    ensures t !in w.registry ==> r.value.entities[w.next] == map[t := v] && r.value.errors == w.errors
    ensures t in w.registry && w.registry[t] in w.entities ==> r.Ok?
    ensures r.Ok? && t in w.registry ==>
              && r.value.entities[w.registry[t]] == w.entities[w.registry[t]][t := v]
              && r.value.next == w.next
              && r.value.errors == w.errors + (if t in w.entities[w.registry[t]] then 0 else 1)
    ensures r.Ok? ==> forall x :: x in w.entities && x != r.value.registry[t] ==> x in r.value.entities && r.value.entities[x] == w.entities[x]
    ensures r.Ok? ==> r.value.registry.Keys == w.registry.Keys + {t}
    ensures r.Ok? ==> forall u :: u in w.registry && u != t ==> r.value.registry[u] == w.registry[u]
  {
    if t in w.registry then
      var e := w.registry[t];
      if e !in w.entities then Err(MissingEntity(e))
      else
        var held: map<TypeId, V> := w.entities[e][t := v];
        var w1 := w.(entities := w.entities[e := held]);
        // The `Add` reaction runs only when `e` did not have `t` before.
        if t in w.entities[e] then Ok(w1) else Ok(Register(w1, t, e))
    else
      Ok(SpawnWith(w, t, v))
  }

  /** Spawning a fresh entity holding a component of type `t`; the `Add`
      reaction records it, logging an error when `t` was already recorded. */
  function SpawnWith<V>(w: World<V>, t: TypeId, v: V): (r: World<V>)
    ensures r.next == w.next + 1 && r.entities == w.entities[w.next := map[t := v]]
    ensures r.registry == w.registry[t := w.next]
    ensures r.errors == w.errors + (if t in w.registry then 1 else 0)
  {
    var e := w.next;
    var held: map<TypeId, V> := map[t := v];
    Register(w.(entities := w.entities[e := held], next := w.next + 1), t, e)
  }

  /** Spawning a second entity with the same resource component is
      reported, and the newer entity takes over the record. */
  lemma SpawnTwiceLogsError<V>(w: World<V>, t: TypeId, a: V, b: V)
    ensures var w2 := SpawnWith(SpawnWith(w, t, a), t, b);
            w2.errors == w.errors + (if t in w.registry then 2 else 1) && w2.registry[t] == w.next + 1
  {
  }

  /** Removing the component of type `t` from `e`, and `unregister`. */
  function Remove<V>(w: World<V>, e: Entity, t: TypeId): (r: World<V>)
    ensures t !in r.registry || (e !in w.entities || t !in w.entities[e])
    ensures e in w.entities && t in w.entities[e] ==> e in r.entities && r.entities[e] == w.entities[e] - {t}
    ensures !(e in w.entities && t in w.entities[e]) ==> r == w
    ensures r.entities.Keys == w.entities.Keys
    ensures forall x :: x in w.entities && x != e ==> r.entities[x] == w.entities[x]
    ensures forall u :: u in w.registry && u != t ==> u in r.registry
    ensures forall u :: u in r.registry ==> u in w.registry && r.registry[u] == w.registry[u]
    ensures r.next == w.next && r.errors == w.errors
  {
    if e in w.entities && t in w.entities[e] then
      var held: map<TypeId, V> := w.entities[e] - {t};
      Unregister(w.(entities := w.entities[e := held]), t)
    else w
  }

  /** Despawning `e` removes each of its components, unregistering each type. */
  function Despawn<V>(w: World<V>, e: Entity): (r: World<V>)
    ensures e !in r.entities
    ensures e in w.entities ==> r.registry.Keys == w.registry.Keys - w.entities[e].Keys
    ensures e !in w.entities ==> r == w
    ensures r.entities.Keys == w.entities.Keys - {e}
    ensures forall x :: x in w.entities && x != e ==> r.entities[x] == w.entities[x]
    ensures forall u :: u in r.registry ==> u in w.registry && r.registry[u] == w.registry[u]
    ensures r.next == w.next && r.errors == w.errors
  {
    if e in w.entities then
      w.(entities := w.entities - {e}, registry := map t | t in w.registry && t !in w.entities[e] :: w.registry[t])
    else w
  }

  /** `ResEntities` agrees with the world: every recorded entity exists and
      holds its type, every holder of a component is the recorded entity
      for its type, and every entity id is below `next`. */
  predicate Synced<V>(w: World<V>)
  {
    && (forall t | t in w.registry :: w.registry[t] in w.entities && t in w.entities[w.registry[t]])
    && (forall e | e in w.entities :: e < w.next && forall t | t in w.entities[e] :: t in w.registry && w.registry[t] == e)
  }

  /** In a synced world each type is held by at most one entity. */
  lemma SyncedMeansSingleHolder<V>(w: World<V>, t: TypeId, a: Entity, b: Entity)
    requires Synced(w)
    requires a in w.entities && t in w.entities[a]
    requires b in w.entities && t in w.entities[b]
    ensures a == b
  {
  }

  /** From a synced world, applying an insert never panics, logs no error
      and leaves the world synced. */
  lemma ApplyKeepsSynced<V>(w: World<V>, t: TypeId, v: V)
    requires Synced(w)
    ensures Apply(w, t, v).Ok?
    ensures Synced(Apply(w, t, v).value)
    ensures Apply(w, t, v).value.errors == w.errors
  {
  }

  /** Removing a component keeps the world synced. */
  lemma RemoveKeepsSynced<V>(w: World<V>, e: Entity, t: TypeId)
    requires Synced(w)
    ensures Synced(Remove(w, e, t))
  {
  }

  /** Despawning an entity keeps the world synced. */
  lemma DespawnKeepsSynced<V>(w: World<V>, e: Entity)
    requires Synced(w)
    ensures Synced(Despawn(w, e))
  {
  }

  /** The command queue: `insert_component_resource` only appends. */
  datatype Command<V> = InsertRes(ty: TypeId, value: V)

  function InsertComponentResource<V>(queue: seq<Command<V>>, t: TypeId, v: V): (r: seq<Command<V>>)
    ensures |r| == |queue| + 1 && r[..|queue|] == queue && r[|queue|] == InsertRes(t, v)
  {
    queue + [InsertRes(t, v)]
  }

  /** Applying queued commands in order, stopping at the first panic. */
  function Flush<V>(w: World<V>, queue: seq<Command<V>>): Result<World<V>, Panic>
    decreases |queue|
  {
    if |queue| == 0 then Ok(w)
    else
      match Apply(w, queue[0].ty, queue[0].value)
      case Err(p) => Err(p)
      case Ok(w1) => Flush(w1, queue[1..])
  }

  /** A queue flushed on a synced world never panics and keeps it synced. */
  lemma {:induction false} FlushKeepsSynced<V>(w: World<V>, queue: seq<Command<V>>)
    requires Synced(w)
    ensures Flush(w, queue).Ok? && Synced(Flush(w, queue).value)
    decreases |queue|
  {
    if |queue| > 0 {
      ApplyKeepsSynced(w, queue[0].ty, queue[0].value);
      FlushKeepsSynced(Apply(w, queue[0].ty, queue[0].value).value, queue[1..]);
    }
  }
}
