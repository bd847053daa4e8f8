/** The two tables that bind server NPC ids to native entities. */
module NpcBinding {

  type NpcId = nat
  type EntityId = nat

  /** No entity. */
  const NO_ENTITY: EntityId := 0

  datatype Body = Body(hidden: bool, active: bool)

  datatype Record = Record(entity: EntityId, generation: nat, original: Body, inInterest: bool, localAuthority: bool)

  datatype NpcState = NpcState(npc: NpcId, generation: nat, guid: nat, dynamic: bool, kind: nat)

  datatype Restored = Restored(entity: EntityId, original: Body)

  /** The entity system: entities with kind and visible state, some of them under an authored guid. */
  class World {
    var kinds: map<EntityId, nat>
    var bodies: map<EntityId, Body>
    var guids: map<nat, EntityId>
    var restored: seq<Restored>      // what was put back, in order

    ghost predicate Valid()
      reads this
    {
      NO_ENTITY !in kinds && kinds.Keys == bodies.Keys
    }

    constructor ()
      ensures Valid() && restored == []
    {
      kinds, bodies, guids, restored := map[], map[], map[], [];
    }

    function FindByGuid(guid: nat): EntityId
      reads this
    {
      if guid in guids then guids[guid] else NO_ENTITY
    }

    /** Creates an actor of some kind, under an id the engine chooses, or nothing. */
    method CreateActor() returns (e: EntityId)
      requires Valid()
      modifies this`kinds, this`bodies
      ensures Valid() && (e == NO_ENTITY || e in kinds)
      ensures e !in old(kinds)
      ensures forall x :: x in old(kinds) ==> x in kinds && kinds[x] == old(kinds)[x] && bodies[x] == old(bodies)[x]
      ensures kinds.Keys == old(kinds).Keys + (if e == NO_ENTITY then {} else {e})
    {
      e := *;
      if e in kinds {
        e := NO_ENTITY;
      }
      if e != NO_ENTITY {
        var kind: nat := *;
        var body: Body := *;
        kinds, bodies := kinds[e := kind], bodies[e := body];
      }
    }

    /** Puts an entity's state back if it still exists. */
    method Restore(e: EntityId, original: Body)
      requires Valid()
      modifies this`bodies, this`restored
      ensures Valid()
      ensures restored == old(restored) + if e in kinds then [Restored(e, original)] else []
      ensures bodies == if e in kinds then old(bodies)[e := original] else old(bodies)
    {
      if e in kinds {
        bodies := bodies[e := original];
        restored := restored + [Restored(e, original)];
      }
    }

    /** Between two calls the game goes on: entities come and go, move and change. */
    method LiveOn(kinds: map<EntityId, nat>, bodies: map<EntityId, Body>, guids: map<nat, EntityId>)
      requires NO_ENTITY !in kinds && kinds.Keys == bodies.Keys
      modifies this`kinds, this`bodies, this`guids
      ensures Valid() && this.kinds == kinds && this.bodies == bodies && this.guids == guids
    {
      this.kinds, this.bodies, this.guids := kinds, bodies, guids;
    }

    /** Takes an entity over or gives it up; may fail. */
    method SetRole(e: EntityId) returns (ok: bool)
      requires Valid()
      modifies this`bodies
      ensures Valid() && bodies == if e in kinds then old(bodies)[e := bodies[e]] else old(bodies)
    {
      ok := *;
      if e in kinds {
        var body: Body := *;
        bodies := bodies[e := body];
      }
    }
  }

  datatype Call =
    | Apply(state: NpcState, authority: bool)
    | Remove(npc: NpcId, generation: nat)
    | EntityRemoved(entity: EntityId)
    | RestoreWorld
    | Elapse(kinds: map<EntityId, nat>, bodies: map<EntityId, Body>, guids: map<nat, EntityId>)
  {
    /** The engine never hands out the null id. */
    predicate Possible() {
      match this
      case EntityRemoved(e) => e != NO_ENTITY
      case Elapse(kinds, bodies, _) => NO_ENTITY !in kinds && kinds.Keys == bodies.Keys
      case _ => true
    }
  }

  class Bindings {
    const world: World
    var managed: map<NpcId, Record>
    var byEntity: map<EntityId, NpcId>
    ghost var found: map<EntityId, Body>    // how every bound entity was when it was bound

    /** The tables are mutually inverse, so no entity carries two NPC ids and no NPC two entities; and
        the record of a bound entity remembers how it was found. */
    ghost predicate Valid()
      reads this, world
    {
      && world.Valid()
      && NO_ENTITY !in byEntity
      && (forall npc :: npc in managed && managed[npc].entity != NO_ENTITY ==>
            managed[npc].entity in byEntity && byEntity[managed[npc].entity] == npc)
      && (forall e :: e in byEntity ==> byEntity[e] in managed && managed[byEntity[e]].entity == e)
      && found.Keys == byEntity.Keys
      && (forall e :: e in byEntity ==> managed[byEntity[e]].original == found[e])
    }

    constructor (world: World)
      requires world.Valid()
      ensures Valid() && this.world == world && managed == map[] && byEntity == map[]
    {
      this.world, managed, byEntity, found := world, map[], map[], map[];
    }

    /** The entity an NPC state is about: the one it is bound to, else the one with its authored guid. */
    function Candidate(state: NpcState): EntityId
      reads this, world
    {
      if state.npc in managed && managed[state.npc].entity != NO_ENTITY then managed[state.npc].entity
      else world.FindByGuid(state.guid)
    }

    /** Forgets an NPC's entity and puts the entity back. */
    method Release(npc: NpcId)
      requires Valid() && npc in managed
      modifies this, world
      ensures Valid() && managed == old(managed) - {npc} && byEntity == old(byEntity) - {old(managed)[npc].entity}
      ensures found == old(found) - {old(managed)[npc].entity}
      ensures world.kinds == old(world.kinds) && world.guids == old(world.guids)
      ensures world.restored == old(world.restored) +
        if old(managed)[npc].entity in world.kinds then [Restored(old(managed)[npc].entity, old(managed)[npc].original)] else []
      ensures world.bodies == if old(managed)[npc].entity in world.kinds
                              then old(world.bodies)[old(managed)[npc].entity := old(managed)[npc].original] else old(world.bodies)
    {
      var record := managed[npc];
      byEntity := byEntity - {record.entity};
      found := found - {record.entity};
      world.Restore(record.entity, record.original);
      managed := managed - {npc};
    }

    /** The record after binding: the old one if the NPC keeps its entity, else one that remembers
        how the entity is right now. */
    static function Rebound(old': map<NpcId, Record>, state: NpcState, e: EntityId, body: Body, authority: bool): Record {
      var record := if state.npc in old' && old'[state.npc].entity == e then old'[state.npc]
                    else Record(e, state.generation, body, true, authority);
      record.(inInterest := true, localAuthority := authority)
    }

    /** The entity an NPC holds, if any. */
    static function Held(managed: map<NpcId, Record>, npc: NpcId): set<EntityId> {
      if npc in managed then {managed[npc].entity} else {}
    }

    /** Binds an NPC to an entity that nobody else holds, giving up the one it had. */
    method Bind(state: NpcState, e: EntityId, authority: bool)
      requires Valid() && e in world.kinds && (e in byEntity ==> byEntity[e] == state.npc)
      modifies this, world
      ensures Valid() && world.kinds == old(world.kinds) && world.guids == old(world.guids)
      ensures managed == old(managed)[state.npc := Rebound(old(managed), state, e, old(world.bodies)[e], authority)]
      ensures byEntity == (old(byEntity) - Held(old(managed), state.npc))[e := state.npc]
      ensures var kept := state.npc in old(managed) && old(managed)[state.npc].entity == e;
              && managed[state.npc].original == (if kept then old(managed)[state.npc].original else old(world.bodies)[e])
              && managed[state.npc].generation == (if kept then old(managed)[state.npc].generation else state.generation)
              && found == if kept then old(found) else (old(found) - Held(old(managed), state.npc))[e := old(world.bodies)[e]]
      ensures state.npc in old(managed) && old(managed)[state.npc].entity != e && old(managed)[state.npc].entity in world.kinds ==>
                world.restored == old(world.restored) + [Restored(old(managed)[state.npc].entity, old(managed)[state.npc].original)]
      ensures forall x :: x in world.bodies ==>
                world.bodies[x] == if x != e && x in Held(old(managed), state.npc) then old(managed)[state.npc].original else old(world.bodies)[x]
    {
      if state.npc in managed && managed[state.npc].entity != e {
        Release(state.npc);
      }
      if state.npc !in managed {
        Enter(state, e, authority);
      } else {
        byEntity := byEntity[e := state.npc];
        managed := managed[state.npc := managed[state.npc].(inInterest := true, localAuthority := authority)];
      }
    }

    /** Enters an NPC that has no record, with its entity as it is now. */
    method Enter(state: NpcState, e: EntityId, authority: bool)
      requires Valid() && e in world.kinds && e !in byEntity && state.npc !in managed
      modifies this
      ensures Valid() && byEntity == old(byEntity)[e := state.npc]
      ensures managed == old(managed)[state.npc := Record(e, state.generation, world.bodies[e], true, authority)]
      ensures found == old(found)[e := world.bodies[e]]
    {
      managed := managed[state.npc := Record(e, state.generation, world.bodies[e], true, authority)];
      byEntity := byEntity[e := state.npc];
      found := found[e := world.bodies[e]];
    }

    /** The entity a state is about: the one the NPC is bound to, else the one with its authored guid, and
        only if there is none a new one. `met` is how it looks then. */
    method Locate(state: NpcState) returns (e: EntityId, ghost met: Body)
      requires Valid()
      modifies world`kinds, world`bodies
      ensures Valid() && (e in world.kinds ==> met == world.bodies[e])
      ensures state.npc in managed && managed[state.npc].entity != NO_ENTITY
              && (managed[state.npc].entity in old(world.kinds) || !state.dynamic) ==>
                e == managed[state.npc].entity
      ensures !(state.npc in managed && managed[state.npc].entity != NO_ENTITY)
              && state.guid in world.guids && (world.guids[state.guid] in old(world.kinds) || !state.dynamic) ==>
                e == world.guids[state.guid]
      ensures e in old(world.kinds) ==>
                if state.npc in managed && managed[state.npc].entity != NO_ENTITY then e == managed[state.npc].entity
                else state.guid in world.guids && e == world.guids[state.guid]
      ensures forall x :: x in old(world.kinds) ==>
                x in world.kinds && world.kinds[x] == old(world.kinds)[x] && world.bodies[x] == old(world.bodies)[x]
    {
      e := Candidate(state);
      if e !in world.kinds && state.dynamic {
        e := world.CreateActor();
      }
      met := if e in world.bodies then world.bodies[e] else Body(false, false);
    }

    /** Binds an NPC to an entity and takes the entity over. */
    method Adopt(state: NpcState, e: EntityId, authority: bool) returns (ok: bool)
      requires Valid() && e in world.kinds && (e in byEntity ==> byEntity[e] == state.npc)
      modifies this, world
      ensures Valid() && world.kinds == old(world.kinds) && world.guids == old(world.guids)
      ensures byEntity == (old(byEntity) - Held(old(managed), state.npc))[e := state.npc]
      ensures state.npc in managed && managed[state.npc].entity == e
      ensures managed[state.npc].inInterest && managed[state.npc].localAuthority == authority
      ensures forall npc :: npc != state.npc ==>
                (npc in managed <==> npc in old(managed)) && (npc in managed ==> managed[npc] == old(managed)[npc])
      ensures var kept := state.npc in old(managed) && old(managed)[state.npc].entity == e;
              && managed[state.npc].original == (if kept then old(managed)[state.npc].original else old(world.bodies)[e])
              && managed[state.npc].generation == (if kept then old(managed)[state.npc].generation else state.generation)
              && found == if kept then old(found) else (old(found) - Held(old(managed), state.npc))[e := old(world.bodies)[e]]
      ensures forall x :: x in world.bodies && x != e ==>
                world.bodies[x] == if x in Held(old(managed), state.npc) then old(managed)[state.npc].original else old(world.bodies)[x]
    {
      Bind(state, e, authority);
      ok := world.SetRole(e);
    }

    /** Takes in the server's state of one NPC. It adopts an entity that is already there before it
        spawns one, and never an entity that belongs to another NPC. */
    method ApplyNpcState(state: NpcState, authority: bool) returns (ok: bool, e: EntityId, ghost met: Body)
      requires Valid()
      modifies this, world
      ensures Valid()
      // the entity the state is about
      ensures state.npc in old(managed) && old(managed)[state.npc].entity != NO_ENTITY
              && (old(managed)[state.npc].entity in old(world.kinds) || !state.dynamic) ==>
                e == old(managed)[state.npc].entity
      ensures !(state.npc in old(managed) && old(managed)[state.npc].entity != NO_ENTITY)
              && state.guid in old(world.guids) && (old(world.guids)[state.guid] in old(world.kinds) || !state.dynamic) ==>
                e == old(world.guids)[state.guid]
      ensures e in old(world.kinds) ==>
                if state.npc in old(managed) && old(managed)[state.npc].entity != NO_ENTITY
                then e == old(managed)[state.npc].entity
                else state.guid in old(world.guids) && e == old(world.guids)[state.guid]
      ensures e in old(world.kinds) ==> met == old(world.bodies)[e]
      // when it is adopted, and what the tables say then
      ensures var adopts := e in world.kinds && world.kinds[e] == state.kind && (e in old(byEntity) ==> old(byEntity)[e] == state.npc);
              && (!adopts ==> ok && managed == old(managed) && byEntity == old(byEntity) && found == old(found))
              && (adopts ==>
                    && byEntity == (old(byEntity) - Held(old(managed), state.npc))[e := state.npc]
                    && state.npc in managed && managed[state.npc].entity == e
                    && managed[state.npc].inInterest && managed[state.npc].localAuthority == authority)
      // what is remembered about it: the first state it was met in, and the generation of that moment
      ensures state.npc in managed && managed[state.npc].entity == e && e in old(byEntity) && old(byEntity)[e] == state.npc ==>
                && managed[state.npc].original == old(managed)[state.npc].original
                && managed[state.npc].generation == old(managed)[state.npc].generation
                && e in found && e in old(found) && found[e] == old(found)[e]
      ensures state.npc in managed && managed[state.npc].entity == e && e in byEntity && e !in old(byEntity) ==>
                && managed[state.npc].original == met && managed[state.npc].generation == state.generation
                && e in found && found[e] == met
      // everybody else
      ensures forall npc :: npc != state.npc ==>
                (npc in managed <==> npc in old(managed)) && (npc in managed ==> managed[npc] == old(managed)[npc])
      ensures forall x :: x in old(found) && x in found && x != e ==> found[x] == old(found)[x]
      ensures forall x :: x in old(world.bodies) && x != e ==>
                x in world.bodies
                && world.bodies[x] == if state.npc in managed && managed[state.npc].entity == e && x in Held(old(managed), state.npc)
                                      then old(managed)[state.npc].original else old(world.bodies)[x]
    {
      e, met := Locate(state);
      if e !in world.kinds || world.kinds[e] != state.kind {
        return true, e, met;
      }
      if e in byEntity && byEntity[e] != state.npc {
        return true, e, met;
      }
      ok := Adopt(state, e, authority);
    }

    method RemoveNpcState(npc: NpcId, generation: nat)
      requires Valid()
      modifies this`managed, world`bodies
      ensures Valid() && managed.Keys == old(managed).Keys
      ensures forall other :: other in managed && !(other == npc && old(managed)[npc].generation == generation) ==>
                managed[other] == old(managed)[other]
      ensures npc in managed && old(managed)[npc].generation == generation ==>
                managed[npc] == old(managed)[npc].(inInterest := false)
      ensures forall x :: x in world.bodies && world.bodies[x] != old(world.bodies)[x] ==>
                npc in managed && managed[npc].generation == generation && managed[npc].entity == x
      ensures world.bodies.Keys == old(world.bodies).Keys
    {
      if npc !in managed || managed[npc].generation != generation {
        return;
      }
      managed := managed[npc := managed[npc].(inInterest := false)];
      var _ := world.SetRole(managed[npc].entity);
    }

    /** The engine deleted an entity: its NPC stays known but unbound. */
    method EntityRemoved(e: EntityId)
      requires Valid() && e != NO_ENTITY
      modifies this
      ensures Valid() && byEntity == old(byEntity) - {e} && managed.Keys == old(managed).Keys && found == old(found) - {e}
      ensures forall npc :: npc in managed && old(managed)[npc].entity == e ==>
                managed[npc] == old(managed)[npc].(entity := NO_ENTITY)
      ensures forall npc :: npc in managed && old(managed)[npc].entity != e ==> managed[npc] == old(managed)[npc]
    {
      byEntity := byEntity - {e};
      found := found - {e};
      managed := map npc | npc in managed ::
        if managed[npc].entity == e then managed[npc].(entity := NO_ENTITY) else managed[npc];
    }

    /** Every managed entity that still exists is put back, in whatever order, and both tables are emptied. */
    method RestoreWorld()
      requires Valid()
      modifies this, world
      ensures Valid() && managed == map[] && byEntity == map[] && world.kinds == old(world.kinds)
      ensures forall e :: e in old(byEntity) && e in world.kinds ==> world.bodies[e] == old(found)[e]
      ensures forall e :: e in world.kinds && e !in old(byEntity) ==> world.bodies[e] == old(world.bodies)[e]
    {
      var todo := managed.Keys;
      while todo != {}
        invariant Valid() && managed == old(managed) && byEntity == old(byEntity) && found == old(found) && world.kinds == old(world.kinds)
        invariant todo <= managed.Keys
        invariant forall e :: e in byEntity && e in world.kinds && byEntity[e] !in todo ==> world.bodies[e] == managed[byEntity[e]].original
        invariant forall e :: e in world.kinds && e !in byEntity ==> world.bodies[e] == old(world.bodies)[e]
      {
        var npc :| npc in todo;
        todo := todo - {npc};
        world.Restore(managed[npc].entity, managed[npc].original);
      }
      managed, byEntity, found := map[], map[], map[];
    }

    /** Any run of calls, with the game going on in between. */
    method Serve(calls: seq<Call>)
      requires Valid() && forall c :: c in calls ==> c.Possible()
      modifies this, world
      ensures Valid()
    {
      for i := 0 to |calls|
        invariant Valid()
      {
        assert calls[i] in calls;
        match calls[i] {
          case Apply(state, authority) =>
            var ok, e;
            ghost var met;
            ok, e, met := ApplyNpcState(state, authority);
          case Remove(npc, generation) =>
            RemoveNpcState(npc, generation);
          case EntityRemoved(entity) =>
            EntityRemoved(entity);
          case RestoreWorld =>
            RestoreWorld();
          case Elapse(kinds, bodies, guids) =>
            world.LiveOn(kinds, bodies, guids);
        }
      }
    }
  }
}
