/** The entity controller: hides and deactivates the world's entities while a session runs and puts
    back exactly what it changed. */
module EntityControl {

  type Entity = nat

  /** The null handle. */
  const NOBODY: Entity := 0

  datatype Body = Body(active: bool, hidden: bool)

  const DISABLED := Body(false, true)

  datatype ControlResult = ControlResult(changed: bool, affected: nat, restored: nat, failed: nat)

  const NOTHING := ControlResult(false, 0, 0, 0)

  /** The engine's entities. A setter either does what it is asked and says so, or fails, and may then
      leave the entity in any state. */
  class Backend {
    const eligible: set<Entity>     // the entities that are to be controlled at all
    var bodies: map<Entity, Body>
    ghost var failures: nat
    ghost var broken: set<Entity>   // the entities a setter failed on

    constructor (eligible: set<Entity>, bodies: map<Entity, Body>)
      ensures this.eligible == eligible && this.bodies == bodies && failures == 0 && broken == {}
    {
      this.eligible, this.bodies, failures, broken := eligible, bodies, 0, {};
    }

    predicate ShouldDisable(e: Entity) {
      e in eligible
    }

    method SetActive(e: Entity, value: bool) returns (ok: bool)
      requires e in bodies
      modifies this
      ensures e in bodies && bodies == old(bodies)[e := bodies[e]]
      ensures ok ==> bodies[e] == old(bodies)[e].(active := value) && failures == old(failures)
      ensures !ok ==> failures == old(failures) + 1
      ensures broken == if ok then old(broken) else old(broken) + {e}
    {
      ok := *;
      if ok {
        bodies := bodies[e := bodies[e].(active := value)];
      } else {
        var left: Body := *;
        bodies := bodies[e := left];
        failures, broken := failures + 1, broken + {e};
      }
    }

    method SetHidden(e: Entity, value: bool) returns (ok: bool)
      requires e in bodies
      modifies this
      ensures e in bodies && bodies == old(bodies)[e := bodies[e]]
      ensures ok ==> bodies[e] == old(bodies)[e].(hidden := value) && failures == old(failures)
      ensures !ok ==> failures == old(failures) + 1
      ensures broken == if ok then old(broken) else old(broken) + {e}
    {
      ok := *;
      if ok {
        bodies := bodies[e := bodies[e].(hidden := value)];
      } else {
        var left: Body := *;
        bodies := bodies[e := left];
        failures, broken := failures + 1, broken + {e};
      }
    }
  }

  datatype Call =
    | Switch(disabled: bool, entities: seq<Entity>)
    | Create(entity: Entity, body: Body)
    | Destroy(entity: Entity)
    | Register(entity: Entity)
    | Unregister(entity: Entity)

  class Controller {
    const backend: Backend
    var disabled: bool
    var players: set<Entity>
    var originals: map<Entity, Body>
    ghost var authentic: map<Entity, Body>   // how every entity would be if nobody controlled it

    ghost predicate Valid()
      reads this, backend
    {
      InControl() && (!disabled ==> originals == map[])
    }

    ghost predicate InControl()
      reads this, backend
    {
      && originals.Keys !! players
      && NOBODY !in players && NOBODY !in backend.bodies
      && originals.Keys <= backend.bodies.Keys
      && Faithful()
    }

    /** Except for entities that a setter failed on, controlled entities are disabled with their own
        state on record, and all others are as they would be anyway. */
    ghost predicate Faithful()
      reads this, backend
    {
      && authentic.Keys == backend.bodies.Keys
      && forall e :: e in backend.bodies && e !in backend.broken ==>
             if e in originals then originals[e] == authentic[e] && backend.bodies[e] == DISABLED
             else backend.bodies[e] == authentic[e]
    }

    /** Every entity that no setter ever failed on is as it would have been. */
    ghost predicate Restored()
      reads this, backend
    {
      && authentic.Keys == backend.bodies.Keys
      && forall e :: e in backend.bodies && e !in backend.broken ==> backend.bodies[e] == authentic[e]
    }

    constructor (backend: Backend)
      requires NOBODY !in backend.bodies
      ensures Valid() && this.backend == backend && !disabled && originals == map[] && players == {}
      ensures authentic == backend.bodies
    {
      this.backend, disabled, players, originals := backend, false, {}, map[];
      authentic := backend.bodies;
    }

    // ---------- the world around the controller ----------

    /** The engine creates an entity. */
    method Appear(e: Entity, body: Body)
      requires Valid() && e != NOBODY && e !in backend.bodies
      modifies this`authentic, backend
      ensures Valid() && backend.bodies == old(backend.bodies)[e := body] && authentic == old(authentic)[e := body]
      ensures backend.failures == old(backend.failures)
    {
      backend.bodies := backend.bodies[e := body];
      authentic := authentic[e := body];
    }

    // ---------- the controller ----------

    /** Sets both attributes back, the second even when the first fails. */
    method Restore(e: Entity, state: Body) returns (ok: bool)
      requires e in backend.bodies
      modifies backend
      ensures e in backend.bodies && backend.bodies == old(backend.bodies)[e := backend.bodies[e]]
      ensures ok <==> backend.failures == old(backend.failures)
      ensures backend.failures >= old(backend.failures)
      ensures backend.broken == if ok then old(backend.broken) else old(backend.broken) + {e}
      ensures ok ==> backend.bodies[e] == state
    {
      var hidden := backend.SetHidden(e, state.hidden);
      var active := backend.SetActive(e, state.active);
      ok := hidden && active;
    }

    /** Whether the controller takes an entity under control when no setter fails. */
    predicate Controls(e: Entity)
      reads this
    {
      e != NOBODY && e !in players && backend.ShouldDisable(e)
    }

    /** Hides and deactivates one entity. If a setter fails, both attributes are set back, and if these
        setters obey the entity is as it was. */
    method HideAndStop(e: Entity) returns (ok: bool)
      requires e in backend.bodies
      modifies backend
      ensures e in backend.bodies && backend.bodies == old(backend.bodies)[e := backend.bodies[e]]
      ensures ok <==> backend.failures == old(backend.failures)
      ensures backend.failures >= old(backend.failures)
      ensures backend.broken == if ok then old(backend.broken) else old(backend.broken) + {e}
      ensures ok ==> backend.bodies[e] == Body(false, true)
      ensures backend.failures == old(backend.failures) + 1 ==> backend.bodies == old(backend.bodies)
    {
      var original := backend.bodies[e];
      ok := backend.SetHidden(e, true);
      if ok {
        ok := backend.SetActive(e, false);
      }
      if !ok {
        var _ := Restore(e, original);
      }
    }

    method Disable(e: Entity) returns (result: ControlResult)
      requires Valid() && disabled && (e == NOBODY || e in backend.bodies)
      modifies this`originals, backend
      ensures Valid() && backend.bodies.Keys == old(backend.bodies).Keys && backend.failures >= old(backend.failures)
      ensures originals == old(originals)
           || (Controls(e) && e !in old(originals) && originals == old(originals)[e := old(backend.bodies)[e]])
      ensures Controls(e) && backend.failures == old(backend.failures) ==> e in originals
      ensures backend.failures != old(backend.failures) ==> originals == old(originals)
      ensures backend.failures == old(backend.failures) + 1 ==> backend.bodies == old(backend.bodies)
      ensures e in originals && e !in old(originals) ==>
                backend.bodies == old(backend.bodies)[e := Body(false, true)] && originals[e] == old(backend.bodies)[e]
      ensures backend.broken == if backend.failures == old(backend.failures) then old(backend.broken) else old(backend.broken) + {e}
      ensures !result.changed && result.restored == 0
      ensures result.affected == |originals| - |old(originals)|
      ensures result.failed == if backend.failures == old(backend.failures) then 0 else 1
    {
      result := NOTHING;
      if e == NOBODY || e in players || e in originals {
        return;
      }
      if !backend.ShouldDisable(e) {
        return;
      }
      var original := backend.bodies[e];
      var ok := HideAndStop(e);
      if !ok {
        return result.(failed := 1);
      }
      originals := originals[e := original];
      return result.(affected := 1);
    }

    /** Gives one controlled entity its own state back and forgets it. */
    method Release(e: Entity) returns (ok: bool)
      requires InControl() && e in originals
      modifies this`originals, backend
      ensures InControl() && originals == old(originals) - {e}
      ensures backend.bodies.Keys == old(backend.bodies).Keys && backend.failures >= old(backend.failures)
      ensures ok <==> backend.failures == old(backend.failures)
      ensures backend.broken == if ok then old(backend.broken) else old(backend.broken) + {e}
    {
      ok := Restore(e, originals[e]);
      originals := originals - {e};
    }

    /** Nothing is controlled but eligible entities of the list. */
    ghost predicate TookOnly(entities: seq<Entity>)
      reads this
    {
      forall e :: e in originals ==> e in entities && e != 0 && e !in players && e in backend.eligible
    }

    /** Every eligible entity of the list is controlled. */
    ghost predicate TookAll(entities: seq<Entity>)
      reads this
    {
      forall e :: e in entities && e != 0 && e !in players && e in backend.eligible ==> e in originals
    }

    /** The next entity of the list. */
    method DisableNext(e: Entity, ghost before: seq<Entity>) returns (result: ControlResult)
      requires Valid() && disabled && (e == NOBODY || e in backend.bodies) && TookOnly(before)
      modifies this`originals, backend
      ensures backend.failures == old(backend.failures) ==> backend.broken == old(backend.broken)
      ensures Valid() && TookOnly(before + [e])
      ensures old(TookAll(before)) && backend.failures == old(backend.failures) ==> TookAll(before + [e]) && result.failed == 0
      ensures result.affected == |originals| - |old(originals)|
      ensures backend.bodies.Keys == old(backend.bodies).Keys && backend.failures >= old(backend.failures)
    {
      result := Disable(e);
    }

    method DisableAll(entities: seq<Entity>) returns (result: ControlResult)
      requires Valid() && disabled && originals == map[]
      requires forall e :: e in entities ==> e == NOBODY || e in backend.bodies
      modifies this`originals, backend
      ensures backend.failures == old(backend.failures) ==> backend.broken == old(backend.broken)
      ensures Valid() && result.restored == 0 && result.affected == |originals|
      ensures TookOnly(entities)
      ensures backend.failures == old(backend.failures) ==> result.failed == 0 && TookAll(entities)
      ensures backend.bodies.Keys == old(backend.bodies).Keys && backend.failures >= old(backend.failures)
    {
      result := NOTHING;
      for i := 0 to |entities|
        invariant backend.failures == old(backend.failures) ==> backend.broken == old(backend.broken)
        invariant Valid() && result.restored == 0 && result.affected == |originals|
        invariant TookOnly(entities[..i])
        invariant backend.failures == old(backend.failures) ==> result.failed == 0 && TookAll(entities[..i])
        invariant backend.bodies.Keys == old(backend.bodies).Keys && backend.failures >= old(backend.failures)
      {
        assert entities[i] in entities && entities[..i + 1] == entities[..i] + [entities[i]];
        var applied := DisableNext(entities[i], entities[..i]);
        result := result.(affected := result.affected + applied.affected, failed := result.failed + applied.failed);
      }
      assert entities[..|entities|] == entities;
    }

    method ReleaseAll() returns (result: ControlResult)
      requires InControl()
      modifies this`originals, backend
      ensures backend.failures == old(backend.failures) ==> backend.broken == old(backend.broken)
      ensures InControl() && originals == map[]
      ensures result.restored + result.failed == |old(originals)| && result.affected == 0
      ensures backend.failures == old(backend.failures) ==> result.failed == 0
      ensures backend.bodies.Keys == old(backend.bodies).Keys && backend.failures >= old(backend.failures)
    {
      result := NOTHING;
      while originals != map[]
        invariant backend.failures == old(backend.failures) ==> backend.broken == old(backend.broken)
        invariant InControl() && result.affected == 0
        invariant result.restored + result.failed + |originals| == |old(originals)|
        invariant backend.failures == old(backend.failures) ==> result.failed == 0
        invariant backend.bodies.Keys == old(backend.bodies).Keys && backend.failures >= old(backend.failures)
        decreases |originals|
      {
        var e :| e in originals;
        var ok := Release(e);
        result := if ok then result.(restored := result.restored + 1) else result.(failed := result.failed + 1);
      }
    }

    /** Switches the control on for the given entities, or off for all. Switched off, every entity
        that no setter ever failed on is as it would have been. */
    method SetDisabled(disabled: bool, entities: seq<Entity>) returns (result: ControlResult)
      requires Valid() && forall e :: e in entities ==> e == NOBODY || e in backend.bodies
      modifies this`disabled, this`originals, backend
      ensures backend.failures == old(backend.failures) ==> backend.broken == old(backend.broken)
      ensures Valid() && this.disabled == disabled
      ensures result.changed <==> disabled != old(this.disabled)
      ensures !result.changed ==> result == NOTHING && originals == old(originals) && backend.bodies == old(backend.bodies)
      ensures result.changed && disabled ==> result.affected == |originals| && result.restored == 0
      ensures result.changed && disabled ==>
                forall e :: e in originals ==> e in entities && e != 0 && e !in players && e in backend.eligible
      ensures disabled ==> forall e :: e in originals && e !in backend.broken ==>
                backend.bodies[e] == Body(false, true) && e in authentic && originals[e] == authentic[e]
      ensures result.changed && disabled && backend.failures == old(backend.failures) ==>
                forall e :: e in entities && e != 0 && e !in players && e in backend.eligible ==> e in originals
      ensures result.changed && !disabled ==> result.restored + result.failed == |old(originals)| && result.affected == 0
      ensures !disabled ==> Restored()
      ensures !disabled ==> forall e :: e in backend.bodies && e !in backend.broken ==>
                e in authentic && backend.bodies[e] == authentic[e]
      ensures backend.failures == old(backend.failures) ==> result.failed == 0
      ensures backend.bodies.Keys == old(backend.bodies).Keys && backend.failures >= old(backend.failures)
    {
      if this.disabled == disabled {
        return NOTHING;
      }
      this.disabled := disabled;
      if disabled {
        result := DisableAll(entities);
      } else {
        result := ReleaseAll();
      }
      result := result.(changed := true);
    }

    /** On and off again: every entity that no setter failed on is as it was before. */
    method SwitchOnAndOff(entities: seq<Entity>)
      requires Valid() && !disabled && forall e :: e in entities ==> e == NOBODY || e in backend.bodies
      modifies this`disabled, this`originals, backend
      ensures Valid() && !disabled && originals == map[] && backend.bodies.Keys == old(backend.bodies).Keys
      ensures forall e :: e in old(backend.bodies) && e !in old(backend.broken) && e !in backend.broken ==>
                e in backend.bodies && backend.bodies[e] == old(backend.bodies)[e]
    {
      var _ := SetDisabled(true, entities);
      var _ := SetDisabled(false, []);
    }

    method EntityCreated(e: Entity) returns (result: ControlResult)
      requires Valid() && (e == NOBODY || e in backend.bodies)
      modifies this`originals, backend
      ensures Valid() && backend.bodies.Keys == old(backend.bodies).Keys && backend.failures >= old(backend.failures)
      ensures !disabled ==> result == NOTHING && originals == old(originals) && backend.bodies == old(backend.bodies)
      ensures disabled && Controls(e) && backend.failures == old(backend.failures) ==> e in originals
      ensures result.affected == |originals| - |old(originals)| && result.restored == 0 && !result.changed
    {
      if disabled {
        result := Disable(e);
      } else {
        result := NOTHING;
      }
    }

    method EntityDestroyed(e: Entity)
      requires Valid()
      modifies this`originals, this`players, this`authentic, backend
      ensures Valid() && originals == old(originals) - {e} && players == old(players) - {e}
      ensures backend.bodies == old(backend.bodies) - {e} && authentic == old(authentic) - {e}
      ensures backend.failures == old(backend.failures) && backend.broken == old(backend.broken) - {e}
    {
      originals := originals - {e};
      players := players - {e};
      backend.bodies := backend.bodies - {e};    // the engine frees it right after
      backend.broken := backend.broken - {e};
      authentic := authentic - {e};
    }

    /** Player entities are never controlled; one that was gets its state back. */
    method RegisterPlayer(e: Entity) returns (result: ControlResult)
      requires Valid()
      modifies this`originals, this`players, backend
      ensures Valid() && players == (if e == NOBODY then old(players) else old(players) + {e})
      ensures originals == old(originals) - {e}
      ensures result == if e !in old(originals) then NOTHING
                        else if backend.failures == old(backend.failures) then ControlResult(true, 0, 1, 0)
                        else ControlResult(true, 0, 0, 1)
      ensures backend.bodies.Keys == old(backend.bodies).Keys && backend.failures >= old(backend.failures)
      ensures e in backend.bodies && e !in backend.broken ==> e in authentic && backend.bodies[e] == authentic[e]
      ensures backend.broken <= old(backend.broken) + {e}
    {
      result := NOTHING;
      if e == NOBODY {
        return;
      }
      if e !in originals {
        players := players + {e};
        return;
      }
      var ok := Release(e);
      players := players + {e};
      result := if ok then ControlResult(true, 0, 1, 0) else ControlResult(true, 0, 0, 1);
    }

    method UnregisterPlayer(e: Entity)
      requires Valid()
      modifies this`players
      ensures Valid() && players == old(players) - {e}
    {
      players := players - {e};
    }

    /** The handles that lead to an entity. */
    static function Existing(entities: seq<Entity>, bodies: map<Entity, Body>): (r: seq<Entity>)
      ensures forall e :: e in r ==> e in entities && e in bodies
    {
      if entities == [] then []
      else
        var e := entities[|entities| - 1];
        Existing(entities[..|entities| - 1], bodies) + if e in bodies then [e] else []
    }

    /** Any run of calls. Whenever the control is off, every entity that no setter ever failed on is as
        it would have been without the controller. */
    method Serve(calls: seq<Call>)
      requires Valid()
      modifies this, backend
      ensures Valid()
      ensures !disabled ==> Restored()
    {
      for i := 0 to |calls|
        invariant Valid()
      {
        match calls[i] {
          case Switch(on, entities) =>
            var _ := SetDisabled(on, Existing(entities, backend.bodies));
          case Create(e, body) =>
            if e != NOBODY && e !in backend.bodies {
              Appear(e, body);
              var _ := EntityCreated(e);
            }
          case Destroy(e) =>
            EntityDestroyed(e);
          case Register(e) =>
            var _ := RegisterPlayer(e);
          case Unregister(e) =>
            UnregisterPlayer(e);
        }
      }
    }
  }
}
