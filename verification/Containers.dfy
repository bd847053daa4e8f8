/** Bringing a container's native inventory in line with the server's list of items. */
module Containers {
  import opened Common

  type Id = nat

  /** A native item; `definition` is missing when its class data is. Condition and quality are only compared. */
  datatype Item = Item(definition: Option<nat>, count: int, condition: int, quality: int, equippable: bool)

  datatype Wire = Wire(definition: nat, count: int, condition: int, quality: int)

  /** How often the engine was asked to change what is in the inventory. */
  datatype Tally = Tally(created: nat, removed: nat, resized: nat)

  /** The item is what the server wants under its id. */
  predicate Agrees(item: Item, wire: Wire) {
    && item.definition == Some(wire.definition) && item.count == wire.count && item.condition == wire.condition
    && (item.equippable ==> item.quality == wire.quality)
  }

  /** The inventory holds exactly the wanted ids, each as wanted. */
  ghost predicate Converged(items: map<Id, Item>, desired: map<Id, Wire>) {
    items.Keys == desired.Keys && forall id :: id in items ==> Agrees(items[id], desired[id])
  }

  /** What the server asks for under one id is possible: an item that is there has the wanted
      definition, and one that is not has ids that parse. */
  predicate CanProvide(items: map<Id, Item>, id: Id, wire: Wire, parses: bool) {
    if id in items then items[id].definition == Some(wire.definition) else parses
  }

  /** The native inventory by instance id. The engine obeys or refuses: creating, resizing and setting
      values report a refusal; a removal that is ignored does not, and is only counted. */
  class Inventory {
    var items: map<Id, Item>
    var tally: Tally
    ghost var ignored: nat
    ghost var refusals: nat

    constructor (items: map<Id, Item>)
      ensures this.items == items && tally == Tally(0, 0, 0) && ignored == 0 && refusals == 0
    {
      this.items, tally, ignored, refusals := items, Tally(0, 0, 0), 0, 0;
    }

    method RemoveItem(id: Id)
      requires id in items
      modifies this`items, this`tally, this`ignored
      ensures tally == old(tally).(removed := old(tally).removed + 1)
      ensures ignored == old(ignored) ==> items == old(items) - {id}
      ensures ignored != old(ignored) ==> items == old(items)
      ensures ignored >= old(ignored)
    {
      tally := tally.(removed := tally.removed + 1);
      if * {
        items := items - {id};
      } else {
        ignored := ignored + 1;
      }
    }

    /** Creates an item and gives it its instance id. */
    method CreateItem(id: Id, wire: Wire) returns (ok: bool)
      requires id !in items
      modifies this`items, this`tally, this`refusals
      ensures tally == old(tally).(created := old(tally).created + 1)
      ensures refusals == old(refusals) + if ok then 0 else 1
      ensures !ok ==> items == old(items)
      ensures ok ==> id in items && items == old(items)[id := items[id]]
                     && items[id].definition == Some(wire.definition) && items[id].count == wire.count
    {
      tally := tally.(created := tally.created + 1);
      ok := *;
      if ok {
        var quality: int, equippable: bool := *, *;
        items := items[id := Item(Some(wire.definition), wire.count, wire.condition, quality, equippable)];
      } else {
        refusals := refusals + 1;
      }
    }

    method ChangeAmount(id: Id, delta: int) returns (ok: bool)
      requires id in items
      modifies this`items, this`tally, this`refusals
      ensures tally == old(tally).(resized := old(tally).resized + 1)
      ensures refusals == old(refusals) + if ok then 0 else 1
      ensures items == if ok then old(items)[id := old(items)[id].(count := old(items)[id].count + delta)] else old(items)
    {
      tally := tally.(resized := tally.resized + 1);
      ok := *;
      if ok {
        items := items[id := items[id].(count := items[id].count + delta)];
      } else {
        refusals := refusals + 1;
      }
    }

    method SetCondition(id: Id, value: int) returns (ok: bool)
      requires id in items
      modifies this`items, this`refusals
      ensures refusals == old(refusals) + if ok then 0 else 1
      ensures items == if ok then old(items)[id := old(items)[id].(condition := value)] else old(items)
    {
      ok := *;
      if ok {
        items := items[id := items[id].(condition := value)];
      } else {
        refusals := refusals + 1;
      }
    }

    method SetQuality(id: Id, value: int) returns (ok: bool)
      requires id in items
      modifies this`items, this`refusals
      ensures refusals == old(refusals) + if ok then 0 else 1
      ensures items == if ok then old(items)[id := old(items)[id].(quality := value)] else old(items)
    {
      ok := *;
      if ok {
        items := items[id := items[id].(quality := value)];
      } else {
        refusals := refusals + 1;
      }
    }

    // ---------- reconciliation ----------

    /** Removes what the server does not list. */
    method RemoveUnwanted(desired: map<Id, Wire>)
      modifies this`items, this`tally, this`ignored
      ensures ignored >= old(ignored)
      ensures forall id :: id in items ==> id in old(items) && items[id] == old(items)[id]
      ensures forall id :: id in old(items) && id in desired ==> id in items
      ensures ignored == old(ignored) ==> items.Keys <= desired.Keys
      ensures old(items).Keys <= desired.Keys ==> items == old(items) && tally == old(tally) && ignored == old(ignored)
    {
      var todo := items.Keys;
      while todo != {}
        invariant todo <= items.Keys && ignored >= old(ignored)
        invariant forall id :: id in items ==> id in old(items) && items[id] == old(items)[id]
        invariant forall id :: id in old(items) && id in desired ==> id in items
        invariant ignored == old(ignored) ==> items.Keys <= desired.Keys + todo
        invariant old(items).Keys <= desired.Keys ==> items == old(items) && tally == old(tally) && ignored == old(ignored)
      {
        var id :| id in todo;
        todo := todo - {id};
        if id !in desired {
          RemoveItem(id);
        }
      }
    }

    /** Finds or creates the item of one wanted id and makes it agree. */
    method Provide(id: Id, wire: Wire, parses: bool) returns (ok: bool)
      modifies this`items, this`tally, this`refusals
      ensures items == old(items) || (id in items && items == old(items)[id := items[id]])
      ensures ok ==> id in items && Agrees(items[id], wire)
      ensures ok <==> refusals == old(refusals) && CanProvide(old(items), id, wire, parses)
      ensures refusals >= old(refusals)
      ensures id in old(items) && Agrees(old(items)[id], wire) ==> items == old(items) && tally == old(tally)
    {
      if id in items && items[id].definition != Some(wire.definition) {
        return false;
      }
      if id !in items {
        if !parses {
          return false;
        }
        ok := CreateItem(id, wire);
        if !ok {
          return;
        }
      } else if items[id].count != wire.count {
        ok := ChangeAmount(id, wire.count - items[id].count);
        if !ok {
          return;
        }
      }
      ok := SetCondition(id, wire.condition);
      if !ok {
        return;
      }
      if items[id].equippable {
        ok := SetQuality(id, wire.quality);
      }
    }

    /** Goes through the wanted items in whatever order and stops at the first that fails. */
    method ProvideAll(desired: map<Id, Wire>, parseable: set<Id>) returns (ok: bool)
      modifies this`items, this`tally, this`refusals
      ensures items.Keys <= old(items).Keys + desired.Keys && old(items).Keys <= items.Keys
      ensures forall id :: id in items && id !in desired ==> items[id] == old(items)[id]
      ensures ok ==> forall id :: id in desired ==> id in items && Agrees(items[id], desired[id])
      ensures ok <==> refusals == old(refusals)
                      && forall id :: id in desired ==> CanProvide(old(items), id, desired[id], id in parseable)
      ensures Converged(old(items), desired) ==> items == old(items) && tally == old(tally)
    {
      var todo := desired.Keys;
      while todo != {}
        invariant todo <= desired.Keys && refusals == old(refusals)
        invariant items.Keys <= old(items).Keys + desired.Keys && old(items).Keys <= items.Keys
        invariant forall id :: id in desired && id !in todo ==>
                    id in items && Agrees(items[id], desired[id]) && CanProvide(old(items), id, desired[id], id in parseable)
        invariant forall id :: id in todo || id !in desired ==>
                    (id in items <==> id in old(items)) && (id in items ==> items[id] == old(items)[id])
        invariant Converged(old(items), desired) ==> items == old(items) && tally == old(tally)
      {
        var id :| id in todo;
        todo := todo - {id};
        ok := Provide(id, desired[id], id in parseable);
        if !ok {
          return;
        }
      }
      ok := true;
    }

    /** Brings the inventory in line with the wanted items. Success, with every removal obeyed, means
        it holds exactly what is wanted; an inventory that does is not changed; and an engine that
        refuses nothing makes it succeed exactly when every wanted item is possible. */
    method ApplyInventory(desired: map<Id, Wire>, parseable: set<Id>) returns (ok: bool)
      modifies this
      ensures ok && ignored == old(ignored) ==> Converged(items, desired)
      ensures ok && ignored == old(ignored) ==>
                && (forall id :: id in items <==> id in desired)
                && forall id :: id in items ==>
                     && items[id].definition == Some(desired[id].definition)
                     && items[id].count == desired[id].count
                     && items[id].condition == desired[id].condition
                     && (items[id].equippable ==> items[id].quality == desired[id].quality)
      ensures ok <==> refusals == old(refusals)
                      && forall id :: id in desired ==>
                           if id in old(items) then old(items)[id].definition == Some(desired[id].definition) else id in parseable
      ensures Converged(old(items), desired) ==> items == old(items) && tally == old(tally) && ignored == old(ignored)
      ensures (forall id :: id in old(items) && id in desired ==> id in items) && ignored >= old(ignored)
    {
      RemoveUnwanted(desired);
      ok := ProvideAll(desired, parseable);
    }

    /** A second run after a successful one changes nothing. */
    method ApplyTwice(desired: map<Id, Wire>, parseable: set<Id>) returns (ok: bool, ghost once: map<Id, Item>, ghost asked: Tally)
      modifies this
      ensures ok && ignored == old(ignored) ==> items == once && tally == asked
    {
      ok := ApplyInventory(desired, parseable);
      once, asked := items, tally;
      if ok {
        var _ := ApplyInventory(desired, parseable);
      }
    }
  }
}
