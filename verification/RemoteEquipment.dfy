/** Dressing a remote avatar: greedy matching of tracked items against the wanted ones, removal of
    stale items, then create, tag, equip, verify and discard, against an engine that may refuse
    any step. */
module RemoteEquipment {
  import opened Common

  type Handle = nat
  type Guid = nat

  datatype Item = Item(definition: Guid, instance: Guid, equipped: bool, slot: Option<string>)

  /** What the engine may change about an item behind the caller's back. */
  datatype Wear = Wear(equipped: bool, slot: Option<string>)

  /** What the inventory holds, and which items were put on or off by a request for another item. */
  datatype Wardrobe = Wardrobe(items: map<Handle, Item>, displaced: set<Guid>) {
    function Without(h: Handle): Wardrobe {
      this.(items := items - {h})
    }

    /** Every item is still there, and worn as before unless a request for another item displaced it. */
    ghost predicate LeftAloneIn(after: Wardrobe) {
      forall h :: h in items ==>
        && h in after.items
        && after.items[h].definition == items[h].definition && after.items[h].instance == items[h].instance
        && (items[h].instance in displaced ==> items[h].instance in after.displaced)
        && (after.items[h] == items[h] || items[h].instance in after.displaced)
    }

    /** The item is there, of the given definition, and worn in the slot unless it was displaced. */
    ghost predicate Wears(definition: Guid, instance: Guid, slot: string) {
      exists h :: h in items && items[h].instance == instance && items[h].definition == definition
                  && ((items[h].equipped && items[h].slot == Some(slot)) || instance in displaced)
    }
  }

  lemma StillWears(before: Wardrobe, after: Wardrobe, definition: Guid, instance: Guid, slot: string)
    requires before.LeftAloneIn(after) && before.Wears(definition, instance, slot)
    ensures after.Wears(definition, instance, slot)
  {
    var h :| h in before.items && before.items[h].instance == instance && before.items[h].definition == definition
             && ((before.items[h].equipped && before.items[h].slot == Some(slot)) || instance in before.displaced);
    assert h in after.items;
  }

  /** Steps that concern one item `h` leave alone whoever was there before it. */
  lemma LeftAloneTwice(a: Wardrobe, b: Wardrobe, c: Wardrobe, h: Handle)
    requires a.LeftAloneIn(b) && h !in a.items && b.Without(h).LeftAloneIn(c)
    ensures a.LeftAloneIn(c)
  {
    forall k | k in a.items
      ensures k in c.items && c.items[k].definition == a.items[k].definition && c.items[k].instance == a.items[k].instance
      ensures a.items[k].instance in a.displaced ==> a.items[k].instance in c.displaced
      ensures c.items[k] == a.items[k] || a.items[k].instance in c.displaced
    {
      assert k in b.Without(h).items;
    }
  }

  /** The native engine. Its methods choose freely whether to obey. */
  class Engine {
    var items: map<Handle, Item>
    var weaponDrawn: bool
    ghost var refusals: nat             // how often the engine did not do what it was asked
    ghost var displaced: set<Guid>      // items put on or off by a request for another item in the current call

    ghost predicate Valid()
      reads this
    {
      forall h, k :: h in items && k in items && h != k ==> items[h].instance != items[k].instance
    }

    constructor ()
      ensures Valid() && items == map[] && refusals == 0 && displaced == {} && !weaponDrawn
    {
      items, refusals, displaced, weaponDrawn := map[], 0, {}, false;
    }

    ghost function Now(): Wardrobe
      reads this`items, this`displaced
    {
      Wardrobe(items, displaced)
    }

    function Ids(): set<Guid>
      reads this
    {
      set h | h in items :: items[h].instance
    }

    /** Every item of `part` is in `whole` under the same ids, however it is worn. */
    static predicate PartOf(part: map<Handle, Item>, whole: map<Handle, Item>) {
      && part.Keys <= whole.Keys
      && forall h :: h in part ==>
           part[h].definition == whole[h].definition && part[h].instance == whole[h].instance
    }

    /** `after` holds the same items as `before`, however they are worn. */
    static predicate SameItems(before: map<Handle, Item>, after: map<Handle, Item>) {
      after.Keys == before.Keys && PartOf(after, before)
    }

    method Find(id: Guid) returns (found: Option<Handle>)
      ensures found.None? <==> id !in Ids()
      ensures found.Some? ==> found.value in items && items[found.value].instance == id
    {
      if h :| h in items && items[h].instance == id {
        found := Some(h);
      } else {
        found := None;
      }
    }

    /** A new call begins: what was displaced before it no longer matters. */
    ghost method Watch()
      modifies this`displaced
      ensures displaced == {}
    {
      displaced := {};
    }

    /** The items other than `h` that are worn differently. */
    static ghost function Others(before: map<Handle, Item>, after: map<Handle, Item>, h: Handle): set<Guid>
      requires before.Keys == after.Keys
    {
      set k | k in after && k != h && after[k] != before[k] :: after[k].instance
    }

    /** Equipping or unequipping `h` may rearrange how every item is worn. */
    method Rearrange(h: Handle, worn: map<Handle, Wear>)
      requires Valid() && h in items
      modifies this`items, this`displaced
      ensures Valid() && SameItems(old(items), items) && old(Now()).Without(h).LeftAloneIn(Now())
      ensures items[h].instance in displaced ==> items[h].instance in old(displaced)
    {
      ghost var before := items;
      items := map k | k in items ::
        if k in worn then items[k].(equipped := worn[k].equipped, slot := worn[k].slot) else items[k];
      displaced := displaced + Others(before, items, h);
      assert forall k :: k in items && k != h && items[k] != before[k] ==> items[k].instance in Others(before, items, h);
    }

    /** Equips the item somewhere, or not at all. It counts as refused unless it is worn in the wanted slot. */
    method EquipItem(h: Handle, ghost wanted: string)
      requires Valid() && h in items
      modifies this`items, this`refusals, this`displaced
      ensures Valid() && SameItems(old(items), items) && old(Now()).Without(h).LeftAloneIn(Now())
      ensures items[h].instance in displaced ==> items[h].instance in old(displaced)
      ensures refusals == old(refusals) + if items[h].equipped && items[h].slot == Some(wanted) then 0 else 1
    {
      var worn: map<Handle, Wear> := *;
      Rearrange(h, worn);
      refusals := refusals + if items[h].equipped && items[h].slot == Some(wanted) then 0 else 1;
    }

    method UnequipItem(h: Handle)
      requires Valid() && h in items
      modifies this`items, this`refusals, this`displaced
      ensures Valid() && SameItems(old(items), items) && old(Now()).Without(h).LeftAloneIn(Now())
      ensures refusals == old(refusals) + if items[h].equipped then 1 else 0
    {
      var worn: map<Handle, Wear> := *;
      Rearrange(h, worn);
      refusals := refusals + if items[h].equipped then 1 else 0;
    }

    /** The player draws a weapon. */
    method DrawWeapon()
      modifies this`weaponDrawn
      ensures weaponDrawn
    {
      weaponDrawn := true;
    }

    /** Puts a drawn weapon away, or refuses. */
    method Holster() returns (ok: bool)
      modifies this`weaponDrawn, this`refusals
      ensures weaponDrawn == (old(weaponDrawn) && !ok)
      ensures refusals == old(refusals) + if ok then 0 else 1
    {
      ok := *;
      weaponDrawn := weaponDrawn && !ok;
      refusals := refusals + if ok then 0 else 1;
    }

    /** Removes an item that is not worn, or leaves it where it is. */
    method RemoveItem(h: Handle)
      requires Valid() && h in items && !items[h].equipped
      modifies this`items, this`refusals
      ensures Valid()
      ensures items == old(items) || items == old(items) - {h}
      ensures refusals == old(refusals) + if h in items then 1 else 0
    {
      if * {
        items := items - {h};
      } else {
        refusals := refusals + 1;
      }
    }

    /** A new item under the engine's own instance id, or a refusal. */
    method CreateItem(definition: Guid) returns (created: Option<Handle>)
      requires Valid()
      modifies this`items, this`refusals
      ensures Valid()
      ensures refusals == old(refusals) + if created.None? then 1 else 0
      ensures created.None? ==> items == old(items)
      ensures created.Some? ==>
                && created.value !in old(items)
                && created.value in items && items[created.value].definition == definition
                && items - {created.value} == old(items)
    {
      if * {
        refusals := refusals + 1;
        return None;
      }
      var h := Fresh(items.Keys);
      var instance := Fresh(Ids());
      items := items[h := Item(definition, instance, false, Option.None)];
      created := Some(h);
    }

    method SetInstanceGuid(h: Handle, id: Guid)
      requires Valid() && h in items && id !in Ids()
      modifies this`items, this`displaced
      ensures Valid() && items == old(items)[h := old(items)[h].(instance := id)]
      ensures displaced == old(displaced) - {id}
    {
      items := items[h := items[h].(instance := id)];
      displaced := displaced - {id};
    }
  }

  // ---------- matching ----------

  datatype Wanted = Wanted(definition: string, slot: string)

  datatype Tracked = Tracked(key: Wanted, instance: Guid)

  function Keys(s: seq<Tracked>): seq<Wanted> {
    if s == [] then [] else Keys(s[..|s| - 1]) + [s[|s| - 1].key]
  }

  function TrackedIds(s: seq<Tracked>): set<Guid> {
    set t | t in s :: t.instance
  }

  /** The keys of the entries whose flag equals `flag`. */
  function Flagged(s: seq<Tracked>, flags: seq<bool>, flag: bool): multiset<Wanted>
    requires |flags| == |s|
  {
    if s == [] then multiset{}
    else
      var n := |s| - 1;
      Flagged(s[..n], flags[..n], flag) + if flags[n] == flag then multiset{s[n].key} else multiset{}
  }

  lemma {:induction false} FlagsSplitKeys(s: seq<Tracked>, flags: seq<bool>)
    requires |flags| == |s|
    ensures Flagged(s, flags, true) + Flagged(s, flags, false) == multiset(Keys(s))
  {
    if s != [] { FlagsSplitKeys(s[..|s| - 1], flags[..|s| - 1]); }
  }

  lemma {:induction false} RaiseFlag(s: seq<Tracked>, flags: seq<bool>, i: nat)
    requires |flags| == |s| && i < |s| && !flags[i]
    ensures Flagged(s, flags[i := true], true) == Flagged(s, flags, true) + multiset{s[i].key}
    ensures s[i].key in Flagged(s, flags, false)
  {
    var n := |s| - 1;
    if i < n {
      RaiseFlag(s[..n], flags[..n], i);
      assert flags[i := true][..n] == flags[..n][i := true];
    } else {
      assert flags[i := true][..n] == flags[..n];
    }
  }

  lemma {:induction false} NoneLowered(s: seq<Tracked>, flags: seq<bool>, k: Wanted)
    requires |flags| == |s|
    requires forall i :: 0 <= i < |s| && s[i].key == k ==> flags[i]
    ensures k !in Flagged(s, flags, false)
  {
    if s != [] {
      var n := |s| - 1;
      NoneLowered(s[..n], flags[..n], k);
    }
  }

  lemma KeysAppend(s: seq<Tracked>, t: Tracked)
    ensures Keys(s + [t]) == Keys(s) + [t.key]
  {
    assert (s + [t])[..|s|] == s;
  }

  /** `next` holds the flagged entries, as many of every key as are both wanted and tracked. */
  ghost predicate IsMatching(desired: seq<Wanted>, tracked: seq<Tracked>, retained: seq<bool>, next: seq<Tracked>) {
    && |retained| == |tracked|
    && multiset(Keys(next)) == multiset(desired) * multiset(Keys(tracked))
    && Flagged(tracked, retained, true) == multiset(Keys(next))
    && TakesRetained(tracked, retained, next)
  }

  /** `next` lists the retained entries, each once. */
  ghost predicate TakesRetained(tracked: seq<Tracked>, retained: seq<bool>, next: seq<Tracked>)
    requires |retained| == |tracked|
  {
    && (forall t :: t in next ==> exists i :: 0 <= i < |tracked| && retained[i] && tracked[i] == t)
    && (forall i :: 0 <= i < |tracked| && retained[i] ==> tracked[i] in next)
    && (DistinctIds(tracked) ==> DistinctIds(next))
  }

  /** No two entries name one item. */
  predicate DistinctIds(s: seq<Tracked>) {
    forall i, j :: 0 <= i < j < |s| ==> s[i].instance != s[j].instance
  }

  lemma MatchOne(desired: seq<Wanted>, tracked: seq<Tracked>, retained: seq<bool>, next: seq<Tracked>, k: Wanted, i: nat)
    requires IsMatching(desired, tracked, retained, next)
    requires i < |tracked| && !retained[i] && tracked[i].key == k
    ensures IsMatching(desired + [k], tracked, retained[i := true], next + [tracked[i]])
  {
    FlagsSplitKeys(tracked, retained);
    RaiseFlag(tracked, retained, i);
    KeysAppend(next, tracked[i]);
    var kept, all, lowered := multiset(Keys(next)), multiset(Keys(tracked)), Flagged(tracked, retained, false);
    assert kept[k] < all[k] by { assert all[k] == kept[k] + lowered[k]; }
    OneMoreInCommon(multiset(desired), all, k);
    assert multiset(desired + [k]) == multiset(desired) + multiset{k};
    assert multiset(Keys(next) + [k]) == kept + multiset{k};
    MatchOneEntries(tracked, retained, next, i);
  }

  lemma OneMoreInCommon<T>(w: multiset<T>, t: multiset<T>, k: T)
    requires (w * t)[k] < t[k]
    ensures (w + multiset{k}) * t == w * t + multiset{k}
  {
  }

  lemma MatchOneEntries(tracked: seq<Tracked>, retained: seq<bool>, next: seq<Tracked>, i: nat)
    requires |retained| == |tracked| && i < |tracked| && !retained[i]
    requires TakesRetained(tracked, retained, next)
    ensures TakesRetained(tracked, retained[i := true], next + [tracked[i]])
  {
    var now := retained[i := true];
    forall t | t in next + [tracked[i]] ensures exists j :: 0 <= j < |tracked| && now[j] && tracked[j] == t {
      if t in next {
        var j :| 0 <= j < |tracked| && retained[j] && tracked[j] == t;
        assert now[j];
      } else {
        assert now[i];
      }
    }
    if DistinctIds(tracked) {
      forall k | 0 <= k < |next| ensures next[k].instance != tracked[i].instance {
        assert next[k] in next;
        var j :| 0 <= j < |tracked| && retained[j] && tracked[j] == next[k];
      }
    }
  }

  lemma MatchNone(desired: seq<Wanted>, tracked: seq<Tracked>, retained: seq<bool>, next: seq<Tracked>, k: Wanted)
    requires IsMatching(desired, tracked, retained, next)
    requires forall i :: 0 <= i < |tracked| && tracked[i].key == k ==> retained[i]
    ensures IsMatching(desired + [k], tracked, retained, next)
  {
    FlagsSplitKeys(tracked, retained);
    NoneLowered(tracked, retained, k);
    var kept, all := multiset(Keys(next)), multiset(Keys(tracked));
    assert kept[k] == all[k];
    assert multiset(desired + [k]) == multiset(desired) + multiset{k};
  }

  predicate AllTrue(flags: seq<bool>) {
    forall i :: 0 <= i < |flags| ==> flags[i]
  }

  method FindUnretained(tracked: seq<Tracked>, retained: seq<bool>, k: Wanted) returns (index: nat)
    requires |retained| == |tracked|
    ensures index <= |tracked|
    ensures index < |tracked| ==> !retained[index] && tracked[index].key == k
    ensures index == |tracked| ==> forall i :: 0 <= i < |tracked| && tracked[i].key == k ==> retained[i]
  {
    index := 0;
    while index < |tracked| && !(!retained[index] && tracked[index].key == k)
      invariant index <= |tracked|
      invariant forall i :: 0 <= i < index && tracked[i].key == k ==> retained[i]
    {
      index := index + 1;
    }
  }

  /** Greedy matching: every wanted item takes the first tracked entry of its key that is still free. */
  method MatchTracked(desired: seq<Wanted>, tracked: seq<Tracked>) returns (retained: seq<bool>, next: seq<Tracked>)
    ensures IsMatching(desired, tracked, retained, next)
  {
    retained := seq(|tracked|, _ => false);
    next := [];
    NothingFlagged(tracked, retained);
    for d := 0 to |desired|
      invariant IsMatching(desired[..d], tracked, retained, next)
    {
      TakeOneMore(desired, d);
      var index := FindUnretained(tracked, retained, desired[d]);
      if index < |tracked| {
        MatchOne(desired[..d], tracked, retained, next, desired[d], index);
        retained := retained[index := true];
        next := next + [tracked[index]];
      } else {
        MatchNone(desired[..d], tracked, retained, next, desired[d]);
      }
    }
    assert desired[..|desired|] == desired;
  }

  lemma {:induction false} NothingFlagged(s: seq<Tracked>, flags: seq<bool>)
    requires |flags| == |s| && forall i :: 0 <= i < |s| ==> !flags[i]
    ensures Flagged(s, flags, true) == multiset{}
  {
    if s != [] { NothingFlagged(s[..|s| - 1], flags[..|s| - 1]); }
  }

  lemma {:induction false} KeysLength(s: seq<Tracked>)
    ensures |Keys(s)| == |s| && forall i :: 0 <= i < |s| ==> Keys(s)[i] == s[i].key
  {
    if s != [] { KeysLength(s[..|s| - 1]); }
  }

  /** The two length comparisons of the source tell exactly whether tracked and wanted keys differ. */
  lemma ChangedExactly(desired: seq<Wanted>, tracked: seq<Tracked>, retained: seq<bool>, next: seq<Tracked>)
    requires IsMatching(desired, tracked, retained, next)
    ensures (|next| != |desired| || |next| != |tracked|) <==> multiset(desired) != multiset(Keys(tracked))
  {
    KeysLength(next);
    KeysLength(tracked);
    assert |multiset(Keys(next))| == |next| && |multiset(Keys(tracked))| == |tracked|;
    CommonPart(multiset(desired), multiset(Keys(tracked)));
  }

  lemma CommonPart<T>(w: multiset<T>, t: multiset<T>)
    ensures |w * t| == |w| && |w * t| == |t| <==> w == t
  {
    var c := w * t;
    assert w == c + (w - c);
    assert t == c + (t - c);
    if |c| == |w| && |c| == |t| {
      assert w - c == multiset{} && t - c == multiset{};
    }
  }

  /** The items of the entries that were not retained. */
  function StaleIds(tracked: seq<Tracked>, retained: seq<bool>): (ids: set<Guid>)
    requires |retained| == |tracked|
    ensures ids <= TrackedIds(tracked)
  {
    set i | 0 <= i < |tracked| && !retained[i] :: tracked[i].instance
  }

  lemma KeptAreNotStale(desired: seq<Wanted>, tracked: seq<Tracked>, retained: seq<bool>, next: seq<Tracked>)
    requires IsMatching(desired, tracked, retained, next) && DistinctIds(tracked)
    ensures TrackedIds(next) !! StaleIds(tracked, retained)
  {
    forall t | t in next ensures t.instance !in StaleIds(tracked, retained) {
      var i :| 0 <= i < |tracked| && retained[i] && tracked[i] == t;
    }
  }

  /** The items of these entries that were there still are, under their own ids. */
  predicate KeepsItemsOf(s: seq<Tracked>, before: map<Handle, Item>, after: map<Handle, Item>) {
    forall h :: h in before && before[h].instance in TrackedIds(s) ==>
      h in after && after[h].definition == before[h].definition && after[h].instance == before[h].instance
  }

  // ---------- the wanted items ----------

  /** What the native database and the slot catalogue know. */
  datatype Catalog = Catalog(guids: map<string, Guid>, classes: set<Guid>, layers: map<string, int>) {
    predicate Parses(w: Wanted) {
      w.definition in guids
    }

    predicate Exists(w: Wanted) {
      Parses(w) && guids[w.definition] in classes
    }

    /** A slot that no layer is known for is put on with the lowest. */
    function Layer(w: Wanted): (layer: int)
      ensures w.slot in layers ==> layer == layers[w.slot]
      ensures w.slot !in layers ==> layer == 0
    {
      if w.slot in layers then layers[w.slot] else 0
    }
  }

  /** The wire items the database has a class for, in order. */
  function Available(catalog: Catalog, wires: seq<Wanted>): (ws: seq<Wanted>)
    ensures forall w :: w in ws ==> catalog.Exists(w) && w in wires
  {
    if wires == [] then []
    else
      var w := wires[|wires| - 1];
      Available(catalog, wires[..|wires| - 1]) + if catalog.Exists(w) then [w] else []
  }

  /** Item by item: kept, in order, exactly if its definition parses and the database has the class. */
  lemma AvailableIs(catalog: Catalog, wires: seq<Wanted>, w: Wanted)
    ensures Available(catalog, []) == []
    ensures Available(catalog, wires + [w]) ==
            Available(catalog, wires)
            + if w.definition in catalog.guids && catalog.guids[w.definition] in catalog.classes then [w] else []
  {
    assert (wires + [w])[..|wires|] == wires;
  }

  method CollectWanted(catalog: Catalog, wires: seq<Wanted>) returns (ok: bool, desired: seq<Wanted>)
    ensures ok <==> forall w :: w in wires ==> catalog.Parses(w)
    ensures ok ==> desired == Available(catalog, wires)
  {
    desired := [];
    for i := 0 to |wires|
      invariant forall j :: 0 <= j < i ==> catalog.Parses(wires[j])
      invariant desired == Available(catalog, wires[..i])
    {
      assert wires[..i + 1][..i] == wires[..i];
      if !catalog.Parses(wires[i]) {
        return false, desired;
      }
      if catalog.Exists(wires[i]) {
        desired := desired + [wires[i]];
      }
    }
    assert wires[..|wires|] == wires;
    return true, desired;
  }

  predicate LayersAscend(catalog: Catalog, ws: seq<Wanted>) {
    forall i, j :: 0 <= i < j < |ws| ==> catalog.Layer(ws[i]) <= catalog.Layer(ws[j])
  }

  method InsertByLayer(catalog: Catalog, sorted: seq<Wanted>, w: Wanted) returns (r: seq<Wanted>)
    requires LayersAscend(catalog, sorted)
    ensures multiset(r) == multiset(sorted) + multiset{w} && LayersAscend(catalog, r)
  {
    var at := 0;
    while at < |sorted| && catalog.Layer(sorted[at]) <= catalog.Layer(w)
      invariant at <= |sorted|
      invariant forall j :: 0 <= j < at ==> catalog.Layer(sorted[j]) <= catalog.Layer(w)
    {
      at := at + 1;
    }
    r := sorted[..at] + [w] + sorted[at..];
    InsertedOnce(sorted, at, w);
    InsertedAscends(catalog, sorted, at, w);
  }

  lemma InsertedOnce(s: seq<Wanted>, at: nat, w: Wanted)
    requires at <= |s|
    ensures multiset(s[..at] + [w] + s[at..]) == multiset(s) + multiset{w}
  {
    assert s == s[..at] + s[at..];
  }

  lemma InsertedAscends(catalog: Catalog, s: seq<Wanted>, at: nat, w: Wanted)
    requires LayersAscend(catalog, s) && at <= |s|
    requires forall j :: 0 <= j < at ==> catalog.Layer(s[j]) <= catalog.Layer(w)
    requires at < |s| ==> catalog.Layer(w) <= catalog.Layer(s[at])
    ensures LayersAscend(catalog, s[..at] + [w] + s[at..])
  {
    var r := s[..at] + [w] + s[at..];
    forall i, j | 0 <= i < j < |r| ensures catalog.Layer(r[i]) <= catalog.Layer(r[j]) {
      assert r[i] == if i < at then s[i] else if i == at then w else s[i - 1];
      assert r[j] == if j < at then s[j] else if j == at then w else s[j - 1];
    }
  }

  /** An ordering by layer; the order inside one layer is left open. */
  method SortByLayer(catalog: Catalog, ws: seq<Wanted>) returns (sorted: seq<Wanted>)
    ensures multiset(sorted) == multiset(ws) && LayersAscend(catalog, sorted)
  {
    sorted := [];
    for i := 0 to |ws|
      invariant multiset(sorted) == multiset(ws[..i]) && LayersAscend(catalog, sorted)
    {
      assert ws[..i + 1] == ws[..i] + [ws[i]];
      sorted := InsertByLayer(catalog, sorted, ws[i]);
    }
    assert ws[..|ws|] == ws;
  }

  // ---------- the avatar ----------

  datatype Request = Dressed(wires: seq<Wanted>) | Cleared | Drawn

  datatype Outcome = Accepted | Refused | Stuck

  class Avatar {
    const engine: Engine
    var itemInstances: seq<Tracked>
    ghost var created: set<Handle>      // every item this code ever created

    /** No created item sits in the inventory without being listed. */
    ghost predicate NoLeak()
      reads this, engine
    {
      forall h :: h in created && h in engine.items ==> engine.items[h].instance in TrackedIds(itemInstances)
    }

    /** The list never names an item of somebody else. */
    ghost predicate ListsOnlyCreated()
      reads this, engine
    {
      forall h :: h in engine.items && h !in created ==> engine.items[h].instance !in TrackedIds(itemInstances)
    }

    ghost predicate Valid()
      reads this, engine
    {
      engine.Valid() && NoLeak() && ListsOnlyCreated() && DistinctIds(itemInstances)
    }

    /** Items of others stay in the inventory and stay theirs. */
    static ghost predicate KeepsForeign(
      before: map<Handle, Item>, createdBefore: set<Handle>, after: map<Handle, Item>, createdAfter: set<Handle>)
    {
      forall h :: h in before && h !in createdBefore ==>
        h in after && h !in createdAfter
        && after[h].definition == before[h].definition && after[h].instance == before[h].instance
    }

    constructor (engine: Engine)
      requires engine.Valid()
      ensures Valid() && this.engine == engine && itemInstances == [] && created == {}
    {
      this.engine := engine;
      itemInstances, created := [], {};
    }

    /** Items under other ids are left alone. */
    static predicate Spares(ids: set<Guid>, before: map<Handle, Item>, after: map<Handle, Item>) {
      forall h :: h in before && before[h].instance !in ids ==>
        h in after && after[h].definition == before[h].definition && after[h].instance == before[h].instance
    }

    /** Unequips and removes one item and checks that it is gone. */
    method RemoveNative(h: Handle, id: Guid) returns (ok: bool)
      requires engine.Valid() && h in engine.items && engine.items[h].instance == id
      modifies engine`items, engine`refusals, engine`displaced
      ensures engine.Valid() && Engine.PartOf(engine.items, old(engine.items))
      ensures old(engine.Now()).Without(h).LeftAloneIn(engine.Now())
      ensures ok <==> h !in engine.items
      ensures ok <==> id !in engine.Ids()
      ensures ok <==> engine.refusals == old(engine.refusals)
      ensures engine.refusals >= old(engine.refusals)
    {
      if engine.items[h].equipped {
        engine.UnequipItem(h);
        if engine.items[h].equipped {
          return false;
        }
      }
      engine.RemoveItem(h);
      var left := engine.Find(id);
      ok := left.None?;
    }

    /** Takes the item of one entry away, if it is there. */
    method RemoveEntry(entry: Tracked) returns (ok: bool)
      requires engine.Valid()
      modifies engine`items, engine`refusals, engine`displaced
      ensures engine.Valid() && Engine.PartOf(engine.items, old(engine.items))
      ensures Spares({entry.instance}, old(engine.items), engine.items)
      ensures ok <==> entry.instance !in engine.Ids()
      ensures ok <==> engine.refusals == old(engine.refusals)
      ensures engine.refusals >= old(engine.refusals)
    {
      var found := engine.Find(entry.instance);
      if found.None? {
        return true;
      }
      ok := RemoveNative(found.value, entry.instance);
    }

    /** Takes every listed item away, last one first, and stops at the first that stays. */
    method Clear() returns (ok: bool)
      requires Valid()
      modifies this, engine`items, engine`refusals, engine`displaced
      ensures Valid() && created == old(created)
      ensures itemInstances == if ok then [] else old(itemInstances)
      ensures ok ==> forall h :: h in created ==> h !in engine.items
      ensures ok <==> engine.refusals == old(engine.refusals)
      ensures Engine.PartOf(engine.items, old(engine.items))
      ensures KeepsForeign(old(engine.items), old(created), engine.items, created)
    {
      for i := |itemInstances| downto 0
        invariant engine.Valid() && itemInstances == old(itemInstances) && created == old(created)
        invariant engine.refusals == old(engine.refusals)
        invariant Engine.PartOf(engine.items, old(engine.items))
        invariant Spares(TrackedIds(itemInstances), old(engine.items), engine.items)
        invariant forall j :: i <= j < |itemInstances| ==> itemInstances[j].instance !in engine.Ids()
      {
        assert itemInstances[i] in itemInstances;
        ok := RemoveEntry(itemInstances[i]);
        if !ok {
          return;
        }
      }
      itemInstances := [];
      ok := true;
    }

    /** Takes the entries that were not retained away, last one first. */
    method RemoveStale(retained: seq<bool>) returns (ok: bool)
      requires engine.Valid() && |retained| == |itemInstances|
      modifies engine`items, engine`refusals, engine`displaced
      ensures engine.Valid()
      ensures Engine.PartOf(engine.items, old(engine.items))
      ensures Spares(StaleIds(itemInstances, retained), old(engine.items), engine.items)
      ensures ok ==> forall j :: 0 <= j < |itemInstances| && !retained[j] ==> itemInstances[j].instance !in engine.Ids()
      ensures AllTrue(retained) ==> ok && engine.items == old(engine.items)
      ensures ok <==> engine.refusals == old(engine.refusals)
      ensures engine.refusals >= old(engine.refusals)
    {
      for i := |itemInstances| downto 0
        invariant engine.Valid() && engine.refusals == old(engine.refusals)
        invariant Engine.PartOf(engine.items, old(engine.items))
        invariant Spares(StaleIds(itemInstances, retained), old(engine.items), engine.items)
        invariant forall j :: i <= j < |itemInstances| && !retained[j] ==> itemInstances[j].instance !in engine.Ids()
        invariant AllTrue(retained) ==> engine.items == old(engine.items)
      {
        if !retained[i] {
          assert itemInstances[i].instance in StaleIds(itemInstances, retained);
          ok := RemoveEntry(itemInstances[i]);
          if !ok {
            return;
          }
        }
      }
      ok := true;
    }

    /** Creates an item and tags it with an instance id that is nowhere in use. */
    method CreateNative(definition: Guid) returns (made: Option<Handle>, instance: Guid)
      requires engine.Valid()
      modifies engine`items, engine`refusals, engine`displaced
      ensures engine.Valid() && old(engine.Now()).LeftAloneIn(engine.Now())
      ensures engine.refusals == old(engine.refusals) + if made.None? then 1 else 0
      ensures made.None? ==> engine.items == old(engine.items)
      ensures made.Some? ==>
                && made.value !in old(engine.items) && made.value in engine.items
                && engine.items[made.value].instance == instance && engine.items[made.value].definition == definition
                && engine.items - {made.value} == old(engine.items)
                && instance !in TrackedIds(itemInstances) && instance !in engine.displaced
    {
      instance := 0;
      made := engine.CreateItem(definition);
      if made.None? {
        return;
      }
      ghost var created := engine.items;
      instance := Fresh(engine.Ids() + TrackedIds(itemInstances));
      engine.SetInstanceGuid(made.value, instance);
      assert forall k :: k in old(engine.items) ==> k in created && created[k] == old(engine.items)[k] == engine.items[k];
    }

    /** Creates an item, tags it with a new instance id and lists it. */
    method CreateTagged(catalog: Catalog, w: Wanted) returns (made: Option<Handle>, ghost entry: Tracked)
      requires Valid() && catalog.Exists(w)
      modifies this, engine`items, engine`refusals, engine`displaced
      ensures Valid() && old(engine.Now()).LeftAloneIn(engine.Now())
      ensures made.None? ==> itemInstances == old(itemInstances) && engine.items == old(engine.items)
      ensures made.Some? ==>
                && entry.key == w && entry.instance !in TrackedIds(old(itemInstances))
                && itemInstances == old(itemInstances) + [entry]
                && made.value in created && made.value !in old(engine.items)
                && made.value in engine.items && engine.items[made.value].instance == entry.instance
                && engine.items[made.value].definition == catalog.guids[w.definition]
                && engine.items - {made.value} == old(engine.items)
                && entry.instance !in engine.displaced
      ensures created == old(created) + if made.Some? then {made.value} else {}
      ensures engine.refusals == old(engine.refusals) + if made.None? then 1 else 0
    {
      var instance;
      made, instance := CreateNative(catalog.guids[w.definition]);
      entry := Tracked(w, instance);
      if made.Some? {
        itemInstances := itemInstances + [Tracked(w, instance)];
        created := created + {made.value};
      }
    }

    /** Takes the item that was listed last away again, entry and all, or leaves both. */
    method Discard(h: Handle) returns (gone: bool)
      requires Valid() && h in engine.items && h in created && itemInstances != []
      requires engine.items[h].instance == itemInstances[|itemInstances| - 1].instance
      requires engine.items[h].instance !in TrackedIds(itemInstances[..|itemInstances| - 1])
      modifies this`itemInstances, engine`items, engine`refusals, engine`displaced
      ensures Valid()
      ensures itemInstances == if gone then old(itemInstances)[..|old(itemInstances)| - 1] else old(itemInstances)
      ensures Engine.PartOf(engine.items, old(engine.items)) && old(engine.Now()).Without(h).LeftAloneIn(engine.Now())
      ensures gone <==> h !in engine.items
      ensures gone <==> engine.refusals == old(engine.refusals)
      ensures engine.refusals >= old(engine.refusals)
    {
      gone := RemoveNative(h, engine.items[h].instance);
      if gone {
        itemInstances := itemInstances[..|itemInstances| - 1];
      }
    }

    /** Creates, tags, lists, equips and checks one wanted item. A refused item leaves neither an
        entry nor an item; a rejected item that cannot be taken away again stays listed. */
    method Dress(catalog: Catalog, w: Wanted) returns (outcome: Outcome, ghost entry: Tracked)
      requires Valid() && catalog.Exists(w)
      modifies this, engine`items, engine`refusals, engine`displaced
      ensures Valid()
      ensures itemInstances == if outcome == Refused then old(itemInstances) else old(itemInstances) + [entry]
      ensures outcome != Refused ==> entry.key == w && entry.instance !in TrackedIds(old(itemInstances))
      ensures outcome == Refused ==> Engine.SameItems(old(engine.items), engine.items)
      ensures outcome == Accepted ==> IsWorn(engine.items, catalog.guids[w.definition], entry) && entry.instance !in engine.displaced
      ensures old(engine.Now()).LeftAloneIn(engine.Now())
      ensures outcome == Accepted <==> engine.refusals == old(engine.refusals)
      ensures engine.refusals >= old(engine.refusals)
      ensures KeepsForeign(old(engine.items), old(created), engine.items, created)
    {
      var made;
      made, entry := CreateTagged(catalog, w);
      if made.None? {
        return Refused, entry;
      }
      var h := made.value;
      ghost var tagged := engine.Now();
      engine.EquipItem(h, w.slot);
      LeftAloneTwice(old(engine.Now()), tagged, engine.Now(), h);
      if engine.items[h].equipped && engine.items[h].slot == Some(w.slot) {
        return Accepted, entry;
      }
      ghost var equipped := engine.Now();
      var gone := Discard(h);
      LeftAloneTwice(old(engine.Now()), equipped, engine.Now(), h);
      outcome := if gone then Refused else Stuck;
    }

    /** One round of the creation loop. */
    method DressMissing(catalog: Catalog, desired: seq<Wanted>, i: nat, ghost obeyed: bool, ghost before: seq<Tracked>)
      returns (ok: bool)
      requires Valid() && i < |desired| && catalog.Exists(desired[i]) && LayersAscend(catalog, desired)
      requires CreatedSoFar(catalog, desired, i, obeyed, before, itemInstances)
      requires AllWorn(catalog, itemInstances[|before|..], engine.Now())
      modifies this, engine`items, engine`refusals, engine`displaced
      ensures Valid() && KeepsForeign(old(engine.items), old(created), engine.items, created)
      ensures ok ==> CreatedSoFar(catalog, desired, i + 1, obeyed && engine.refusals == old(engine.refusals), before, itemInstances)
      ensures ok ==> AllWorn(catalog, itemInstances[|before|..], engine.Now())
      ensures Engine.PartOf(old(engine.items), engine.items)
      ensures desired[i] in Keys(old(itemInstances)) ==> itemInstances == old(itemInstances) && engine.items == old(engine.items) && ok
      ensures engine.refusals == old(engine.refusals) ==> ok
      ensures engine.refusals >= old(engine.refusals)
      ensures AtMostOnce(Keys(old(itemInstances))) ==> AtMostOnce(Keys(itemInstances))
    {
      if desired[i] in Keys(itemInstances) {
        SkipOne(catalog, desired, i, obeyed, obeyed, before, itemInstances);
        return true;
      }
      var outcome;
      ghost var entry;
      outcome, entry := Dress(catalog, desired[i]);
      if outcome != Refused { AppendsOnce(old(itemInstances), entry); }
      if outcome == Accepted {
        AcceptOne(catalog, desired, i, obeyed, before, old(itemInstances), entry);
        OneMoreWorn(catalog, before, old(itemInstances), entry, old(engine.Now()), engine.Now());
      } else if outcome == Refused {
        SkipOne(catalog, desired, i, obeyed, false, before, itemInstances);
        StillAllWorn(catalog, itemInstances[|before|..], old(engine.Now()), engine.Now());
      }
      return outcome != Stuck;
    }

    /** Creates what is wanted and not tracked yet. Stops only when a rejected item cannot be taken away. */
    method CreateMissing(catalog: Catalog, desired: seq<Wanted>) returns (ok: bool)
      requires Valid() && LayersAscend(catalog, desired) && forall w :: w in desired ==> catalog.Exists(w)
      requires multiset(Keys(itemInstances)) <= multiset(desired)
      modifies this, engine`items, engine`refusals, engine`displaced
      ensures Valid() && KeepsForeign(old(engine.items), old(created), engine.items, created)
      ensures ok ==> CreatedSoFar(
                catalog, desired, |desired|, engine.refusals == old(engine.refusals), old(itemInstances), itemInstances)
      ensures ok ==> AllWorn(catalog, itemInstances[|old(itemInstances)|..], engine.Now())
      ensures Engine.PartOf(old(engine.items), engine.items)
      ensures Covers(old(itemInstances), desired) ==> ok && itemInstances == old(itemInstances) && engine.items == old(engine.items)
      ensures engine.refusals == old(engine.refusals) ==> ok
      ensures engine.refusals >= old(engine.refusals)
      ensures AtMostOnce(Keys(old(itemInstances))) ==> AtMostOnce(Keys(itemInstances))
    {
      for i := 0 to |desired|
        invariant Valid() && KeepsForeign(old(engine.items), old(created), engine.items, created)
        invariant CreatedSoFar(
                    catalog, desired, i, engine.refusals == old(engine.refusals), old(itemInstances), itemInstances)
        invariant AllWorn(catalog, itemInstances[|old(itemInstances)|..], engine.Now())
        invariant Engine.PartOf(old(engine.items), engine.items)
        invariant Covers(old(itemInstances), desired) ==> itemInstances == old(itemInstances) && engine.items == old(engine.items)
        invariant engine.refusals >= old(engine.refusals)
        invariant AtMostOnce(Keys(old(itemInstances))) ==> AtMostOnce(Keys(itemInstances))
      {
        ok := DressMissing(catalog, desired, i, engine.refusals == old(engine.refusals), old(itemInstances));
        if !ok {
          return;
        }
      }
      ok := true;
    }

    /** Swaps the list for the retained entries once the others are gone. */
    method DropStale(retained: seq<bool>, next: seq<Tracked>) returns (ok: bool)
      requires Valid() && |retained| == |itemInstances|
      requires forall i :: 0 <= i < |itemInstances| && retained[i] ==> itemInstances[i] in next
      requires forall t :: t in next ==> t in itemInstances
      requires DistinctIds(next) && TrackedIds(next) !! StaleIds(itemInstances, retained)
      modifies this, engine`items, engine`refusals, engine`displaced
      ensures Valid()
      ensures AllTrue(retained) ==> ok && engine.items == old(engine.items)
      ensures KeepsItemsOf(next, old(engine.items), engine.items)
      ensures itemInstances == if ok then next else old(itemInstances)
      ensures KeepsForeign(old(engine.items), old(created), engine.items, created)
      ensures ok <==> engine.refusals == old(engine.refusals)
      ensures engine.refusals >= old(engine.refusals)
    {
      ok := RemoveStale(retained);
      if ok {
        itemInstances := next;
      }
    }

    /** Takes the stale items away and creates the missing ones. */
    method Replace(catalog: Catalog, desired: seq<Wanted>, retained: seq<bool>, next: seq<Tracked>) returns (ok: bool)
      requires Valid() && LayersAscend(catalog, desired) && forall w :: w in desired ==> catalog.Exists(w)
      requires IsMatching(desired, itemInstances, retained, next)
      modifies this, engine`items, engine`refusals, engine`displaced
      ensures Valid() && KeepsForeign(old(engine.items), old(created), engine.items, created)
      ensures ok ==> CreatedSoFar(
                catalog, desired, |desired|, engine.refusals == old(engine.refusals), next, itemInstances)
      ensures ok ==> AllWorn(catalog, itemInstances[|next|..], engine.Now())
      ensures engine.refusals == old(engine.refusals) ==> ok
      ensures engine.refusals >= old(engine.refusals)
      ensures AtMostOnce(Keys(old(itemInstances))) ==> AtMostOnce(Keys(itemInstances))
      ensures KeepsItemsOf(next, old(engine.items), engine.items)
      ensures AllTrue(retained) && Covers(next, desired) ==> ok && engine.items == old(engine.items) && itemInstances == next
    {
      NextOnce(desired, itemInstances, retained, next);
      KeptAreNotStale(desired, itemInstances, retained, next);
      ok := DropStale(retained, next);
      if !ok {
        return;
      }
      ok := CreateMissing(catalog, desired);
    }

    /** Puts a drawn weapon away before it touches anything. */
    method Refit(catalog: Catalog, desired: seq<Wanted>, retained: seq<bool>, next: seq<Tracked>) returns (ok: bool)
      requires Valid() && LayersAscend(catalog, desired) && forall w :: w in desired ==> catalog.Exists(w)
      requires IsMatching(desired, itemInstances, retained, next)
      modifies this, engine
      ensures Valid() && KeepsForeign(old(engine.items), old(created), engine.items, created)
      ensures ok ==> CreatedSoFar(
                catalog, desired, |desired|, engine.refusals == old(engine.refusals), next, itemInstances)
      ensures ok ==> AllWorn(catalog, itemInstances[|next|..], engine.Now())
      ensures ok ==> !engine.weaponDrawn
      ensures engine.refusals == old(engine.refusals) ==> ok
      ensures AtMostOnce(Keys(old(itemInstances))) ==> AtMostOnce(Keys(itemInstances))
      ensures engine.weaponDrawn ==> itemInstances == old(itemInstances) && engine.items == old(engine.items)
      ensures KeepsItemsOf(next, old(engine.items), engine.items)
      ensures AllTrue(retained) && Covers(next, desired) ==>
                engine.items == old(engine.items) && (ok <==> !engine.weaponDrawn)
                && itemInstances == if ok then next else old(itemInstances)
    {
      if engine.weaponDrawn {
        ok := engine.Holster();
        if !ok {
          return;
        }
      }
      ok := Replace(catalog, desired, retained, next);
    }

    /** Brings the avatar's native equipment in line with what the wire wants. Whatever the engine
        refuses, nothing leaks and no foreign item is touched; nothing changes while a weapon is drawn,
        and when nothing needs to change nothing is. */
    method Apply(catalog: Catalog, wires: seq<Wanted>) returns (ok: bool)
      requires Valid()
      modifies this, engine
      ensures Valid() && KeepsForeign(old(engine.items), old(created), engine.items, created)
      ensures ok ==> Reached(catalog, Available(catalog, wires), engine.refusals == old(engine.refusals), old(itemInstances), old(engine.items), itemInstances, engine.Now())
      ensures ok ==> forall w :: w in wires ==> catalog.Parses(w)
      ensures (forall w :: w in wires ==> catalog.Parses(w)) && engine.refusals == old(engine.refusals) ==> ok
      ensures (forall w :: w in wires ==> catalog.Parses(w))
              && multiset(Keys(old(itemInstances))) == multiset(Available(catalog, wires)) ==>
                ok && itemInstances == old(itemInstances)
                && engine.items == old(engine.items) && engine.refusals == old(engine.refusals)
      ensures AtMostOnce(Keys(old(itemInstances))) ==> AtMostOnce(Keys(itemInstances))
      ensures engine.weaponDrawn ==> itemInstances == old(itemInstances) && engine.items == old(engine.items)
      ensures ok && multiset(Keys(old(itemInstances))) != multiset(Available(catalog, wires)) ==> !engine.weaponDrawn
      ensures (forall w :: w in wires ==> catalog.Parses(w)) && IsCovered(old(itemInstances), Available(catalog, wires)) ==>
                engine.items == old(engine.items) && (ok || engine.weaponDrawn)
                && forall x :: x in itemInstances <==> x in old(itemInstances)
    {
      engine.Watch();
      var desired;
      ok, desired := CollectWanted(catalog, wires);
      if !ok {
        return;
      }
      ghost var available := desired;
      desired := SortByLayer(catalog, desired);
      SameMembers(desired, available);
      var retained, next := MatchTracked(desired, itemInstances);
      ChangedExactly(desired, itemInstances, retained, next);
      if |next| == |desired| && |next| == |itemInstances| {
        SameMembers(desired, Keys(itemInstances));
        KeptIsReached(catalog, available, itemInstances, engine.Now());
        return;
      }
      if IsCovered(itemInstances, available) { CoveredIsRetained(desired, available, itemInstances, retained, next); }
      ok := Refit(catalog, desired, retained, next);
      if ok {
        CreatedIsReached(
          catalog, desired, available, engine.refusals == old(engine.refusals), old(itemInstances), old(engine.items), next,
          itemInstances, engine.Now());
      }
    }

    /** After a call the engine obeyed, everything wanted is tracked exactly when the wire asks for
        nothing twice, and then the same call again changes nothing. Otherwise it creates and removes
        nothing either, but it puts a drawn weapon away, or fails at that. */
    method ApplyTwice(catalog: Catalog, wires: seq<Wanted>)
      returns (ok: bool, ghost obeyed: bool, ghost between: seq<Tracked>, ghost items: map<Handle, Item>)
      requires Valid() && AtMostOnce(Keys(itemInstances)) && forall w :: w in wires ==> catalog.Parses(w)
      modifies this, engine
      ensures Valid() && AtMostOnce(Keys(itemInstances))
      ensures obeyed ==> (multiset(Keys(between)) == multiset(Available(catalog, wires)) <==> AtMostOnce(Available(catalog, wires)))
      ensures obeyed && AtMostOnce(Available(catalog, wires)) ==> ok && itemInstances == between
      ensures obeyed ==> engine.items == items && forall x :: x in itemInstances <==> x in between
      ensures obeyed && !AtMostOnce(Available(catalog, wires)) ==> (ok <==> !engine.weaponDrawn)
    {
      ok := Apply(catalog, wires);
      obeyed, between, items := engine.refusals == old(engine.refusals), itemInstances, engine.items;
      if obeyed { AllTrackedExactly(Available(catalog, wires), between); }
      ok := Apply(catalog, wires);
    }

    /** Any run of apply and clear calls, whatever each of them returns. */
    method Serve(catalog: Catalog, requests: seq<Request>)
      requires Valid() && AtMostOnce(Keys(itemInstances))
      modifies this, engine
      ensures Valid() && KeepsForeign(old(engine.items), old(created), engine.items, created)
      ensures AtMostOnce(Keys(itemInstances))
    {
      for i := 0 to |requests|
        invariant Valid() && KeepsForeign(old(engine.items), old(created), engine.items, created)
        invariant AtMostOnce(Keys(itemInstances))
      {
        var ok;
        match requests[i] {
          case Dressed(wires) => ok := Apply(catalog, wires);
          case Cleared => ok := Clear();
          case Drawn => engine.DrawWeapon();
        }
      }
    }
  }

  /** The entries are wanted. The first of them were there before, of every key as many as are both
      wanted and were tracked, and their items were not replaced. The others are in the order of their
      layers and worn in the slots they were wanted for, unless a request for another item displaced
      them. If the engine obeyed, every wanted item is there. */
  ghost predicate Reached(
    catalog: Catalog, wanted: seq<Wanted>, obeyed: bool, before: seq<Tracked>, was: map<Handle, Item>, s: seq<Tracked>,
    now: Wardrobe)
  {
    && multiset(Keys(s)) <= multiset(wanted)
    && (obeyed ==> Covers(s, wanted))
    && exists kept: seq<Tracked> :: IsKept(catalog, wanted, before, was, kept, s, now)
  }

  ghost predicate IsKept(
    catalog: Catalog, wanted: seq<Wanted>, before: seq<Tracked>, was: map<Handle, Item>, kept: seq<Tracked>, s: seq<Tracked>,
    now: Wardrobe)
  {
    && kept <= s && (forall t :: t in kept ==> t in before)
    && multiset(Keys(kept)) == multiset(wanted) * multiset(Keys(before))
    && KeepsItemsOf(kept, was, now.items)
    && InLayerOrder(catalog, s[|kept|..]) && AllWorn(catalog, s[|kept|..], now)
  }

  /** Every entry's item is in the inventory and worn in the wanted slot, unless it was displaced. */
  ghost predicate AllWorn(catalog: Catalog, s: seq<Tracked>, now: Wardrobe) {
    forall t :: t in s ==>
      t.key.definition in catalog.guids && now.Wears(catalog.guids[t.key.definition], t.instance, t.key.slot)
  }

  lemma StillAllWorn(catalog: Catalog, s: seq<Tracked>, before: Wardrobe, after: Wardrobe)
    requires AllWorn(catalog, s, before) && before.LeftAloneIn(after)
    ensures AllWorn(catalog, s, after)
  {
    forall t | t in s
      ensures t.key.definition in catalog.guids && after.Wears(catalog.guids[t.key.definition], t.instance, t.key.slot)
    {
      StillWears(before, after, catalog.guids[t.key.definition], t.instance, t.key.slot);
    }
  }

  lemma OneMoreWorn(catalog: Catalog, before: seq<Tracked>, s: seq<Tracked>, t: Tracked, was: Wardrobe, now: Wardrobe)
    requires before <= s && AllWorn(catalog, s[|before|..], was) && was.LeftAloneIn(now)
    requires t.key.definition in catalog.guids && IsWorn(now.items, catalog.guids[t.key.definition], t)
    ensures AllWorn(catalog, (s + [t])[|before|..], now)
  {
    StillAllWorn(catalog, s[|before|..], was, now);
    TailAppend(before, s, t);
  }

  lemma KeptIsReached(catalog: Catalog, wanted: seq<Wanted>, s: seq<Tracked>, now: Wardrobe)
    requires multiset(Keys(s)) == multiset(wanted)
    ensures Reached(catalog, wanted, true, s, now.items, s, now)
  {
    SameMembers(Keys(s), wanted);
    assert IsKept(catalog, wanted, s, now.items, s, s, now);
  }

  lemma CreatedIsReached(
    catalog: Catalog, desired: seq<Wanted>, wanted: seq<Wanted>, obeyed: bool, before: seq<Tracked>, was: map<Handle, Item>,
    kept: seq<Tracked>, s: seq<Tracked>, now: Wardrobe)
    requires CreatedSoFar(catalog, desired, |desired|, obeyed, kept, s) && AllWorn(catalog, s[|kept|..], now)
    requires multiset(desired) == multiset(wanted) && forall t :: t in kept ==> t in before
    requires multiset(Keys(kept)) == multiset(wanted) * multiset(Keys(before)) && KeepsItemsOf(kept, was, now.items)
    ensures Reached(catalog, wanted, obeyed, before, was, s, now)
  {
    SameMembers(desired, wanted);
    assert IsKept(catalog, wanted, before, was, kept, s, now);
  }

  /** When nothing was displaced, every entry that was not there before is worn in its slot. */
  lemma ReachedIsWorn(
    catalog: Catalog, wanted: seq<Wanted>, obeyed: bool, before: seq<Tracked>, was: map<Handle, Item>, s: seq<Tracked>,
    now: Wardrobe, t: Tracked)
    requires Reached(catalog, wanted, obeyed, before, was, s, now) && now.displaced == {}
    requires t in s && t !in before
    ensures t.key.definition in catalog.guids && IsWorn(now.items, catalog.guids[t.key.definition], t)
  {
    var kept :| IsKept(catalog, wanted, before, was, kept, s, now);
    assert s == kept + s[|kept|..];
    assert t in s[|kept|..];
  }

  /** The entries are wanted, and every wanted key is among them. */
  ghost predicate IsCovered(s: seq<Tracked>, wanted: seq<Wanted>) {
    multiset(Keys(s)) <= multiset(wanted) && Covers(s, wanted)
  }

  /** If every tracked entry is wanted then all are retained, and the new list holds the same entries. */
  lemma CoveredIsRetained(
    desired: seq<Wanted>, wanted: seq<Wanted>, tracked: seq<Tracked>, retained: seq<bool>, next: seq<Tracked>)
    requires IsMatching(desired, tracked, retained, next) && multiset(desired) == multiset(wanted) && IsCovered(tracked, wanted)
    ensures AllTrue(retained)
    ensures Covers(next, desired) && forall x :: x in next <==> x in tracked
  {
    FlagsSplitKeys(tracked, retained);
    assert multiset(desired) * multiset(Keys(tracked)) == multiset(Keys(tracked));
    forall i | 0 <= i < |tracked| ensures retained[i] {
      if !retained[i] { RaiseFlag(tracked, retained, i); }
    }
    SameMembers(Keys(next), Keys(tracked));
    SameMembers(desired, wanted);
  }

  /** A wire list that asks for one item in one slot twice is never all tracked, whatever is tracked once each. */
  lemma AskedTwiceNeverSettles(catalog: Catalog, w: Wanted, s: seq<Tracked>)
    requires catalog.Exists(w) && AtMostOnce(Keys(s))
    ensures Available(catalog, [w, w]) == [w, w] && !AtMostOnce([w, w])
    ensures multiset(Keys(s)) != multiset(Available(catalog, [w, w]))
  {
    assert [w, w][..1] == [w] && [w][..0] == [];
    assert Available(catalog, [w]) == Available(catalog, []) + [w] == [w];
    assert multiset([w, w])[w] == 2 && w in [w, w];
    if w !in Keys(s) { assert w !in multiset(Keys(s)); }
  }

  /** An input: a database with one class, asked for twice in one slot. */
  lemma TwoHelmets()
    ensures var w := Wanted("helmet", "head");
            var catalog := Catalog(map["helmet" := 7], {7}, map["head" := 1]);
            && (forall x :: x in [w, w] ==> catalog.Parses(x))
            && !AtMostOnce(Available(catalog, [w, w]))
  {
    AskedTwiceNeverSettles(Catalog(map["helmet" := 7], {7}, map["head" := 1]), Wanted("helmet", "head"), []);
  }

  predicate AtMostOnce(ws: seq<Wanted>) {
    forall w :: w in ws ==> multiset(ws)[w] == 1
  }

  lemma AppendsOnce(s: seq<Tracked>, t: Tracked)
    requires t.key !in Keys(s)
    ensures AtMostOnce(Keys(s)) ==> AtMostOnce(Keys(s + [t]))
  {
    KeysAppend(s, t);
    assert t.key !in multiset(Keys(s));
  }

  /** The matched entries repeat no key that the tracked ones do not repeat. */
  lemma NextOnce(desired: seq<Wanted>, tracked: seq<Tracked>, retained: seq<bool>, next: seq<Tracked>)
    requires IsMatching(desired, tracked, retained, next)
    ensures AtMostOnce(Keys(tracked)) ==> AtMostOnce(Keys(next))
  {
    if AtMostOnce(Keys(tracked)) {
      forall w | w in Keys(next) ensures multiset(Keys(next))[w] == 1 {
        assert w in multiset(Keys(next)) && w in multiset(Keys(tracked));
      }
    }
  }

  /** Entries that cover the wanted items, each key once, are all that is wanted exactly when nothing
      is wanted twice. */
  lemma AllTrackedExactly(wanted: seq<Wanted>, s: seq<Tracked>)
    requires multiset(Keys(s)) <= multiset(wanted) && AtMostOnce(Keys(s))
    requires Covers(s, wanted)
    ensures multiset(Keys(s)) == multiset(wanted) <==> AtMostOnce(wanted)
  {
    forall w | w in wanted ensures multiset(Keys(s))[w] == 1 { assert w in Keys(s); }
    if AtMostOnce(wanted) {
      forall w ensures multiset(Keys(s))[w] == multiset(wanted)[w] {
        if w in wanted {} else { assert w !in multiset(wanted); }
      }
    }
  }

  lemma SameMembers(s: seq<Wanted>, t: seq<Wanted>)
    requires multiset(s) == multiset(t)
    ensures forall w :: w in s <==> w in t
  {
    forall w ensures w in s <==> w in t {
      assert w in s <==> w in multiset(s);
      assert w in t <==> w in multiset(t);
    }
  }

  /** Entries in the order in which their layers are put on. */
  predicate InLayerOrder(catalog: Catalog, s: seq<Tracked>) {
    forall i, j :: 0 <= i < j < |s| ==> catalog.Layer(s[i].key) <= catalog.Layer(s[j].key)
  }

  /** What the creation loop has reached after the first `i` wanted items, starting from the entries
      `before`, the engine having refused nothing if `obeyed`. */
  ghost predicate CreatedSoFar(
    catalog: Catalog, desired: seq<Wanted>, i: nat, obeyed: bool, before: seq<Tracked>, s: seq<Tracked>)
    requires i <= |desired|
  {
    && before <= s
    && InLayerOrder(catalog, s[|before|..])
    && KeysAmong(s[|before|..], desired[..i])
    && multiset(Keys(s)) <= multiset(desired)
    && (obeyed ==> Covers(s, desired[..i]))
  }

  predicate Covers(s: seq<Tracked>, wanted: seq<Wanted>) {
    forall w :: w in wanted ==> w in Keys(s)
  }

  lemma TailAppend<T>(before: seq<T>, s: seq<T>, t: T)
    requires before <= s
    ensures before <= s + [t] && (s + [t])[|before|..] == s[|before|..] + [t]
  {
  }

  lemma TakeOneMore<T>(s: seq<T>, i: nat)
    requires i < |s|
    ensures s[..i + 1] == s[..i] + [s[i]]
  {
  }

  predicate KeysAmong(s: seq<Tracked>, wanted: seq<Wanted>) {
    forall t :: t in s ==> t.key in wanted
  }

  lemma AddsKey(s: seq<Tracked>, t: Tracked, wanted: seq<Wanted>)
    requires KeysAmong(s, wanted)
    ensures KeysAmong(s + [t], wanted + [t.key])
  {
  }

  lemma SkipOne(
    catalog: Catalog, desired: seq<Wanted>, i: nat, obeyed: bool, obeys: bool, before: seq<Tracked>, s: seq<Tracked>)
    requires i < |desired| && CreatedSoFar(catalog, desired, i, obeyed, before, s)
    requires obeys ==> obeyed && desired[i] in Keys(s)
    ensures CreatedSoFar(catalog, desired, i + 1, obeys, before, s)
  {
    assert desired[..i + 1] == desired[..i] + [desired[i]];
  }

  lemma AcceptOne(
    catalog: Catalog, desired: seq<Wanted>, i: nat, obeyed: bool, before: seq<Tracked>, s: seq<Tracked>, t: Tracked)
    requires i < |desired| && CreatedSoFar(catalog, desired, i, obeyed, before, s)
    requires LayersAscend(catalog, desired) && t.key == desired[i] && desired[i] !in Keys(s)
    ensures CreatedSoFar(catalog, desired, i + 1, obeyed, before, s + [t])
  {
    TailAppend(before, s, t);
    TakeOneMore(desired, i);
    if obeyed { AddsCovered(s, t, desired[..i]); }
    AddsWanted(s, t, desired, i);
    AddsInOrder(catalog, s[|before|..], t, desired, i);
    AddsKey(s[|before|..], t, desired[..i]);
  }

  lemma AddsCovered(s: seq<Tracked>, t: Tracked, wanted: seq<Wanted>)
    requires Covers(s, wanted)
    ensures Covers(s + [t], wanted + [t.key])
  {
    KeysAppend(s, t);
  }

  lemma AddsInOrder(catalog: Catalog, s: seq<Tracked>, t: Tracked, desired: seq<Wanted>, i: nat)
    requires i < |desired| && t.key == desired[i] && LayersAscend(catalog, desired) && InLayerOrder(catalog, s)
    requires KeysAmong(s, desired[..i])
    ensures InLayerOrder(catalog, s + [t])
  {
    forall k | 0 <= k < |s| ensures catalog.Layer(s[k].key) <= catalog.Layer(t.key) {
      assert s[k] in s && s[k].key in desired[..i];
      var j :| 0 <= j < i && desired[j] == s[k].key;
    }
  }

  lemma AddsWanted(s: seq<Tracked>, t: Tracked, desired: seq<Wanted>, i: nat)
    requires i < |desired| && t.key == desired[i]
    requires desired[i] !in Keys(s) && multiset(Keys(s)) <= multiset(desired)
    ensures multiset(Keys(s + [t])) <= multiset(desired)
  {
    KeysAppend(s, t);
    assert desired[i] in multiset(desired);
  }

  /** The entry's item is in the inventory, of the given definition, equipped in the wanted slot. */
  ghost predicate IsWorn(items: map<Handle, Item>, definition: Guid, entry: Tracked) {
    exists h :: h in items && items[h].instance == entry.instance && items[h].definition == definition
                && items[h].equipped && items[h].slot == Some(entry.key.slot)
  }
}
