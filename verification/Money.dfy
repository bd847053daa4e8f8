/** The player's money as stacks of a native item: setting an exact amount and reading it back. */
module Money {
  import opened Common

  const SUBUNITS_PER_GROSCHEN := 10
  const MAX_PROFILE_MONEY := 2_000_000_000
  const MAX_STACK := 0x7FFF_FFFF

  type Handle = nat

  datatype Item = Item(present: bool, isMoney: bool, amount: int) {
    predicate Counts() {
      present && isMoney
    }
  }

  /** All money lying in the given items. */
  function Total(items: seq<Item>): int {
    if items == [] then 0
    else Total(items[..|items| - 1]) + if items[|items| - 1].Counts() then items[|items| - 1].amount else 0
  }

  /** The amounts of the items at the given handles. */
  function Amounts(items: seq<Item>, stacks: seq<Handle>): int
    requires forall i :: 0 <= i < |stacks| ==> stacks[i] < |items|
  {
    if stacks == [] then 0 else items[stacks[0]].amount + Amounts(items, stacks[1..])
  }

  /** How many stacks of money there are. */
  function StackCount(items: seq<Item>): nat {
    if items == [] then 0
    else StackCount(items[..|items| - 1]) + if items[|items| - 1].Counts() then 1 else 0
  }

  function Worth(item: Item): int {
    if item.Counts() then item.amount else 0
  }

  lemma {:induction false} TotalAfterUpdate(items: seq<Item>, h: Handle, item: Item)
    requires h < |items|
    ensures Total(items[h := item]) == Total(items) - Worth(items[h]) + Worth(item)
  {
    var n := |items| - 1;
    if h < n {
      TotalAfterUpdate(items[..n], h, item);
      assert items[h := item][..n] == items[..n][h := item];
    } else {
      assert items[h := item][..n] == items[..n];
    }
  }

  lemma TotalAfterAppend(items: seq<Item>, item: Item)
    ensures Total(items + [item]) == Total(items) + Worth(item)
  {
    assert (items + [item])[..|items|] == items;
  }

  /** The total counts every present stack of money with its amount, and nothing else. */
  lemma TotalIs(items: seq<Item>, item: Item)
    ensures Total([]) == 0 && StackCount([]) == 0
    ensures Total(items + [item]) == Total(items) + if item.present && item.isMoney then item.amount else 0
    ensures StackCount(items + [item]) == StackCount(items) + if item.present && item.isMoney then 1 else 0
  {
    assert (items + [item])[..|items|] == items;
  }

  lemma {:induction false} AmountsAppend(items: seq<Item>, stacks: seq<Handle>, h: Handle)
    requires h < |items| && forall i :: 0 <= i < |stacks| ==> stacks[i] < |items|
    ensures Amounts(items, stacks + [h]) == Amounts(items, stacks) + items[h].amount
  {
    if stacks == [] {
      assert [h][1..] == [];
    } else {
      AmountsAppend(items, stacks[1..], h);
      assert (stacks + [h])[1..] == stacks[1..] + [h];
    }
  }

  /** The native inventory. Changing and creating can be refused openly, removing can be ignored silently. */
  class Engine {
    var items: seq<Item>
    const moneyDefinition: Option<nat>
    ghost var refusals: nat
    ghost var ignored: nat

    ghost predicate Valid()
      reads this
    {
      forall i :: i in items ==> 0 <= i.amount <= MAX_STACK
    }

    constructor (items: seq<Item>, moneyDefinition: Option<nat>)
      requires forall i :: i in items ==> 0 <= i.amount <= MAX_STACK
      ensures Valid() && this.items == items && this.moneyDefinition == moneyDefinition
      ensures refusals == 0 && ignored == 0
    {
      this.items, this.moneyDefinition, refusals, ignored := items, moneyDefinition, 0, 0;
    }

    method RemoveItem(h: Handle)
      requires Valid() && h < |items|
      modifies this`items, this`ignored
      ensures Valid()
      ensures |items| == |old(items)| && items == old(items)[h := items[h]]
      ensures ignored == old(ignored) ==> items[h] == old(items)[h].(present := false)
      ensures ignored != old(ignored) ==> items[h] == old(items)[h]
      ensures ignored >= old(ignored)
    {
      if * {
        items := items[h := items[h].(present := false)];
      } else {
        ignored := ignored + 1;
      }
    }

    method ChangeItemAmount(h: Handle, delta: int) returns (ok: bool)
      requires Valid() && h < |items| && 0 <= items[h].amount + delta <= MAX_STACK
      modifies this`items, this`refusals
      ensures Valid()
      ensures ok ==> items == old(items)[h := old(items)[h].(amount := old(items)[h].amount + delta)]
      ensures !ok ==> items == old(items)
      ensures refusals == old(refusals) + if ok then 0 else 1
    {
      ok := *;
      if ok {
        items := items[h := items[h].(amount := items[h].amount + delta)];
      } else {
        refusals := refusals + 1;
      }
    }

    /** A new stack. Without a definition there is nothing to create, which is not the engine's refusal. */
    method CreateMoney(definition: Option<nat>, amount: int) returns (ok: bool)
      requires Valid() && 0 < amount <= MAX_STACK
      modifies this`items, this`refusals
      ensures Valid()
      ensures items == if ok then old(items) + [Item(true, true, amount)] else old(items)
      ensures ok ==> definition.Some? && refusals == old(refusals)
      ensures !ok ==> refusals == old(refusals) + if definition.Some? then 1 else 0
    {
      if definition.None? {
        return false;
      }
      ok := *;
      if ok {
        items := items + [Item(true, true, amount)];
      } else {
        refusals := refusals + 1;
      }
    }
  }

  // ---------- the profile backend ----------

  predicate ValidTarget(money: int, subunits: nat) {
    0 <= money <= MAX_PROFILE_MONEY && subunits < SUBUNITS_PER_GROSCHEN
  }

  function Min(a: int, b: int): int {
    if a < b then a else b
  }

  /** The handles of the money stacks among the first `n` items, in inventory order. */
  ghost predicate AreStacks(items: seq<Item>, n: nat, stacks: seq<Handle>)
    requires n <= |items|
  {
    && (forall i :: 0 <= i < |stacks| ==> stacks[i] < n && items[stacks[i]].Counts())
    && (forall i, j :: 0 <= i < j < |stacks| ==> stacks[i] < stacks[j])
    && (forall h: Handle :: h < n && items[h].Counts() ==> h in stacks)
    && Amounts(items, stacks) == Total(items[..n])
    && |stacks| == StackCount(items[..n])
  }

  method CollectStacks(engine: Engine) returns (stacks: seq<Handle>)
    ensures AreStacks(engine.items, |engine.items|, stacks)
  {
    stacks := [];
    for h := 0 to |engine.items|
      invariant AreStacks(engine.items, h, stacks)
    {
      NextStack(engine.items, h, stacks);
      if engine.items[h].Counts() {
        stacks := stacks + [h];
      }
    }
  }

  /** What the reader reports. */
  method Capture(engine: Engine) returns (money: int, subunits: int)
    requires engine.Valid()
    ensures money * 10 + subunits == Total(engine.items) && 0 <= subunits < 10
  {
    var nativeMoney := 0;
    for h := 0 to |engine.items|
      invariant nativeMoney == Total(engine.items[..h]) >= 0
    {
      assert engine.items[..h + 1][..h] == engine.items[..h];
      if engine.items[h].present && engine.items[h].amount > 0 && engine.items[h].isMoney {
        nativeMoney := nativeMoney + engine.items[h].amount;
      }
      assert engine.items[h] in engine.items;
    }
    assert engine.items[..|engine.items|] == engine.items;
    money, subunits := nativeMoney / SUBUNITS_PER_GROSCHEN, nativeMoney % SUBUNITS_PER_GROSCHEN;
  }

  lemma NextStack(items: seq<Item>, n: nat, stacks: seq<Handle>)
    requires n < |items| && AreStacks(items, n, stacks)
    ensures !items[n].Counts() ==> AreStacks(items, n + 1, stacks)
    ensures items[n].Counts() ==> AreStacks(items, n + 1, stacks + [n])
  {
    assert items[..n + 1][..n] == items[..n];
    AmountsAppend(items, stacks, n);
    forall h: Handle | h < n && items[h].Counts() ensures h in stacks + [n] { assert h in stacks; }
  }

  /** The stacks as they were from position `k` on, and what they still hold. */
  ghost predicate Untouched(before: seq<Item>, items: seq<Item>, stacks: seq<Handle>, k: nat)
    requires |items| >= |before| && k <= |stacks|
    requires forall i :: 0 <= i < |stacks| ==> stacks[i] < |before|
  {
    forall i :: k <= i < |stacks| ==> items[stacks[i]] == before[stacks[i]]
  }

  /** Everything that is not a stack of money is as it was. */
  predicate KeepsOthers(before: seq<Item>, items: seq<Item>) {
    |items| >= |before| && forall h: Handle :: h < |before| && !before[h].Counts() ==> items[h] == before[h]
  }

  /** Every stack of money is a legal one. */
  predicate LegalStacks(items: seq<Item>) {
    forall i :: i in items && i.Counts() ==> 1 <= i.amount <= MAX_STACK
  }

  /** Gives one existing stack its share of what remains: everything up to a full stack. */
  method Settle(engine: Engine, h: Handle, remaining: int) returns (ok: bool, amount: int)
    requires engine.Valid() && h < |engine.items| && engine.items[h].Counts() && remaining >= 0
    modifies engine
    ensures engine.Valid() && amount == Min(remaining, MAX_STACK)
    ensures |engine.items| == |old(engine.items)| && engine.items == old(engine.items)[h := engine.items[h]]
    ensures engine.refusals >= old(engine.refusals) && engine.ignored >= old(engine.ignored)
    ensures ok <==> engine.refusals == old(engine.refusals)
    ensures ok && engine.ignored == old(engine.ignored) ==>
              Worth(engine.items[h]) == amount && (engine.items[h].Counts() ==> amount >= 1)
  {
    amount := Min(remaining, MAX_STACK);
    assert engine.items[h] in engine.items;
    if amount == 0 {
      engine.RemoveItem(h);
      return true, amount;
    }
    var delta := amount - engine.items[h].amount;
    if delta != 0 {
      ok := engine.ChangeItemAmount(h, delta);
    } else {
      ok := true;
    }
  }

  /** How much is left once `k` full stacks are taken out. */
  function Left(target: int, k: nat): int {
    if target > k * MAX_STACK then target - k * MAX_STACK else 0
  }

  /** The first `k` stacks are filled one after the other: every stack takes all that is left, up to a full one. */
  predicate FilledInOrder(items: seq<Item>, stacks: seq<Handle>, k: nat, target: int)
    requires k <= |stacks| && forall i :: 0 <= i < |stacks| ==> stacks[i] < |items|
  {
    forall i :: 0 <= i < k ==> Worth(items[stacks[i]]) == Min(Left(target, i), MAX_STACK)
  }

  /** The state of the settling loop before stack `k`; `exact` says that no removal was ignored. */
  ghost predicate Settling(before: seq<Item>, items: seq<Item>, stacks: seq<Handle>, k: nat, target: int, exact: bool)
    requires AreStacks(before, |before|, stacks) && k <= |stacks|
  {
    && |items| == |before|
    && KeepsOthers(before, items)
    && Untouched(before, items, stacks, k)
    && (exact ==> Total(items) == target - Left(target, k) + Amounts(before, stacks[k..]))
    && (exact ==> FilledInOrder(items, stacks, k, target))
    && (exact ==> forall i :: 0 <= i < k && items[stacks[i]].Counts() ==> 1 <= items[stacks[i]].amount <= MAX_STACK)
  }

  lemma SettlingStep(
    before: seq<Item>, items: seq<Item>, stacks: seq<Handle>, k: nat, target: int, wasExact: bool, item: Item, exact: bool)
    requires AreStacks(before, |before|, stacks) && k < |stacks| && target >= 0
    requires Settling(before, items, stacks, k, target, wasExact)
    requires exact ==> wasExact && Worth(item) == Min(Left(target, k), MAX_STACK) && (item.Counts() ==> 1 <= item.amount <= MAX_STACK)
    ensures Settling(before, items[stacks[k] := item], stacks, k + 1, target, exact)
    ensures Left(target, k + 1) == Left(target, k) - Min(Left(target, k), MAX_STACK)
  {
    assert stacks[k..][1..] == stacks[k + 1..];
    TotalAfterUpdate(items, stacks[k], item);
    assert before[stacks[k]].Counts();
  }

  /** Goes through the existing stacks, first to last, and stops at an open refusal. */
  method SettleStacks(engine: Engine, stacks: seq<Handle>, target: int) returns (ok: bool, remaining: int)
    requires engine.Valid() && target >= 0 && AreStacks(engine.items, |engine.items|, stacks)
    modifies engine
    ensures engine.Valid() && KeepsOthers(old(engine.items), engine.items)
    ensures engine.refusals >= old(engine.refusals) && engine.ignored >= old(engine.ignored)
    ensures ok <==> engine.refusals == old(engine.refusals)
    ensures ok ==> remaining == Left(target, |stacks|)
    ensures ok ==> Settling(old(engine.items), engine.items, stacks, |stacks|, target, engine.ignored == old(engine.ignored))
  {
    remaining := target;
    assert engine.items[..|engine.items|] == engine.items;
    for k := 0 to |stacks|
      invariant engine.Valid() && remaining == Left(target, k)
      invariant engine.refusals == old(engine.refusals) && engine.ignored >= old(engine.ignored)
      invariant Settling(old(engine.items), engine.items, stacks, k, target, engine.ignored == old(engine.ignored))
    {
      ghost var items, exact := engine.items, engine.ignored == old(engine.ignored);
      var amount;
      ok, amount := Settle(engine, stacks[k], remaining);
      SettlingStep(old(engine.items), items, stacks, k, target, exact, engine.items[stacks[k]],
                   ok && engine.ignored == old(engine.ignored));
      if !ok {
        return;
      }
      remaining := remaining - amount;
    }
    ok := true;
  }

  /** Puts what is still left into new stacks. */
  method CreateStacks(engine: Engine, definition: Option<nat>, amount: int) returns (ok: bool)
    requires engine.Valid() && amount >= 0
    modifies engine
    ensures engine.Valid() && KeepsOthers(old(engine.items), engine.items)
    ensures engine.refusals >= old(engine.refusals) && engine.ignored == old(engine.ignored)
    ensures ok ==> Total(engine.items) == Total(old(engine.items)) + amount
    ensures ok ==> forall i :: |old(engine.items)| <= i < |engine.items| ==> 1 <= engine.items[i].amount <= MAX_STACK
    ensures ok ==> |engine.items| >= |old(engine.items)| && engine.items[..|old(engine.items)|] == old(engine.items)
    ensures engine.refusals == old(engine.refusals) ==> (ok <==> amount == 0 || definition.Some?)
    ensures engine.refusals != old(engine.refusals) ==> !ok
  {
    var remaining := amount;
    while remaining > 0
      invariant engine.Valid() && remaining >= 0
      invariant engine.refusals == old(engine.refusals) && engine.ignored == old(engine.ignored)
      invariant |engine.items| >= |old(engine.items)| && engine.items[..|old(engine.items)|] == old(engine.items)
      invariant Total(engine.items) == Total(old(engine.items)) + (amount - remaining)
      invariant forall i :: |old(engine.items)| <= i < |engine.items| ==> 1 <= engine.items[i].amount <= MAX_STACK
      invariant amount == remaining || definition.Some?
    {
      var share := Min(remaining, MAX_STACK);
      TotalAfterAppend(engine.items, Item(true, true, share));
      ok := engine.CreateMoney(definition, share);
      if !ok {
        return;
      }
      remaining := remaining - share;
    }
    ok := true;
  }

  /** After both loops every stack of money is an old one that was settled or a new one. */
  lemma AllLegal(before: seq<Item>, settled: seq<Item>, stacks: seq<Handle>, after: seq<Item>)
    requires AreStacks(before, |before|, stacks)
    requires |settled| == |before| && |after| >= |settled| && after[..|settled|] == settled
    requires forall i :: 0 <= i < |stacks| && settled[stacks[i]].Counts() ==> 1 <= settled[stacks[i]].amount <= MAX_STACK
    requires KeepsOthers(before, settled)
    requires forall i :: |settled| <= i < |after| ==> 1 <= after[i].amount <= MAX_STACK
    ensures LegalStacks(after)
  {
    forall i | i in after && i.Counts() ensures 1 <= i.amount <= MAX_STACK {
      var h :| 0 <= h < |after| && after[h] == i;
      if h < |settled| {
        assert settled[h] == after[h];
        assert before[h].Counts();
        assert h in stacks;
      }
    }
  }

  /** Spreads the target over the existing stacks and then over new ones. */
  method Distribute(engine: Engine, stacks: seq<Handle>, definition: Option<nat>, target: int) returns (ok: bool)
    requires engine.Valid() && target >= 0 && AreStacks(engine.items, |engine.items|, stacks)
    modifies engine
    ensures engine.Valid() && KeepsOthers(old(engine.items), engine.items)
    ensures ok && engine.ignored == old(engine.ignored) ==> Total(engine.items) == target && LegalStacks(engine.items)
    ensures ok && engine.ignored == old(engine.ignored) ==>
              |engine.items| >= |old(engine.items)| && FilledInOrder(engine.items, stacks, |stacks|, target)
    ensures engine.refusals == old(engine.refusals) ==> (ok <==> target <= |stacks| * MAX_STACK || definition.Some?)
    ensures engine.refusals != old(engine.refusals) ==> !ok
  {
    var remaining;
    ok, remaining := SettleStacks(engine, stacks, target);
    if !ok {
      return;
    }
    ghost var settled := engine.items;
    ok := CreateStacks(engine, definition, remaining);
    if ok && engine.ignored == old(engine.ignored) {
      AllLegal(old(engine.items), settled, stacks, engine.items);
    }
  }

  /** Sets the player's money. On success, and with every removal obeyed, the stacks hold exactly the
      target in legal amounts; an engine that refuses nothing makes it succeed exactly when the
      target is valid and fits: into the existing stacks, or into new ones if there were none. */
  method SetMoney(engine: Engine, money: int, subunits: nat) returns (ok: bool)
    requires engine.Valid()
    modifies engine
    ensures engine.Valid() && KeepsOthers(old(engine.items), engine.items)
    ensures |engine.items| >= |old(engine.items)|
    ensures forall h: Handle :: h < |old(engine.items)| && !(old(engine.items)[h].present && old(engine.items)[h].isMoney) ==>
              engine.items[h] == old(engine.items)[h]
    ensures !ValidTarget(money, subunits) ==> !ok && engine.items == old(engine.items)
    ensures ok && engine.ignored == old(engine.ignored) ==>
              && Total(engine.items) == money * 10 + subunits
              && forall i :: i in engine.items && i.present && i.isMoney ==> 1 <= i.amount <= 0x7FFF_FFFF
    ensures engine.refusals == old(engine.refusals) ==> (ok <==> CanHold(old(engine.items), engine.moneyDefinition, money, subunits))
    ensures engine.refusals == old(engine.refusals) ==>
              var stacks := StackCount(old(engine.items));
              (ok <==> 0 <= money <= 2_000_000_000 && subunits < 10
                       && if stacks == 0 then engine.moneyDefinition.Some? else money * 10 + subunits <= stacks * 0x7FFF_FFFF)
    ensures engine.refusals != old(engine.refusals) ==> !ok
  {
    if money < 0 || money > MAX_PROFILE_MONEY || subunits >= SUBUNITS_PER_GROSCHEN {
      return false;
    }
    var stacks := CollectStacks(engine);
    assert engine.items[..|engine.items|] == engine.items;
    var definition := None;
    if stacks == [] {
      if engine.moneyDefinition.None? {
        return false;
      }
      definition := engine.moneyDefinition;
    }
    ok := Distribute(engine, stacks, definition, money * SUBUNITS_PER_GROSCHEN + subunits);
  }

  /** The definition of the money item is looked up only when there is no stack at all, so existing
      stacks can take no more than what fits into them. */
  predicate CanHold(items: seq<Item>, moneyDefinition: Option<nat>, money: int, subunits: nat) {
    && ValidTarget(money, subunits)
    && if StackCount(items) == 0 then moneyDefinition.Some?
       else money * SUBUNITS_PER_GROSCHEN + subunits <= StackCount(items) * MAX_STACK
  }

  /** An input: one coin in one stack, and a definition for more stacks that is never looked up. */
  lemma OneStackCannotHold()
    ensures var items, money := [Item(true, true, 1)], 300_000_000;
            ValidTarget(money, 0) && !CanHold(items, Some(7), money, 0) && CanHold([], Some(7), money, 0)
  {
    var items := [Item(true, true, 1)];
    assert items[..0] == [];
    assert StackCount(items) == StackCount(items[..0]) + 1 == 1;
  }

  /** Whatever the engine does, that input fails. */
  method SetMoneyOnOneStack(engine: Engine) returns (ok: bool)
    requires engine.Valid() && engine.items == [Item(true, true, 1)] && engine.moneyDefinition == Some(7)
    modifies engine
    ensures !ok
  {
    OneStackCannotHold();
    ok := SetMoney(engine, 300_000_000, 0);
  }

  /** What was set is what the reader reports. */
  method SetThenCapture(engine: Engine, money: int, subunits: nat) returns (ok: bool, m: int, s: int)
    requires engine.Valid()
    modifies engine
    ensures ok && engine.ignored == old(engine.ignored) ==> m == money && s == subunits
  {
    ok := SetMoney(engine, money, subunits);
    m, s := Capture(engine);
  }
}
