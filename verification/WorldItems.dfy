/** Dropped-item synchronisation: the tables of initial, managed and deferred items and the queue of
    updates for the server, shown to run one small automaton per item. */
module WorldItems {
  import opened Common

  type Id = nat

  /** The wire state of an item in the world, kept under its instance id. Item values and transform
      are only ever compared. */
  datatype WireState = WireState(revision: nat, present: bool, item: int, transform: int) {
    /** The state with its revision taken out, which is how states are compared. */
    function Bare(): WireState {
      this.(revision := 0)
    }

    function Gone(): WireState {
      this.(revision := 0, present := false)
    }
  }

  // ---------- one item ----------

  /** Everything the tables and the history say about one item: its state at the start of the
      session, its managed and its deferred state, the last update since the server had its say,
      and how many updates were sent. */
  datatype Row = Row(
    initial: Option<WireState>,
    managed: Option<WireState>,
    deferred: Option<WireState>,
    last: Option<WireState>,
    sent: nat)
  {
    /** An item is initial or managed but not both; only managed items wait for an entity; and the
        managed state still shows the last update. */
    predicate Valid() {
      && (initial.Some? ==> managed.None?)
      && (deferred.Some? ==> managed.Some?)
      && (last.Some? ==> managed.Some? && last.value == managed.value.Bare())
    }

    function Report(state: WireState): Row {
      this.(managed := Some(state), last := Some(state), sent := sent + 1)
    }

    /** An initial item in the player's inventory is gone from the world. */
    function Take(carried: bool): Row {
      if initial.Some? && carried then this.(initial := None).Report(initial.value.Gone()) else this
    }

    /** A deferred state whose entity has appeared and was moved into place becomes the managed state. */
    function Complete(moved: bool): Row {
      if deferred.Some? && moved then Row(initial, deferred, None, None, sent) else this
    }

    function Observe(captured: WireState): Row {
      if initial.Some? || (managed.Some? && managed.value.Bare() == captured) then this else Report(captured)
    }

    function ObserveAll(captures: seq<WireState>): Row {
      if captures == [] then this
      else ObserveAll(captures[..|captures| - 1]).Observe(captures[|captures| - 1])
    }

    /** A present item that was not seen in the world but is in the inventory was picked up. */
    function Notice(seen: bool, carried: bool): Row {
      if managed.Some? && managed.value.present && !seen && carried then Report(managed.value.Gone()) else this
    }

    function Look(captures: seq<WireState>, carried: bool): Row {
      ObserveAll(captures).Notice(captures != [], carried)
    }

    function Poll(view: View): Row {
      Take(view.carried).Complete(view.moved).Look(view.captures, view.carried)
    }

    /** The server's state: absent, placed in the world, or placed but still without an entity. */
    function Apply(state: WireState, linked: bool): Row {
      Row(None, Some(state), if state.present && !linked then Some(state) else None, None, sent)
    }
  }

  /** What one poll finds out about one item. */
  datatype View = View(carried: bool, moved: bool, captures: seq<WireState>) {
    predicate Valid() {
      forall c :: c in captures ==> c.revision == 0 && c.present
    }
  }

  /** A poll keeps the row invariant. */
  lemma {:induction false} ObserveAllKeepsValid(row: Row, captures: seq<WireState>)
    requires row.Valid() && forall c :: c in captures ==> c.revision == 0
    ensures row.ObserveAll(captures).Valid()
  {
    if captures != [] { ObserveAllKeepsValid(row, captures[..|captures| - 1]); }
  }

  lemma PollKeepsValid(row: Row, view: View)
    requires row.Valid() && view.Valid()
    ensures row.Poll(view).Valid()
  {
    ObserveAllKeepsValid(row.Take(view.carried).Complete(view.moved), view.captures);
  }

  /** An item whose managed state is what the world shows is not reported again. */
  lemma {:induction false} UnchangedIsSilent(row: Row, captures: seq<WireState>)
    requires forall c :: c in captures ==> row.initial.Some? || (row.managed.Some? && c == row.managed.value.Bare())
    ensures row.ObserveAll(captures) == row
  {
    if captures != [] {
      var front, last := captures[..|captures| - 1], captures[|captures| - 1];
      assert last in captures;
      forall c | c in front ensures c in captures { }
      UnchangedIsSilent(row, front);
    }
  }

  /** After the server's state has been placed, polls that find it unchanged send nothing. */
  lemma AppliedIsSilent(row: Row, state: WireState, view: View)
    requires row.Valid() && state.present && view.Valid()
    requires view.captures != [] && forall c :: c in view.captures ==> c == state.Bare()
    ensures row.Apply(state, true).Poll(view) == row.Apply(state, true)
  {
    UnchangedIsSilent(row.Apply(state, true), view.captures);
  }

  /** The same for a state that had to wait for its entity, from the poll that moves it on. */
  lemma CompletedIsSilent(row: Row, state: WireState, view: View)
    requires row.Valid() && state.present && view.Valid() && view.moved
    requires view.captures != [] && forall c :: c in view.captures ==> c == state.Bare()
    ensures row.Apply(state, false).Poll(view) == row.Apply(state, true)
  {
    UnchangedIsSilent(row.Apply(state, true), view.captures);
  }

  /** Every change a poll makes to a managed state is announced, or is the server's own deferred state. */
  lemma ChangesAreAnnounced(row: Row, view: View)
    requires row.Valid() && view.Valid()
    ensures var after := row.Poll(view);
            after.managed == row.managed || after.last == after.managed || after.managed == row.deferred
  {
    ObserveAllAnnounces(row.Take(view.carried).Complete(view.moved), view.captures);
  }

  lemma {:induction false} ObserveAllAnnounces(row: Row, captures: seq<WireState>)
    ensures var after := row.ObserveAll(captures);
            after == row || (after.last == after.managed && after.managed.Some?)
  {
    if captures != [] { ObserveAllAnnounces(row, captures[..|captures| - 1]); }
  }

  lemma {:induction false} ObservedLast(row: Row, captures: seq<WireState>)
    requires row.initial.None? && captures != []
    requires forall c :: c in captures ==> c.revision == 0
    ensures var after := row.ObserveAll(captures);
            && after.initial.None? && after.deferred == row.deferred && after.sent >= row.sent
            && after.managed.Some? && after.managed.value.Bare() == captures[|captures| - 1]
            && (after.sent == row.sent ==> after == row)
            && (after.sent == row.sent <==> row.managed.Some? && forall c :: c in captures ==> c == row.managed.value.Bare())
  {
    var front, last := captures[..|captures| - 1], captures[|captures| - 1];
    assert last in captures && captures == front + [last] && forall c :: c in front ==> c in captures;
    if front == [] {
      assert row.ObserveAll(front) == row;
    } else {
      ObservedLast(row, front);
      assert front[0] in front;
    }
  }

  /** A second poll that finds the same sends nothing exactly when the item is still an initial one or
      the world showed it in one state only, however often it is registered. */
  lemma SecondPollIsSilentExactly(row: Row, view: View)
    requires row.Valid() && view.Valid()
    ensures var once := row.Poll(view);
            once.Poll(view) == once <==>
            (row.initial.Some? && !view.carried) || forall c, d :: c in view.captures && d in view.captures ==> c == d
  {
    var completed := row.Take(view.carried).Complete(view.moved);
    var once := row.Poll(view);
    assert once.Take(view.carried).Complete(view.moved) == once by {
      ObserveAllKeepsInitial(completed, view.captures);
    }
    if view.captures != [] {
      if completed.initial.Some? {
        UnchangedIsSilent(completed, view.captures);
        UnchangedIsSilent(once, view.captures);
      } else {
        ObservedLast(completed, view.captures);
        ObservedLast(once, view.captures);
        assert view.captures[|view.captures| - 1] in view.captures;
      }
    }
  }

  lemma {:induction false} ObserveAllKeepsInitial(row: Row, captures: seq<WireState>)
    ensures row.ObserveAll(captures).initial == row.initial && row.ObserveAll(captures).deferred == row.deferred
  {
    if captures != [] { ObserveAllKeepsInitial(row, captures[..|captures| - 1]); }
  }

  /** Exactly when a poll changes what it manages for an item without a word: when a deferred state
      other than the managed one moves into place and the world then shows nothing else, or shows
      nothing and the item is not picked up at once. */
  lemma SilentChangesExactly(row: Row, view: View)
    requires row.Valid() && view.Valid()
    ensures var after := row.Poll(view);
            after.managed != row.managed && after.sent == row.sent <==>
            && row.deferred.Some? && view.moved && row.deferred != row.managed
            && (forall c :: c in view.captures ==> c == row.deferred.value.Bare())
            && (view.captures != [] || !view.carried || !row.deferred.value.present)
  {
    var taken := row.Take(view.carried);
    var completed := taken.Complete(view.moved);
    if view.captures != [] {
      if completed.initial.Some? {
        UnchangedIsSilent(completed, view.captures);
      } else {
        ObservedLast(completed, view.captures);
      }
      assert view.captures[0] in view.captures;
    }
  }

  /** Picking an item up while its state still waits for an entity tells the server it is gone but
      does not end the wait: when the entity appears, dropped again or not, the managed state is the
      server's again, unannounced. */
  lemma PickupDoesNotEndTheWait(row: Row, state: WireState, carried: bool)
    requires state.present
    ensures var picked := row.Apply(state, false).Poll(View(true, false, []));
            var dropped := picked.Poll(View(carried, true, [state.Bare()]));
            && picked.last == Some(state.Gone()) && picked.deferred == Some(state)
            && dropped.managed == Some(state) && dropped.sent == picked.sent
  {
    var picked := row.Apply(state, false).Poll(View(true, false, []));
    UnchangedIsSilent(picked.Complete(true), [state.Bare()]);
  }

  // ---------- what a poll does, case by case ----------

  /** An item of the start that lies where it lay is left alone; one that was picked up is managed as
      absent and reported so, once. */
  lemma InitialItem(row: Row, s: WireState, view: View)
    requires row.Valid() && row.initial == Some(s) && view.captures == []
    ensures !view.carried ==> row.Poll(view) == row
    ensures view.carried ==>
              var gone := WireState(0, false, s.item, s.transform);
              row.Poll(view) == Row(None, Some(gone), None, Some(gone), row.sent + 1)
  {
  }

  /** A present item that is neither seen nor about to be moved into place: carried, it is reported
      absent, once; not carried, it is left alone. */
  lemma UnseenItem(row: Row, s: WireState, view: View)
    requires row.Valid() && row.managed == Some(s) && s.present && view.captures == []
    requires row.deferred.Some? ==> !view.moved
    ensures !view.carried ==> row.Poll(view) == row
    ensures view.carried ==>
              var gone := WireState(0, false, s.item, s.transform);
              row.Poll(view) == Row(None, Some(gone), row.deferred, Some(gone), row.sent + 1)
  {
  }

  /** An absent item that is not seen is left alone. */
  lemma AbsentItem(row: Row, s: WireState, view: View)
    requires row.Valid() && row.managed == Some(s) && !s.present && view.captures == []
    requires row.deferred.Some? ==> !view.moved
    ensures row.Poll(view) == row
  {
  }

  /** One sighting of an item that is not an initial one: reported exactly if anything but the
      revision differs from what is managed. */
  lemma SeenItem(row: Row, c: WireState, view: View)
    requires row.Valid() && row.initial.None? && c.revision == 0 && c.present && view.captures == [c]
    requires row.deferred.Some? ==> !view.moved
    ensures var same := row.managed.Some? && row.managed.value.present
                        && row.managed.value.item == c.item && row.managed.value.transform == c.transform;
            row.Poll(view) == if same then row else Row(None, Some(c), row.deferred, Some(c), row.sent + 1)
  {
    assert view.captures[..0] == [] && row.ObserveAll([]) == row;
  }

  /** An initial item that lies in the world is not reported, however it has changed. */
  lemma InitialItemSeen(row: Row, view: View)
    requires row.Valid() && row.initial.Some? && !view.carried && view.captures != []
    ensures row.Poll(view) == row
  {
    UnchangedIsSilent(row, view.captures);
  }

  /** A waiting state that is moved into place, with nothing seen and nothing carried, is managed from then on. */
  lemma WaitingItem(row: Row, s: WireState, view: View)
    requires row.Valid() && row.deferred == Some(s) && view.captures == [] && !view.carried
    ensures row.Poll(view) == if view.moved then Row(None, Some(s), None, None, row.sent) else row
  {
  }

  // ---------- the history of one session ----------

  datatype Event =
    | Sent(id: Id, state: WireState)  // queued for the server
    | Spoken(id: Id)                  // the server's own state took effect, at once or after waiting for its entity

  /** For every item the last update after which the server has not had its say. */
  function LastSent(log: seq<Event>): map<Id, WireState> {
    if log == [] then map[]
    else
      var front := LastSent(log[..|log| - 1]);
      match log[|log| - 1]
      case Sent(id, state) => front[id := state]
      case Spoken(id) => front - {id}
  }

  /** No update repeats the one before it for the same item, unless the server spoke in between. */
  predicate NeverRepeats(log: seq<Event>) {
    log == []
    || var front, e := log[..|log| - 1], log[|log| - 1];
       NeverRepeats(front)
       && (e.Sent? && e.id in LastSent(front) ==> LastSent(front)[e.id] != e.state)
  }

  function Updates(log: seq<Event>): seq<(Id, WireState)> {
    if log == [] then []
    else
      var e := log[|log| - 1];
      Updates(log[..|log| - 1]) + if e.Sent? then [(e.id, e.state)] else []
  }

  /** How many updates the history holds about each item. */
  function Counts(log: seq<Event>): multiset<Id> {
    if log == [] then multiset{}
    else
      var e := log[|log| - 1];
      Counts(log[..|log| - 1]) + if e.Sent? then multiset{e.id} else multiset{}
  }

  /** The histories of a session only grow, and so do the updates in them. */
  lemma {:induction false} UpdatesGrow(log: seq<Event>, n: nat)
    requires n <= |log|
    ensures Updates(log[..n]) <= Updates(log) && Counts(log[..n]) <= Counts(log)
  {
    if n == |log| {
      assert log[..n] == log;
    } else {
      UpdatesGrow(log[..|log| - 1], n);
      assert log[..|log| - 1][..n] == log[..n];
    }
  }

  lemma NewUpdates(
    log: seq<Event>, n: nat, polled: seq<(Id, WireState)>, before: seq<(Id, WireState)>, updates: seq<(Id, WireState)>)
    requires n <= |log| && Updates(log[..n]) == polled + before && Updates(log) == polled + updates
    ensures before <= updates && Updates(log)[|Updates(log[..n])|..] == updates[|before|..]
  {
    UpdatesGrow(log, n);
    assert before == (polled + before)[|polled|..] && updates == (polled + updates)[|polled|..];
  }

  /** If an item was reported since moment `n` and nothing was said about it after, its last report is
      among the updates since then. */
  lemma {:induction false} LatestIsNew(log: seq<Event>, n: nat, id: Id)
    requires n < |log| && id in LastSent(log) && Counts(log)[id] > Counts(log[..n])[id]
    ensures Updates(log[..n]) <= Updates(log)
    ensures (id, LastSent(log)[id]) in Updates(log)[|Updates(log[..n])|..]
  {
    UpdatesGrow(log, n);
    var front, e := log[..|log| - 1], log[|log| - 1];
    assert front[..n] == log[..n];
    UpdatesGrow(front, n);
    if e.Sent? && e.id == id {
      assert Updates(log)[|Updates(log)| - 1] == (id, e.state);
    } else {
      assert n < |front|;
      LatestIsNew(front, n, id);
      assert Updates(front)[|Updates(log[..n])|..] <= Updates(log)[|Updates(log[..n])|..];
    }
  }

  /** The ids of some updates, with how often each occurs. */
  function IdsOf(updates: seq<(Id, WireState)>): multiset<Id> {
    if updates == [] then multiset{} else IdsOf(updates[..|updates| - 1]) + multiset{updates[|updates| - 1].0}
  }

  lemma IdsAppend(updates: seq<(Id, WireState)>, u: (Id, WireState))
    ensures IdsOf(updates + [u]) == IdsOf(updates) + multiset{u.0}
  {
    assert (updates + [u])[..|updates|] == updates;
  }

  lemma {:induction false} CountsAreOfUpdates(log: seq<Event>)
    ensures Counts(log) == IdsOf(Updates(log))
  {
    if log != [] {
      var e, front := log[|log| - 1], log[..|log| - 1];
      CountsAreOfUpdates(front);
      if e.Sent? {
        IdsAppend(Updates(front), (e.id, e.state));
      } else {
        assert Updates(log) == Updates(front) + [] == Updates(front);
      }
    }
  }

  lemma LogAppend(log: seq<Event>, e: Event)
    ensures LastSent(log + [e]) == if e.Sent? then LastSent(log)[e.id := e.state] else LastSent(log) - {e.id}
    ensures Updates(log + [e]) == Updates(log) + if e.Sent? then [(e.id, e.state)] else []
    ensures Counts(log + [e]) == Counts(log) + if e.Sent? then multiset{e.id} else multiset{}
    ensures NeverRepeats(log + [e]) <==>
            NeverRepeats(log) && (e.Sent? && e.id in LastSent(log) ==> LastSent(log)[e.id] != e.state)
  {
    assert (log + [e])[..|log|] == log;
  }

  /** Between two updates for one item with nothing about that item in between, something differs. */
  lemma {:induction false} SuccessiveUpdatesDiffer(log: seq<Event>, i: nat, j: nat)
    requires NeverRepeats(log) && i < j < |log|
    requires log[i].Sent? && log[j].Sent? && log[i].id == log[j].id
    requires forall k :: i < k < j ==> log[k].id != log[i].id
    ensures log[i].state != log[j].state
  {
    if j == |log| - 1 {
      StillLast(log[..j], i);
    } else {
      SuccessiveUpdatesDiffer(log[..|log| - 1], i, j);
    }
  }

  lemma {:induction false} StillLast(log: seq<Event>, i: nat)
    requires i < |log| && log[i].Sent? && forall k :: i < k < |log| ==> log[k].id != log[i].id
    ensures log[i].id in LastSent(log) && LastSent(log)[log[i].id] == log[i].state
  {
    if i < |log| - 1 { StillLast(log[..|log| - 1], i); }
  }

  // ---------- the snapshot of one poll ----------

  /** A registered world item: whether it has a world entity, and what capturing it yields. */
  datatype Native = Native(id: Id, linked: bool, captured: Option<WireState>)

  datatype Snapshot = Snapshot(available: bool, world: seq<Native>, carried: set<Id>) {
    predicate Valid() {
      forall n :: n in world && n.captured.Some? ==>
        n.linked && n.captured.value.revision == 0 && n.captured.value.present
    }

    /** The first registered item with this id has a world entity. */
    predicate Linked(id: Id) {
      LinkedIn(world, id)
    }

    function ViewOf(id: Id, moved: set<Id>): View {
      View(id in carried, id in moved, CapturesOf(world, id))
    }
  }

  predicate LinkedIn(world: seq<Native>, id: Id) {
    world != [] && if world[0].id == id then world[0].linked else LinkedIn(world[1..], id)
  }

  function CapturesOf(world: seq<Native>, id: Id): seq<WireState> {
    if world == [] then []
    else
      var n := world[|world| - 1];
      CapturesOf(world[..|world| - 1], id) + if n.id == id && n.captured.Some? then [n.captured.value] else []
  }

  lemma {:induction false} NotCaptured(world: seq<Native>, id: Id)
    requires forall n :: n in world ==> n.id != id
    ensures CapturesOf(world, id) == []
  {
    if world != [] {
      assert world[|world| - 1] in world;
      NotCaptured(world[..|world| - 1], id);
    }
  }

  lemma {:induction false} UnlinkedIsNotMoved(world: seq<Native>, id: Id)
    requires forall n :: n in world && n.id == id ==> !n.linked
    ensures !LinkedIn(world, id)
  {
    if world != [] {
      assert world[0] in world;
      UnlinkedIsNotMoved(world[1..], id);
    }
  }

  /** An item has a world entity if the first one registered under its id has. */
  lemma {:induction false} LinkedExactly(world: seq<Native>, id: Id)
    ensures LinkedIn(world, id) <==>
            exists i :: 0 <= i < |world| && world[i].id == id && world[i].linked && forall j :: 0 <= j < i ==> world[j].id != id
  {
    if world != [] {
      var rest := world[1..];
      LinkedExactly(rest, id);
      if world[0].id != id {
        if i :| 0 <= i < |rest| && rest[i].id == id && rest[i].linked && forall j :: 0 <= j < i ==> rest[j].id != id {
          assert world[i + 1] == rest[i];
          forall j | 0 <= j < i + 1 ensures world[j].id != id { if j > 0 { assert world[j] == rest[j - 1]; } }
        }
        if i :| 0 <= i < |world| && world[i].id == id && world[i].linked && forall j :: 0 <= j < i ==> world[j].id != id {
          assert rest[i - 1] == world[i];
          forall j | 0 <= j < i - 1 ensures rest[j].id != id { assert rest[j] == world[j + 1]; }
        }
      }
    }
  }

  /** What is captured under one id is what its registered items yield, in order. */
  lemma CapturesAre(world: seq<Native>, n: Native, id: Id)
    ensures CapturesOf([], id) == []
    ensures CapturesOf(world + [n], id) ==
            CapturesOf(world, id) + if n.id == id && n.captured.Some? then [n.captured.value] else []
  {
    assert (world + [n])[..|world|] == world;
  }

  function LastOf(captures: seq<WireState>): Option<WireState> {
    if captures == [] then None else Some(captures[|captures| - 1])
  }

  lemma {:induction false} CapturesAreValid(world: seq<Native>, id: Id)
    requires forall n :: n in world && n.captured.Some? ==> n.captured.value.revision == 0 && n.captured.value.present
    ensures forall c :: c in CapturesOf(world, id) ==> c.revision == 0 && c.present
  {
    if world != [] {
      assert world[|world| - 1] in world && forall n :: n in world[..|world| - 1] ==> n in world;
      CapturesAreValid(world[..|world| - 1], id);
    }
  }

  lemma StillValid(row: Row, world: seq<Native>, i: nat, id: Id)
    requires row.Valid() && i <= |world|
    requires forall n :: n in world && n.captured.Some? ==> n.captured.value.revision == 0 && n.captured.value.present
    ensures row.ObserveAll(CapturesOf(world[..i], id)).Valid()
  {
    CapturesAreValid(world[..i], id);
    ObserveAllKeepsValid(row, CapturesOf(world[..i], id));
  }

  /** The row after the first `i` registered items have been looked at. */
  function ObservedSoFar(row: Row, world: seq<Native>, i: nat, id: Id): Row
    requires i <= |world|
  {
    row.ObserveAll(CapturesOf(world[..i], id))
  }

  function ObservedStep(row: Row, n: Native, id: Id): Row {
    if n.id == id && n.captured.Some? then row.Observe(n.captured.value) else row
  }

  lemma NextCapture(world: seq<Native>, i: nat, row: Row, id: Id)
    requires i < |world|
    ensures ObservedSoFar(row, world, i + 1, id) == ObservedStep(ObservedSoFar(row, world, i, id), world[i], id)
    ensures CapturesOf(world[..i + 1], id) != [] <==>
            CapturesOf(world[..i], id) != [] || (id == world[i].id && world[i].captured.Some?)
  {
    var before, n := CapturesOf(world[..i], id), world[i];
    var found := if n.id == id && n.captured.Some? then [n.captured.value] else [];
    assert world[..i + 1][..i] == world[..i];
    assert CapturesOf(world[..i + 1], id) == before + found;
    if found == [] {
      assert before + found == before;
    } else {
      assert (before + found)[..|before|] == before;
    }
  }

  // ---------- the tables ----------

  const POLL_INTERVAL_FRAMES := 6

  /** How the engine answered a request to put an item into the world. */
  datatype Placement = Failed | Placed(linked: bool)

  datatype Call =
    | Begin(available: bool, world: seq<Native>)
    | Poll(snapshot: Snapshot)
    | Drain
    | FromServer(id: Id, state: WireState, wellFormed: bool, available: bool)
    | Reset

  function At(table: map<Id, WireState>, id: Id): Option<WireState> {
    if id in table then Some(table[id]) else None
  }

  class Sync {
    var active: bool
    var applying: bool
    var pollFrame: nat
    var initial: map<Id, WireState>
    var managed: map<Id, WireState>
    var deferred: map<Id, WireState>
    var updates: seq<(Id, WireState)>
    ghost var log: seq<Event>
    ghost var polled: seq<(Id, WireState)>

    ghost function RowOf(id: Id): Row
      reads this`initial, this`managed, this`deferred, this`log
    {
      Row(At(initial, id), At(managed, id), At(deferred, id), At(LastSent(log), id), Counts(log)[id])
    }

    /** What is queued and what was handed out are the updates of the history, none sent twice in a row. */
    ghost predicate Queued()
      reads this`updates, this`log, this`polled
    {
      && Updates(log) == polled + updates
      && NeverRepeats(log)
      && forall u :: u in updates ==> u.1.revision == 0
    }

    ghost predicate Valid()
      reads this
    {
      && pollFrame < 0x1_0000_0000
      && Queued()
      && forall id :: RowOf(id).Valid()
    }

    constructor ()
      ensures Valid() && !active && log == []
    {
      active, applying, pollFrame := false, false, 0;
      initial, managed, deferred, updates := map[], map[], map[], [];
      log, polled := [], [];
    }

    /** Records a new state of an item and queues it. */
    method Emit(id: Id, state: WireState)
      requires Queued() && state.revision == 0 && RowOf(id).last != Some(state)
      modifies this`managed, this`updates, this`log
      ensures old(log) <= log
      ensures Queued() && updates == old(updates) + [(id, state)]
      ensures RowOf(id) == old(RowOf(id)).Report(state)
      ensures forall other :: other != id ==> RowOf(other) == old(RowOf(other))
    {
      LogAppend(log, Sent(id, state));
      managed := managed[id := state];
      updates := updates + [(id, state)];
      log := log + [Sent(id, state)];
    }

    method TakeOne(id: Id)
      requires Queued() && RowOf(id).Valid() && id in initial
      modifies this`initial, this`managed, this`updates, this`log
      ensures old(log) <= log
      ensures Queued()
      ensures RowOf(id) == old(RowOf(id)).Take(true)
      ensures forall other :: other != id ==> RowOf(other) == old(RowOf(other))
    {
      var removed := initial[id].Gone();
      initial := initial - {id};
      Emit(id, removed);
    }

    /** First pass: initial items that turned up in the player's inventory. */
    method TakeCarried(s: Snapshot)
      requires Queued() && forall id :: RowOf(id).Valid()
      modifies this`initial, this`managed, this`updates, this`log
      ensures old(log) <= log
      ensures Queued()
      ensures forall id :: RowOf(id) == old(RowOf(id)).Take(id in s.carried)
    {
      var todo := initial.Keys;
      while todo != {}
        invariant old(log) <= log
        invariant Queued()
        invariant forall id :: id in todo ==> id in old(initial)
        invariant forall id :: RowOf(id) == if id in todo then old(RowOf(id)) else old(RowOf(id)).Take(id in s.carried)
      {
        var id :| id in todo;
        todo := todo - {id};
        assert RowOf(id) == old(RowOf(id));
        if id in s.carried {
          TakeOne(id);
        }
      }
    }

    method CompleteOne(id: Id)
      requires Queued() && id in deferred
      modifies this`managed, this`deferred, this`log
      ensures old(log) <= log
      ensures Queued()
      ensures RowOf(id) == old(RowOf(id)).Complete(true)
      ensures forall other :: other != id ==> RowOf(other) == old(RowOf(other))
    {
      Say(id);
      managed := managed[id := deferred[id]];
      deferred := deferred - {id};
    }

    /** Second pass: deferred states whose entity has appeared and can be moved into place. */
    method CompleteDeferred(s: Snapshot) returns (ghost moved: set<Id>)
      requires Queued()
      modifies this`managed, this`deferred, this`log
      ensures old(log) <= log
      ensures Queued()
      ensures forall id :: id in moved ==> s.Linked(id)
      ensures forall id :: RowOf(id) == old(RowOf(id)).Complete(id in moved)
    {
      moved := {};
      var todo := deferred.Keys;
      while todo != {}
        invariant old(log) <= log
        invariant Queued()
        invariant todo <= deferred.Keys && moved !! todo
        invariant forall id :: id in moved ==> s.Linked(id)
        invariant forall id :: RowOf(id) == old(RowOf(id)).Complete(id in moved)
      {
        var id :| id in todo;
        todo := todo - {id};
        assert RowOf(id) == old(RowOf(id));
        if s.Linked(id) {
          var placed: bool := *;    // SetWorldTM may fail
          if placed {
            CompleteOne(id);
            moved := moved + {id};
          }
        }
      }
    }

    /** One registered item: what it yields is noted for its id, and for no other. */
    method ObserveNative(n: Native, seen: set<Id>) returns (now: set<Id>)
      requires Queued() && RowOf(n.id).Valid() && (n.captured.Some? ==> n.captured.value.revision == 0)
      modifies this`managed, this`updates, this`log
      ensures old(log) <= log
      ensures Queued()
      ensures forall id :: RowOf(id) == ObservedStep(old(RowOf(id)), n, id)
      ensures now == if n.captured.Some? then seen + {n.id} else seen
    {
      now := seen;
      if n.captured.Some? {
        now := seen + {n.id};
        ObserveOne(n.id, n.captured.value);
      }
    }

    /** Third pass: what lies in the world now. */
    method ObserveWorld(s: Snapshot) returns (seen: set<Id>)
      requires Queued() && s.Valid() && forall id :: RowOf(id).Valid()
      modifies this`managed, this`updates, this`log
      ensures old(log) <= log
      ensures Queued()
      ensures forall id :: RowOf(id) == old(RowOf(id)).ObserveAll(CapturesOf(s.world, id))
      ensures forall id :: id in seen <==> CapturesOf(s.world, id) != []
    {
      seen := {};
      for i := 0 to |s.world|
        invariant old(log) <= log
        invariant Queued()
        invariant forall id :: RowOf(id) == ObservedSoFar(old(RowOf(id)), s.world, i, id)
        invariant forall id :: id in seen <==> CapturesOf(s.world[..i], id) != []
      {
        StillValid(old(RowOf(s.world[i].id)), s.world, i, s.world[i].id);
        seen := ObserveNative(s.world[i], seen);
        forall id
          ensures RowOf(id) == ObservedSoFar(old(RowOf(id)), s.world, i + 1, id)
          ensures id in seen <==> CapturesOf(s.world[..i + 1], id) != []
        {
          NextCapture(s.world, i, old(RowOf(id)), id);
        }
      }
      assert s.world[..|s.world|] == s.world;
    }

    method ObserveOne(id: Id, captured: WireState)
      requires Queued() && RowOf(id).Valid() && captured.revision == 0
      modifies this`managed, this`updates, this`log
      ensures old(log) <= log
      ensures Queued()
      ensures RowOf(id) == old(RowOf(id)).Observe(captured)
      ensures forall other :: other != id ==> RowOf(other) == old(RowOf(other))
    {
      if id in initial {
        return;
      }
      if id in managed && managed[id].Bare() == captured {
        return;
      }
      Emit(id, captured);
    }

    /** Last pass: present items that are no longer seen but are in the inventory. */
    method NoticePickups(s: Snapshot, seen: set<Id>)
      requires Queued() && forall id :: RowOf(id).Valid()
      modifies this`managed, this`updates, this`log
      ensures old(log) <= log
      ensures Queued()
      ensures forall id :: RowOf(id) == old(RowOf(id)).Notice(id in seen, id in s.carried)
    {
      var todo := managed.Keys;
      while todo != {}
        invariant old(log) <= log
        invariant Queued()
        invariant forall id :: id in todo ==> id in old(managed)
        invariant forall id :: id !in todo ==> RowOf(id) == old(RowOf(id)).Notice(id in seen, id in s.carried)
        invariant forall id :: id in todo ==> RowOf(id) == old(RowOf(id))
      {
        var id :| id in todo;
        todo := todo - {id};
        assert RowOf(id) == old(RowOf(id));
        if managed[id].present && id !in seen && id in s.carried {
          Emit(id, managed[id].Gone());
        }
      }
    }

    /** The call on which a poll does its work: every sixth one while the session is active. */
    predicate Due()
      reads this
    {
      active && !applying && (pollFrame + 1) % 0x1_0000_0000 % POLL_INTERVAL_FRAMES == 0
    }

    /** One call of the poll. When it does its work, every item takes one step of its own automaton. */
    method Process(s: Snapshot) returns (ghost moved: set<Id>)
      requires Valid() && s.Valid()
      modifies this
      ensures old(log) <= log
      ensures Valid() && active == old(active) && applying == old(applying) && polled == old(polled)
      ensures pollFrame == if active && !applying then (old(pollFrame) + 1) % 0x1_0000_0000 else old(pollFrame)
      ensures var due := active && !applying && (old(pollFrame) + 1) % 0x1_0000_0000 % 6 == 0;
              if due && s.available then
                && (forall id :: id in moved ==> s.Linked(id))
                && forall id :: RowOf(id) == old(RowOf(id)).Poll(s.ViewOf(id, moved))
              else updates == old(updates) && forall id :: RowOf(id) == old(RowOf(id))
      ensures old(updates) <= updates
      ensures forall id: Id :: RowOf(id).sent > old(RowOf(id)).sent && RowOf(id).last.Some? ==>
                (id, RowOf(id).last.value) in updates[|old(updates)|..]
    {
      moved := {};
      if !active || applying {
        return;
      }
      pollFrame := (pollFrame + 1) % 0x1_0000_0000;
      if pollFrame % POLL_INTERVAL_FRAMES != 0 {
        return;
      }
      if !s.available {
        return;
      }
      moved := Passes(s);
      assert log[..|old(log)|] == old(log);
      NewUpdates(log, |old(log)|, polled, old(updates), updates);
      assert |old(log)| == |log| ==> log == old(log);
      forall id: Id | RowOf(id).sent > old(RowOf(id)).sent && RowOf(id).last.Some?
        ensures (id, RowOf(id).last.value) in updates[|old(updates)|..]
      {
        LatestIsNew(log, |old(log)|, id);
      }
    }

    /** An item that lay in the world at the start and is in the inventory by the time the poll does its
        work: it is managed as absent from then on, and its removal is queued. */
    method PollAfterPickup(s: Snapshot, id: Id)
      requires Valid() && s.Valid() && s.available && active && !applying
      requires (pollFrame + 1) % 0x1_0000_0000 % 6 == 0
      requires id in initial && id in s.carried && forall n :: n in s.world ==> n.id != id
      modifies this
      ensures Valid() && id !in initial && id in managed && old(updates) <= updates
      ensures managed[id] == WireState(0, false, old(initial[id].item), old(initial[id].transform))
      ensures (id, managed[id]) in updates[|old(updates)|..]
    {
      ghost var s0, row := initial[id], RowOf(id);
      NotCaptured(s.world, id);
      ghost var moved := Process(s);
      InitialItem(row, s0, s.ViewOf(id, moved));
    }

    /** A waiting state stays waiting as long as its item has no world entity. */
    method PollWhileUnlinked(s: Snapshot, id: Id)
      requires Valid() && s.Valid() && id in deferred && (forall n :: n in s.world && n.id == id ==> !n.linked)
      modifies this
      ensures Valid() && id in deferred && deferred[id] == old(deferred[id])
    {
      ghost var row := RowOf(id);
      UnlinkedIsNotMoved(s.world, id);
      ghost var moved := Process(s);
      ObserveAllKeepsInitial(row.Take(id in s.carried), CapturesOf(s.world, id));
    }

    method Passes(s: Snapshot) returns (ghost moved: set<Id>)
      requires Valid() && s.Valid()
      modifies this`initial, this`managed, this`deferred, this`updates, this`log
      ensures old(log) <= log
      ensures Valid()
      ensures forall id :: id in moved ==> s.Linked(id)
      ensures forall id :: RowOf(id) == old(RowOf(id)).Poll(s.ViewOf(id, moved))
    {
      TakeCarried(s);
      moved := CompleteDeferred(s);
      Look(s);
    }

    /** The two passes over what the world shows. */
    method Look(s: Snapshot)
      requires Queued() && s.Valid() && forall id :: RowOf(id).Valid()
      modifies this`managed, this`updates, this`log
      ensures old(log) <= log
      ensures Queued() && forall id :: RowOf(id).Valid()
      ensures forall id :: RowOf(id) == old(RowOf(id)).Look(CapturesOf(s.world, id), id in s.carried)
    {
      var seen := ObserveWorld(s);
      forall id ensures RowOf(id).Valid() {
        CapturesAreValid(s.world, id);
        ObserveAllKeepsValid(old(RowOf(id)), CapturesOf(s.world, id));
      }
      NoticePickups(s, seen);
    }

    /** Hands the queued updates out, oldest first. */
    method PollUpdates() returns (result: seq<(Id, WireState)>)
      requires Valid()
      modifies this`updates, this`polled
      ensures Valid() && result == old(updates) && updates == [] && polled == old(polled) + result
    {
      result := [];
      while updates != []
        invariant result + updates == old(updates) && polled == old(polled) + result
        invariant Queued()
      {
        result := result + [updates[0]];
        polled := polled + [updates[0]];
        updates := updates[1..];
      }
    }

    /** Creating the item, setting its values, placing it and moving its entity can each fail; a failure
        undoes the creation, and an entity may not exist yet. */
    method PlaceInWorld() returns (placement: Placement)
    {
      placement := *;
    }

    /** Takes over the server's state of one item. */
    method Apply(id: Id, state: WireState, wellFormed: bool, available: bool) returns (ok: bool, ghost linked: bool)
      requires Valid()
      modifies this
      ensures old(log) <= log
      ensures Valid() && active == old(active) && updates == old(updates) && polled == old(polled) && pollFrame == old(pollFrame)
      ensures ok ==> active && wellFormed && state.revision != 0 && available
      ensures !ok ==> RowOf(id) == old(RowOf(id))
      ensures ok ==> RowOf(id) == old(RowOf(id)).Apply(state, linked)
      ensures ok ==> id !in initial && id in managed && managed[id] == state
      ensures ok ==> if state.present && !linked then id in deferred && deferred[id] == state else id !in deferred
      ensures forall other :: other != id ==> RowOf(other) == old(RowOf(other))
      ensures active && wellFormed && state.revision != 0 && available && !state.present ==> ok
      ensures applying == (old(applying) && !(active && wellFormed && state.revision != 0 && available))
    {
      linked := false;
      if !active || !wellFormed || state.revision == 0 {
        return false, linked;
      }
      if !available {
        return false, linked;
      }
      applying := true;
      if state.present {
        var placement := PlaceInWorld();
        if placement.Failed? {
          applying := false;
          return false, linked;
        }
        linked := placement.linked;
        Install(id, state, placement.linked);
      } else {
        Install(id, state, false);
      }
      applying := false;
      return true, linked;
    }

    /** Books the server's state: it waits for its entity when it is present without one. */
    method Install(id: Id, state: WireState, linked: bool)
      requires Queued()
      modifies this`initial, this`managed, this`deferred, this`log
      ensures old(log) <= log
      ensures Queued()
      ensures RowOf(id) == old(RowOf(id)).Apply(state, linked)
      ensures forall other :: other != id ==> RowOf(other) == old(RowOf(other))
    {
      Say(id);
      initial := initial - {id};
      managed := managed[id := state];
      deferred := if state.present && !linked then deferred[id := state] else deferred - {id};
    }

    /** Notes in the history that the server's state of the item has taken effect. */
    ghost method Say(id: Id)
      requires Queued()
      modifies this`log
      ensures old(log) <= log
      ensures Queued() && LastSent(log) == old(LastSent(log)) - {id} && Counts(log) == old(Counts(log))
    {
      LogAppend(log, Spoken(id));
      log := log + [Spoken(id)];
    }

    method Clear()
      modifies this
      ensures Valid() && !active && !applying && pollFrame == 0 && log == [] && polled == [] && updates == []
      ensures initial == map[] && managed == map[] && deferred == map[]
    {
      active, applying, pollFrame := false, false, 0;
      initial, managed, deferred, updates := map[], map[], map[], [];
      log, polled := [], [];
    }

    method Remember(id: Id, state: WireState)
      modifies this`initial
      ensures RowOf(id) == old(RowOf(id)).(initial := Some(state))
      ensures forall other :: other != id ==> RowOf(other) == old(RowOf(other))
    {
      initial := initial[id := state];
    }

    /** Starts a session from what lies in the world. */
    method Start(available: bool, world: seq<Native>) returns (ok: bool)
      modifies this
      ensures Valid() && active == ok == available && updates == [] && managed == map[]
      ensures ok ==> forall id :: RowOf(id) == Row(LastOf(CapturesOf(world, id)), None, None, None, 0)
      ensures ok ==> forall id :: (id in initial <==> CapturesOf(world, id) != [])
                              && (id in initial ==> initial[id] == CapturesOf(world, id)[|CapturesOf(world, id)| - 1])
    {
      Clear();
      if !available {
        return false;
      }
      for i := 0 to |world|
        invariant Queued() && pollFrame == 0 && !active && updates == [] && managed == map[]
        invariant forall id :: RowOf(id) == Row(LastOf(CapturesOf(world[..i], id)), None, None, None, 0)
      {
        forall id ensures LastOf(CapturesOf(world[..i + 1], id)) ==
                          if id == world[i].id && world[i].captured.Some? then world[i].captured else LastOf(CapturesOf(world[..i], id)) {
          assert world[..i + 1][..i] == world[..i];
        }
        if world[i].captured.Some? {
          Remember(world[i].id, world[i].captured.value);
        }
      }
      assert world[..|world|] == world;
      active := true;
      return true;
    }

    /** Any run of calls. */
    method Serve(calls: seq<Call>)
      requires Valid() && forall c :: c in calls && c.Poll? ==> c.snapshot.Valid()
      modifies this
      ensures Valid()
    {
      for i := 0 to |calls|
        invariant Valid()
      {
        assert calls[i] in calls;
        match calls[i] {
          case Begin(available, world) =>
            var _ := Start(available, world);
          case Poll(snapshot) =>
            ghost var _ := Process(snapshot);
          case Drain =>
            var _ := PollUpdates();
          case FromServer(id, state, wellFormed, available) =>
            var ok;
            ghost var linked;
            ok, linked := Apply(id, state, wellFormed, available);
          case Reset =>
            Clear();
        }
      }
    }
  }
}
