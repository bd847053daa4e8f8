/** The bounded queue of commands for the game thread. Position updates ("snapshots") replace one
    another in place and give way to reliable traffic. */
module CommandQueue {
  import opened Common

  datatype Envelope = Envelope(hasSnapshot: bool, content: int)

  // ---------- the history a caller sees ----------

  datatype Event =
    | Pushed(envelope: Envelope, accepted: bool)
    | Drained(envelopes: seq<Envelope>)
    | Cleared

  /** The messages other than snapshots, in order. */
  function Plain(s: seq<Envelope>): seq<Envelope> {
    if s == [] then []
    else Plain(s[..|s| - 1]) + if s[|s| - 1].hasSnapshot then [] else [s[|s| - 1]]
  }

  function Snapshots(s: seq<Envelope>): seq<Envelope> {
    if s == [] then []
    else Snapshots(s[..|s| - 1]) + if s[|s| - 1].hasSnapshot then [s[|s| - 1]] else []
  }

  /** Messages accepted since the queue was last cleared. */
  function Accepted(log: seq<Event>): seq<Envelope> {
    if log == [] then []
    else
      var front := Accepted(log[..|log| - 1]);
      match log[|log| - 1]
      case Pushed(e, accepted) => if accepted && !e.hasSnapshot then front + [e] else front
      case Drained(_) => front
      case Cleared => []
  }

  /** Messages handed out since the queue was last cleared. */
  function Delivered(log: seq<Event>): seq<Envelope> {
    if log == [] then []
    else
      var front := Delivered(log[..|log| - 1]);
      match log[|log| - 1]
      case Pushed(_, _) => front
      case Drained(envelopes) => front + Plain(envelopes)
      case Cleared => []
  }

  /** The last snapshot anybody pushed, accepted or not. */
  function Newest(log: seq<Event>): Option<Envelope> {
    if log == [] then None
    else
      match log[|log| - 1]
      case Pushed(e, _) => if e.hasSnapshot then Some(e) else Newest(log[..|log| - 1])
      case _ => Newest(log[..|log| - 1])
  }

  /** Every snapshot that was handed out was the newest at that moment, and none went out with another. */
  predicate DeliversNewest(log: seq<Event>) {
    log == []
    || (DeliversNewest(log[..|log| - 1])
        && (log[|log| - 1].Drained? ==> OnlyNewest(log[|log| - 1].envelopes, Newest(log[..|log| - 1]))))
  }

  /** At most one of the messages is a snapshot, and then it is the newest one. */
  predicate OnlyNewest(s: seq<Envelope>, newest: Option<Envelope>) {
    Snapshots(s) == [] || (newest.Some? && Snapshots(s) == [newest.value])
  }

  lemma LogAppend(log: seq<Event>, e: Event)
    ensures Newest(log + [e]) == if e.Pushed? && e.envelope.hasSnapshot then Some(e.envelope) else Newest(log)
    ensures Accepted(log + [e]) ==
            if e.Cleared? then []
            else if e.Pushed? && e.accepted && !e.envelope.hasSnapshot then Accepted(log) + [e.envelope]
            else Accepted(log)
    ensures Delivered(log + [e]) ==
            if e.Cleared? then [] else if e.Drained? then Delivered(log) + Plain(e.envelopes) else Delivered(log)
    ensures DeliversNewest(log + [e]) <==>
            DeliversNewest(log) && (e.Drained? ==> OnlyNewest(e.envelopes, Newest(log)))
  {
    assert (log + [e])[..|log|] == log;
  }

  // ---------- sequences of messages ----------

  lemma {:induction false} SplitMessages(s: seq<Envelope>, t: seq<Envelope>)
    ensures Plain(s + t) == Plain(s) + Plain(t)
    ensures Snapshots(s + t) == Snapshots(s) + Snapshots(t)
  {
    if t == [] {
      assert s + t == s;
    } else {
      SplitMessages(s, t[..|t| - 1]);
      assert (s + t)[..|s + t| - 1] == s + t[..|t| - 1];
    }
  }

  lemma {:induction false} CountMessages(s: seq<Envelope>)
    ensures |s| == |Plain(s)| + |Snapshots(s)|
    ensures Snapshots(s) == [] <==> forall e :: e in s ==> !e.hasSnapshot
    ensures forall e :: e in Snapshots(s) ==> e in s
  {
    if s != [] {
      var front, last := s[..|s| - 1], s[|s| - 1];
      CountMessages(front);
      assert forall e :: e in s <==> e in front || e == last;
    }
  }

  lemma SplitNewest(s: seq<Envelope>, t: seq<Envelope>, newest: Option<Envelope>)
    requires OnlyNewest(s + t, newest)
    ensures OnlyNewest(s, newest) && OnlyNewest(t, newest) && Plain(s + t) == Plain(s) + Plain(t)
  {
    SplitMessages(s, t);
    var both := Snapshots(s) + Snapshots(t);
    if both != [] {
      assert |Snapshots(s)| + |Snapshots(t)| == 1;
      if Snapshots(s) == [] { assert both == Snapshots(t); } else { assert both[..1] == Snapshots(s); }
    }
  }

  lemma Single(e: Envelope)
    ensures Plain([e]) == (if e.hasSnapshot then [] else [e]) && Snapshots([e]) == if e.hasSnapshot then [e] else []
  {
    assert [e][..0] == [];
  }

  lemma Around(s: seq<Envelope>, i: nat, e: Envelope)
    requires i < |s| && e.hasSnapshot
    ensures Plain(s[i := e]) == Plain(s[..i]) + Plain(s[i + 1..])
    ensures Snapshots(s[i := e]) == Snapshots(s[..i]) + [e] + Snapshots(s[i + 1..])
  {
    assert s[i := e] == s[..i] + ([e] + s[i + 1..]);
    Single(e);
    SplitMessages([e], s[i + 1..]);
    SplitMessages(s[..i], [e] + s[i + 1..]);
  }

  /** Around the only snapshot there are no others. */
  lemma OnlyOne(s: seq<Envelope>, i: nat, newest: Option<Envelope>)
    requires i < |s| && s[i].hasSnapshot && OnlyNewest(s, newest)
    ensures Snapshots(s[..i]) == [] && Snapshots(s[i + 1..]) == [] && Plain(s) == Plain(s[..i]) + Plain(s[i + 1..])
  {
    Around(s, i, s[i]);
    assert s[i := s[i]] == s;
    assert |Snapshots(s)| == |Snapshots(s[..i])| + 1 + |Snapshots(s[i + 1..])|;
  }

  /** A newer snapshot in the place of the queued one. */
  lemma Replaced(s: seq<Envelope>, i: nat, newest: Option<Envelope>, e: Envelope)
    requires i < |s| && s[i].hasSnapshot && OnlyNewest(s, newest) && e.hasSnapshot
    ensures Plain(s[i := e]) == Plain(s) && Snapshots(s[i := e]) == [e]
  {
    OnlyOne(s, i, newest);
    Around(s, i, e);
  }

  /** The queued snapshot taken out for another message. */
  lemma Evicted(s: seq<Envelope>, i: nat, newest: Option<Envelope>, e: Envelope)
    requires i < |s| && s[i].hasSnapshot && OnlyNewest(s, newest) && !e.hasSnapshot
    ensures var r := s[..i] + s[i + 1..] + [e]; Plain(r) == Plain(s) + [e] && Snapshots(r) == []
  {
    OnlyOne(s, i, newest);
    SplitMessages(s[..i], s[i + 1..]);
    Single(e);
    SplitMessages(s[..i] + s[i + 1..], [e]);
  }

  // ---------- the queue ----------

  class Queue {
    const capacity: nat
    var queue: seq<Envelope>
    ghost var log: seq<Event>

    /** The queue is exactly what the history leaves undelivered. */
    ghost predicate Valid()
      reads this
    {
      && |queue| <= capacity
      && Accepted(log) == Delivered(log) + Plain(queue)
      && OnlyNewest(queue, Newest(log))
      && DeliversNewest(log)
    }

    constructor (capacity: nat)
      ensures Valid() && this.capacity == capacity && queue == [] && log == []
    {
      this.capacity, queue, log := capacity, [], [];
    }

    /** The position of a queued snapshot, searching from the back, or the length. */
    method FindSnapshotFromBack() returns (i: nat)
      ensures i <= |queue| && (i < |queue| ==> queue[i].hasSnapshot)
      ensures i == |queue| ==> forall e :: e in queue ==> !e.hasSnapshot
    {
      var at := |queue|;
      while at > 0
        invariant 0 <= at <= |queue| && forall j :: at <= j < |queue| ==> !queue[j].hasSnapshot
      {
        at := at - 1;
        if queue[at].hasSnapshot {
          return at;
        }
      }
      return |queue|;
    }

    method FindSnapshotFromFront() returns (i: nat)
      ensures i <= |queue| && (i < |queue| ==> queue[i].hasSnapshot)
      ensures i == |queue| ==> forall e :: e in queue ==> !e.hasSnapshot
    {
      i := 0;
      while i < |queue| && !queue[i].hasSnapshot
        invariant i <= |queue| && forall j :: 0 <= j < i ==> !queue[j].hasSnapshot
      {
        i := i + 1;
      }
    }

    /** A snapshot replaces a queued one, anything fits while there is room, and reliable traffic pushes
        a queued snapshot out. */
    method Push(e: Envelope, reliable: bool) returns (accepted: bool)
      requires Valid()
      modifies this
      ensures Valid() && log == old(log) + [Pushed(e, accepted)]
      ensures accepted <==>
              || |old(queue)| < capacity
              || ((e.hasSnapshot || reliable) && exists x :: x in old(queue) && x.hasSnapshot)
      ensures reliable && !e.hasSnapshot ==> (!accepted <==> |Plain(old(queue))| == capacity)
      ensures !accepted ==> queue == old(queue)
      ensures accepted && e.hasSnapshot && Snapshots(old(queue)) != [] ==>
                exists i :: 0 <= i < |old(queue)| && old(queue)[i].hasSnapshot && queue == old(queue)[i := e]
      ensures accepted && !(e.hasSnapshot && Snapshots(old(queue)) != []) && |old(queue)| < capacity ==>
                queue == old(queue) + [e]
      ensures accepted && !e.hasSnapshot && |old(queue)| == capacity ==>
                exists i :: 0 <= i < |old(queue)| && old(queue)[i].hasSnapshot
                            && queue == old(queue)[..i] + old(queue)[i + 1..] + [e]
    {
      CountMessages(queue);
      if e.hasSnapshot {
        var i := FindSnapshotFromBack();
        if i < |queue| {
          ReplaceAt(i, e);
          return true;
        }
      }
      if |queue| >= capacity {
        if !reliable {
          Refuse(e);
          return false;
        }
        var i := FindSnapshotFromFront();
        if i < |queue| {
          EvictFor(i, e);
          return true;
        }
        Refuse(e);
        return false;
      }
      Append(e);
      return true;
    }

    ghost method Refuse(e: Envelope)
      requires Valid() && (e.hasSnapshot ==> Snapshots(queue) == [])
      modifies this`log
      ensures Valid() && log == old(log) + [Pushed(e, false)]
    {
      LogAppend(log, Pushed(e, false));
      log := log + [Pushed(e, false)];
    }

    method ReplaceAt(i: nat, e: Envelope)
      requires Valid() && i < |queue| && queue[i].hasSnapshot && e.hasSnapshot
      modifies this
      ensures Valid() && log == old(log) + [Pushed(e, true)] && queue == old(queue)[i := e]
    {
      Replaced(queue, i, Newest(log), e);
      LogAppend(log, Pushed(e, true));
      queue := queue[i := e];
      log := log + [Pushed(e, true)];
    }

    method EvictFor(i: nat, e: Envelope)
      requires Valid() && i < |queue| && queue[i].hasSnapshot && !e.hasSnapshot
      modifies this
      ensures Valid() && log == old(log) + [Pushed(e, true)]
      ensures queue == old(queue)[..i] + old(queue)[i + 1..] + [e]
    {
      Evicted(queue, i, Newest(log), e);
      LogAppend(log, Pushed(e, true));
      assert Delivered(log) + (Plain(queue) + [e]) == Accepted(log) + [e];
      queue := queue[..i] + queue[i + 1..] + [e];
      log := log + [Pushed(e, true)];
    }

    method Append(e: Envelope)
      requires Valid() && |queue| < capacity && (e.hasSnapshot ==> Snapshots(queue) == [])
      modifies this
      ensures Valid() && log == old(log) + [Pushed(e, true)] && queue == old(queue) + [e]
    {
      SplitMessages(queue, [e]);
      Single(e);
      LogAppend(log, Pushed(e, true));
      queue := queue + [e];
      log := log + [Pushed(e, true)];
    }

    method Drain(maximum: nat) returns (result: seq<Envelope>)
      requires Valid()
      modifies this
      ensures Valid() && log == old(log) + [Drained(result)]
      ensures |result| == (if maximum < |old(queue)| then maximum else |old(queue)|)
      ensures result + queue == old(queue)
    {
      result := PopFront(if maximum < |queue| then maximum else |queue|);
      SplitNewest(result, queue, Newest(log));
      Associates(Delivered(log), Plain(result), Plain(queue));
      LogAppend(log, Drained(result));
      log := log + [Drained(result)];
    }

    method PopFront(count: nat) returns (result: seq<Envelope>)
      requires count <= |queue|
      modifies this`queue
      ensures |result| == count && result + queue == old(queue)
    {
      result := [];
      for index := 0 to count
        invariant result == old(queue)[..index] && queue == old(queue)[index..]
      {
        result := result + [queue[0]];
        queue := queue[1..];
      }
    }

    method Clear()
      requires Valid()
      modifies this
      ensures Valid() && queue == [] && log == old(log) + [Cleared]
    {
      LogAppend(log, Cleared);
      queue := [];
      log := log + [Cleared];
    }
  }
}
