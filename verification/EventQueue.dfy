/** What the ticker's event list is for, on values: a priority queue of deadlines in which events
    with equal timestamps leave in the order they came. The heap list of TickerQueue.dfy replays
    these operations; the laws here hold for every sequence of them. */
module EventQueue {

  datatype Option<T> = None | Some(value: T)

  datatype Entry = Entry(timestamp: nat, id: nat)

  /** Insert: ticker_insert_event_us. Remove: ticker_remove_event of the k-th event.
      Dispatch: one turn of the interrupt handler's loop when the present time is `at`. */
  datatype QueueOp = Insert(entry: Entry) | Remove(index: nat) | Dispatch(at: nat)

  ghost predicate Sorted(s: seq<Entry>) {
    forall i, j :: 0 <= i < j < |s| ==> s[i].timestamp <= s[j].timestamp
  }

  /** Where the insertion walk stops: before the first entry that is strictly later. */
  function InsertPos(s: seq<Entry>, timestamp: nat): (k: nat)
    ensures k <= |s|
    ensures forall i :: 0 <= i < k ==> s[i].timestamp <= timestamp
    ensures k < |s| ==> timestamp < s[k].timestamp
  {
    if s == [] || timestamp < s[0].timestamp then 0
    else 1 + InsertPos(s[1..], timestamp)
  }

  function InsertSorted(s: seq<Entry>, e: Entry): seq<Entry> {
    InsertAt(s, InsertPos(s, e.timestamp), e)
  }

  function InsertAt<T>(s: seq<T>, k: nat, x: T): (r: seq<T>)
    requires k <= |s|
    ensures |r| == |s| + 1
    ensures forall j {:trigger r[j]} :: 0 <= j < k ==> r[j] == s[j]
    ensures r[k] == x
    ensures forall j {:trigger r[j]} :: k < j < |r| ==> r[j] == s[j - 1]
  {
    s[..k] + [x] + s[k..]
  }

  function Without<T>(s: seq<T>, k: nat): (r: seq<T>)
    requires k < |s|
    ensures |r| == |s| - 1
    ensures forall j {:trigger r[j]} :: 0 <= j < k ==> r[j] == s[j]
    ensures forall j {:trigger r[j]} :: k <= j < |r| ==> r[j] == s[j + 1]
  {
    s[..k] + s[k + 1..]
  }

  /** The effect of one operation, or None when it is not enabled. */
  function Apply(s: seq<Entry>, op: QueueOp): Option<seq<Entry>> {
    match op
    case Insert(e) => Some(InsertSorted(s, e))
    case Remove(k) => if k < |s| then Some(Without(s, k)) else None
    case Dispatch(at) => if s != [] && s[0].timestamp <= at then Some(s[1..]) else None
  }

  function Replay(log: seq<QueueOp>): Option<seq<Entry>> {
    if log == [] then Some([])
    else
      match Replay(log[..|log| - 1])
      case None => None
      case Some(s) => Apply(s, log[|log| - 1])
  }

  lemma ReplayAppend(log: seq<QueueOp>, op: QueueOp)
    requires Replay(log).Some?
    ensures Replay(log + [op]) == Apply(Replay(log).value, op)
  {
    assert (log + [op])[..|log|] == log;
  }

  /** Every reachable queue is sorted. */
  lemma {:induction false} ReplaySorted(log: seq<QueueOp>)
    requires Replay(log).Some?
    ensures Sorted(Replay(log).value)
  {
    if log != [] {
      ReplaySorted(log[..|log| - 1]);
      var s := Replay(log[..|log| - 1]).value;
      match log[|log| - 1]
      case Insert(e) => InsertKeepsSorted(s, e);
      case Remove(_) =>
      case Dispatch(_) =>
    }
  }

  lemma InsertKeepsSorted(s: seq<Entry>, e: Entry)
    requires Sorted(s)
    ensures Sorted(InsertSorted(s, e))
  {
    var k := InsertPos(s, e.timestamp);
    forall i | k <= i < |s| ensures e.timestamp <= s[i].timestamp {
      assert s[k].timestamp <= s[i].timestamp;
    }
  }

  // ---------------------------------------------------------------- ties

  /** The events waiting for exactly time t, in queue order. */
  function WaitingFor(s: seq<Entry>, t: nat): seq<nat> {
    if s == [] then []
    else (if s[0].timestamp == t then [s[0].id] else []) + WaitingFor(s[1..], t)
  }

  /** Ties in insertion order: for each timestamp separately the queue is first-in first-out,
      whatever else is queued. */
  lemma {:induction false} TiesAreFifo(s: seq<Entry>, e: Entry, t: nat)
    requires Sorted(s)
    ensures WaitingFor(InsertSorted(s, e), t)
            == WaitingFor(s, t) + (if e.timestamp == t then [e.id] else [])
  {
    InsertSortedCons(s, e);
    if s == [] || e.timestamp < s[0].timestamp {
      WaitingForCons(e, s, t);
      if e.timestamp == t {
        NothingWaits(s, t);
      }
    } else {
      TiesAreFifo(s[1..], e, t);
      WaitingForCons(s[0], InsertSorted(s[1..], e), t);
    }
  }

  /** Insertion read recursively. */
  lemma InsertSortedCons(s: seq<Entry>, e: Entry)
    ensures InsertSorted(s, e) == if s == [] || e.timestamp < s[0].timestamp then [e] + s
                                  else [s[0]] + InsertSorted(s[1..], e)
  {
    if s == [] || e.timestamp < s[0].timestamp {
    } else {
      var k := InsertPos(s[1..], e.timestamp);
      assert s[..1 + k] == [s[0]] + s[1..][..k];
      assert s[1 + k..] == s[1..][k..];
    }
  }

  lemma WaitingForCons(e: Entry, s: seq<Entry>, t: nat)
    ensures WaitingFor([e] + s, t) == (if e.timestamp == t then [e.id] else []) + WaitingFor(s, t)
  {
    assert ([e] + s)[1..] == s;
  }

  lemma {:induction false} NothingWaits(s: seq<Entry>, t: nat)
    requires forall i :: 0 <= i < |s| ==> t < s[i].timestamp
    ensures WaitingFor(s, t) == []
  {
    if s != [] {
      NothingWaits(s[1..], t);
    }
  }

  // ---------------------------------------------------------------- dispatch

  /** The events dispatched by a log, oldest first. */
  function Dispatched(log: seq<QueueOp>): seq<Entry>
    requires Replay(log).Some?
  {
    if log == [] then []
    else
      var before := log[..|log| - 1];
      match log[|log| - 1]
      case Dispatch(_) => Dispatched(before) + [Replay(before).value[0]]
      case _ => Dispatched(before)
  }

  /** An operation that is not a dispatch dispatches nothing. */
  lemma DispatchedAppend(log: seq<QueueOp>, op: QueueOp)
    requires Replay(log + [op]).Some?
    ensures Replay(log).Some?
    ensures Dispatched(log + [op])
            == if op.Dispatch? then Dispatched(log) + [Replay(log).value[0]] else Dispatched(log)
  {
    assert (log + [op])[..|log|] == log;
  }

  function Ids(s: seq<Entry>): seq<nat> {
    if s == [] then [] else Ids(s[..|s| - 1]) + [s[|s| - 1].id]
  }

  function Removed(log: seq<QueueOp>): seq<Entry>
    requires Replay(log).Some?
  {
    if log == [] then []
    else
      var before := log[..|log| - 1];
      match log[|log| - 1]
      case Remove(k) => Removed(before) + [Replay(before).value[k]]
      case _ => Removed(before)
  }

  function Inserted(log: seq<QueueOp>): seq<Entry> {
    if log == [] then []
    else
      var before := log[..|log| - 1];
      match log[|log| - 1]
      case Insert(e) => Inserted(before) + [e]
      case _ => Inserted(before)
  }

  /** No event is lost, duplicated or made up: whatever was inserted is still queued, was removed,
      or was dispatched, once each. */
  lemma {:induction false} Conservation(log: seq<QueueOp>)
    requires Replay(log).Some?
    ensures multiset(Inserted(log))
            == multiset(Replay(log).value) + multiset(Removed(log)) + multiset(Dispatched(log))
  {
    if log != [] {
      var before := log[..|log| - 1];
      Conservation(before);
      var s := Replay(before).value;
      match log[|log| - 1]
      case Insert(e) => InsertedMultiset(s, e);
      case Remove(k) => WithoutMultiset(s, k);
      case Dispatch(_) => WithoutMultiset(s, 0);
    }
  }

  lemma InsertedMultiset(s: seq<Entry>, e: Entry)
    ensures multiset(InsertSorted(s, e)) == multiset(s) + multiset{e}
  {
    var k := InsertPos(s, e.timestamp);
    assert s == s[..k] + s[k..];
  }

  lemma WithoutMultiset(s: seq<Entry>, k: nat)
    requires k < |s|
    ensures multiset(s) == multiset(Without(s, k)) + multiset{s[k]}
    ensures k == 0 ==> Without(s, k) == s[1..]
  {
    assert s == s[..k] + [s[k]] + s[k + 1..];
  }

  /** Over whole histories: if no event for time t was ever removed, those dispatched so far followed
      by those still queued are the ones inserted, in the order of their insertion. */
  lemma {:induction false} FifoAlways(log: seq<QueueOp>, t: nat)
    requires Replay(log).Some? && WaitingFor(Removed(log), t) == []
    ensures WaitingFor(Dispatched(log), t) + WaitingFor(Replay(log).value, t) == WaitingFor(Inserted(log), t)
  {
    if log != [] {
      hide Apply, WaitingFor, Sorted;
      var before, op := log[..|log| - 1], log[|log| - 1];
      var s := Replay(before).value;
      if op.Remove? {
        RemoveEnabled(s, op);
        WaitingForAppend(Removed(before), s[op.index], t);
      }
      FifoAlways(before, t);
      ReplaySorted(before);
      FifoStep(s, op, t, Dispatched(before), Inserted(before));
    }
  }

  lemma RemoveEnabled(s: seq<Entry>, op: QueueOp)
    requires op.Remove? && Apply(s, op).Some?
    ensures op.index < |s|
  {
  }

  /** One operation, given what was dispatched and inserted before it. */
  lemma FifoStep(s: seq<Entry>, op: QueueOp, t: nat, dispatched: seq<Entry>, inserted: seq<Entry>)
    requires Sorted(s) && Apply(s, op).Some? && (op.Remove? ==> s[op.index].timestamp != t)
    requires WaitingFor(dispatched, t) + WaitingFor(s, t) == WaitingFor(inserted, t)
    ensures WaitingFor(if op.Dispatch? then dispatched + [s[0]] else dispatched, t) + WaitingFor(Apply(s, op).value, t)
            == WaitingFor(if op.Insert? then inserted + [op.entry] else inserted, t)
  {
    hide InsertSorted, Without, WaitingFor, Sorted;
    match op
    case Insert(e) =>
      TiesAreFifo(s, e, t);
      WaitingForAppend(inserted, e, t);
    case Remove(k) => WaitingForWithout(s, k, t);
    case Dispatch(_) =>
      WaitingForAppend(dispatched, s[0], t);
      WaitingForCons(s[0], s[1..], t);
      assert s == [s[0]] + s[1..];
  }

  lemma {:induction false} WaitingForAppend(s: seq<Entry>, e: Entry, t: nat)
    ensures WaitingFor(s + [e], t) == WaitingFor(s, t) + if e.timestamp == t then [e.id] else []
  {
    if s != [] {
      assert (s + [e])[1..] == s[1..] + [e];
      WaitingForAppend(s[1..], e, t);
    }
  }

  lemma {:induction false} WaitingForWithout(s: seq<Entry>, k: nat, t: nat)
    requires k < |s| && s[k].timestamp != t
    ensures WaitingFor(Without(s, k), t) == WaitingFor(s, t)
  {
    if k > 0 {
      WaitingForWithout(s[1..], k - 1, t);
      assert Without(s, k) == [s[0]] + Without(s[1..], k - 1);
      WaitingForCons(s[0], Without(s[1..], k - 1), t);
    } else {
      assert Without(s, 0) == s[1..];
    }
  }

  /** Every dispatched event is due, is earliest among all queued, and among the equally early
      ones is the one queued first. */
  lemma DispatchIsDueAndFirst(log: seq<QueueOp>, at: nat)
    requires Replay(log + [Dispatch(at)]).Some?
    ensures Replay(log).Some? && Replay(log).value != []
    ensures var s := Replay(log).value;
            && Dispatched(log + [Dispatch(at)]) == Dispatched(log) + [s[0]]
            && s[0].timestamp <= at
            && (forall i :: 0 <= i < |s| ==> s[0].timestamp <= s[i].timestamp)
            && WaitingFor(s, s[0].timestamp)[..1] == [s[0].id]
  {
    assert (log + [Dispatch(at)])[..|log|] == log;
    ReplaySorted(log);
  }

  /** The timestamp of the last event dispatched, zero before the first. */
  function LastTime(log: seq<QueueOp>): nat
    requires Replay(log).Some?
  {
    var d := Dispatched(log);
    if d == [] then 0 else d[|d| - 1].timestamp
  }

  /** Nobody queues an event behind the last one dispatched. */
  ghost predicate NeverBackwards(log: seq<QueueOp>)
    requires Replay(log).Some?
  {
    log == [] ||
    (&& NeverBackwards(log[..|log| - 1])
     && (log[|log| - 1].Insert? ==> LastTime(log[..|log| - 1]) <= log[|log| - 1].entry.timestamp))
  }

  ghost predicate AllFrom(s: seq<Entry>, t: nat) {
    forall i :: 0 <= i < |s| ==> t <= s[i].timestamp
  }

  /** Then events are dispatched in the order of their timestamps. */
  lemma {:induction false} DispatchInOrder(log: seq<QueueOp>)
    requires Replay(log).Some? && NeverBackwards(log)
    ensures Sorted(Dispatched(log)) && AllFrom(Replay(log).value, LastTime(log))
  {
    if log != [] {
      hide Apply, AllFrom, Sorted;
      var before, op := log[..|log| - 1], log[|log| - 1];
      DispatchInOrder(before);
      ReplaySorted(before);
      StepFrom(Replay(before).value, op, LastTime(before));
      if op.Dispatch? {
        DispatchFrom(Replay(before).value, op, LastTime(before));
        AppendKeepsSorted(Dispatched(before), Replay(before).value[0]);
      }
    } else {
      assert AllFrom([], 0);
      assert Sorted([]);
    }
  }

  lemma StepFrom(s: seq<Entry>, op: QueueOp, t: nat)
    requires AllFrom(s, t) && Apply(s, op).Some? && (op.Insert? ==> t <= op.entry.timestamp)
    ensures AllFrom(Apply(s, op).value, t)
  {
  }

  lemma DispatchFrom(s: seq<Entry>, op: QueueOp, t: nat)
    requires Sorted(s) && AllFrom(s, t) && op.Dispatch? && Apply(s, op).Some?
    ensures s != [] && t <= s[0].timestamp && AllFrom(Apply(s, op).value, s[0].timestamp)
  {
  }

  lemma AppendKeepsSorted(d: seq<Entry>, e: Entry)
    requires Sorted(d) && (d != [] ==> d[|d| - 1].timestamp <= e.timestamp)
    ensures Sorted(d + [e])
  {
    assert d != [] ==> forall i :: 0 <= i < |d| ==> d[i].timestamp <= d[|d| - 1].timestamp;
  }
}
