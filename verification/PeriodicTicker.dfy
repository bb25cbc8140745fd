/** Periodic callbacks of mbed-os/drivers/Ticker.cpp, as a machine over values: any number of
    Tickers sharing one event queue, attached, re-attached and detached at any moment, from
    callbacks too. Drivers.dfy has the class. */
module PeriodicTicker {
  import opened Arithmetic
  import opened EventQueue

  /** One attachment: the first deadline, the period, and the timestamps its handler ran with. */
  datatype Attachment = Attachment(first: nat, delay: nat, runs: seq<nat>)

  datatype State = State(queue: seq<Entry>, tickers: map<nat, Attachment>, present: nat)

  /** Dispatch: one turn of the interrupt handler's loop, that is TimerEvent::irq and
      Ticker::handler up to the callback; what the callback does to Tickers follows as steps. */
  datatype Step = Advance(us: nat) | Attach(id: nat, delay: nat) | Detach(id: nat) | Dispatch

  function IndexOf(s: seq<Entry>, id: nat): (k: nat)
    ensures k <= |s|
    ensures forall i :: 0 <= i < k ==> s[i].id != id
    ensures k < |s| ==> s[k].id == id
  {
    if s == [] || s[0].id == id then 0 else 1 + IndexOf(s[1..], id)
  }

  function Unlink(s: seq<Entry>, id: nat): seq<Entry> {
    var k := IndexOf(s, id);
    if k < |s| then Without(s, k) else s
  }

  ghost predicate Enabled(s: State, step: Step) {
    match step
    case Advance(_) => true
    case Attach(_, _) => true
    case Detach(_) => true
    case Dispatch => s.queue != [] && s.queue[0].timestamp <= s.present && s.queue[0].id in s.tickers
  }

  ghost function Next(s: State, step: Step): State
    requires Enabled(s, step)
  {
    match step
    case Advance(us) => s.(present := s.present + us)
    case Attach(id, delay) =>
      var first := delay + s.present;
      s.(queue := InsertSorted(Unlink(s.queue, id), Entry(first, id)),
         tickers := s.tickers[id := Attachment(first, delay, [])])
    case Detach(id) => s.(queue := Unlink(s.queue, id), tickers := s.tickers - {id})
    case Dispatch =>
      var e := s.queue[0];
      var t := s.tickers[e.id];
      s.(queue := InsertSorted(s.queue[1..], Entry(e.timestamp + t.delay, e.id)),
         tickers := s.tickers[e.id := t.(runs := t.runs + [e.timestamp])])
  }

  ghost predicate Distinct(s: seq<Entry>) {
    forall i, j :: 0 <= i < j < |s| ==> s[i].id != s[j].id
  }

  /** The deadline the next run of an attachment is queued for. */
  function Due(a: Attachment): nat {
    a.first + |a.runs| * a.delay
  }

  /** The k-th run carried the timestamp first + k * delay, however late it came. */
  ghost predicate OnSchedule(a: Attachment, present: nat) {
    && (forall k :: 0 <= k < |a.runs| ==> a.runs[k] == a.first + k * a.delay)
    && (a.runs != [] ==> a.runs[|a.runs| - 1] <= present)
  }

  /** The queue holds every attached Ticker exactly once, at its next deadline, and nothing else. */
  ghost predicate Inv(s: State) {
    && Sorted(s.queue) && Distinct(s.queue)
    && (forall e :: e in s.queue <==> e.id in s.tickers && e.timestamp == Due(s.tickers[e.id]))
    && (forall id :: id in s.tickers ==> OnSchedule(s.tickers[id], s.present))
  }

  lemma InsertMembers(s: seq<Entry>, e: Entry)
    requires Sorted(s) && Distinct(s) && forall x :: x in s ==> x.id != e.id
    ensures var r := InsertSorted(s, e);
            Sorted(r) && Distinct(r) && forall x :: x in r <==> x in s || x == e
  {
    hide InsertPos, InsertAt, Sorted, Distinct;
    InsertKeepsSorted(s, e);
    InsertAtDistinct(s, InsertPos(s, e.timestamp), e);
    InsertAtMembers(s, InsertPos(s, e.timestamp), e);
  }

  lemma InsertAtMembers(s: seq<Entry>, k: nat, e: Entry)
    requires k <= |s|
    ensures forall x :: x in InsertAt(s, k, e) <==> x in s || x == e
  {
    assert s == s[..k] + s[k..];
  }

  lemma InsertAtDistinct(s: seq<Entry>, k: nat, e: Entry)
    requires k <= |s| && Distinct(s) && forall x :: x in s ==> x.id != e.id
    ensures Distinct(InsertAt(s, k, e))
  {
    hide InsertAt;
  }

  lemma UnlinkMembers(s: seq<Entry>, id: nat)
    requires Sorted(s) && Distinct(s)
    ensures var r := Unlink(s, id);
            Sorted(r) && Distinct(r) && forall x :: x in r <==> x in s && x.id != id
  {
    var k := IndexOf(s, id);
    if k < |s| {
      assert s == s[..k] + [s[k]] + s[k + 1..];
    }
  }

  lemma TailMembers(s: seq<Entry>)
    requires Sorted(s) && Distinct(s) && s != []
    ensures Sorted(s[1..]) && Distinct(s[1..])
    ensures forall x :: x in s[1..] <==> x in s && x.id != s[0].id
  {
    assert s == [s[0]] + s[1..];
  }

  lemma RunOnTime(a: Attachment, present: nat)
    requires OnSchedule(a, present) && Due(a) <= present
    ensures var a' := a.(runs := a.runs + [Due(a)]);
            OnSchedule(a', present) && Due(a') == Due(a) + a.delay
  {
  }

  lemma InvStep(s: State, step: Step)
    requires Inv(s) && Enabled(s, step)
    ensures Inv(Next(s, step))
  {
    hide InsertSorted, Unlink, Sorted, Distinct, OnSchedule, Due;
    match step
    case Advance(us) => LaterIsFine(s, us);
    case Attach(id, delay) =>
      UnlinkMembers(s.queue, id);
      InsertMembers(Unlink(s.queue, id), Entry(delay + s.present, id));
      FreshAttachment(delay + s.present, delay, s.present);
    case Detach(id) => UnlinkMembers(s.queue, id);
    case Dispatch =>
      var e := s.queue[0];
      assert e in s.queue;
      TailMembers(s.queue);
      RunOnTime(s.tickers[e.id], s.present);
      InsertMembers(s.queue[1..], Entry(e.timestamp + s.tickers[e.id].delay, e.id));
  }

  lemma LaterIsFine(s: State, us: nat)
    requires Inv(s)
    ensures Inv(s.(present := s.present + us))
  {
  }

  lemma FreshAttachment(first: nat, delay: nat, present: nat)
    ensures OnSchedule(Attachment(first, delay, []), present) && Due(Attachment(first, delay, [])) == first
  {
  }

  ghost predicate Run(states: seq<State>, steps: seq<Step>) {
    && |states| == |steps| + 1
    && states[0] == State([], map[], states[0].present)
    && (forall i :: 0 <= i < |steps| ==> Enabled(states[i], steps[i]) && states[i + 1] == Next(states[i], steps[i]))
  }

  /** In every run each attached Ticker is queued exactly once, at first + n * delay after n runs,
      and its k-th run carried first + k * delay: lateness never accumulates. A due head can always
      be dispatched. */
  lemma {:induction false} NoDrift(states: seq<State>, steps: seq<Step>, k: nat)
    requires Run(states, steps) && k < |states|
    ensures Inv(states[k])
    ensures states[k].queue != [] && states[k].queue[0].timestamp <= states[k].present
            ==> Enabled(states[k], Step.Dispatch)
  {
    if k > 0 {
      NoDrift(states, steps, k - 1);
      InvStep(states[k - 1], steps[k - 1]);
    }
    var q := states[k].queue;
    assert q != [] ==> q[0] in q;
  }

  /** When the interrupt handler's loop ends, every attached Ticker has run exactly once for each
      deadline first + k * delay up to the present. */
  lemma CaughtUp(s: State, id: nat)
    requires Inv(s) && (s.queue != [] ==> s.present < s.queue[0].timestamp)
    requires id in s.tickers && s.tickers[id].delay > 0
    ensures var a := s.tickers[id];
            |a.runs| == if s.present < a.first then 0 else (s.present - a.first) / a.delay + 1
  {
    hide Sorted, Distinct, OnSchedule, Due;
    NotYetDue(s, id);
    CountRuns(s.tickers[id], s.present);
  }

  lemma NotYetDue(s: State, id: nat)
    requires Inv(s) && (s.queue != [] ==> s.present < s.queue[0].timestamp)
    requires id in s.tickers
    ensures s.present < Due(s.tickers[id])
  {
    hide Distinct, OnSchedule, Due;
    var e := Entry(Due(s.tickers[id]), id);
    assert e in s.queue;
    var i :| 0 <= i < |s.queue| && s.queue[i] == e;
    assert i == 0 || s.queue[0].timestamp <= s.queue[i].timestamp;
  }

  lemma CountRuns(a: Attachment, present: nat)
    requires OnSchedule(a, present) && present < Due(a) && a.delay > 0
    ensures |a.runs| == if present < a.first then 0 else (present - a.first) / a.delay + 1
  {
    var n := |a.runs|;
    if n > 0 {
      assert a.runs[n - 1] == a.first + (n - 1) * a.delay <= present;
      assert (n - 1) * a.delay >= 0;
      CountPeriods(present - a.first, a.delay, n);
    }
  }

  lemma CountPeriods(x: nat, delay: nat, n: nat)
    requires delay > 0 && n > 0 && (n - 1) * delay <= x < n * delay
    ensures x / delay + 1 == n
  {
    assert n * delay == (n - 1) * delay + delay;
    DivUnique(x, delay, n - 1, x - (n - 1) * delay);
  }

  // ---------------------------------------------------------------- the driver's operations

  /** The queue operations that Ticker::detach, attach_us and handler perform are the steps of this
      machine: they are given here by what the class in Drivers.dfy appends to the queue's log. */
  lemma DetachRefines(log: seq<QueueOp>, s: State, id: nat, k: nat)
    requires Inv(s) && Replay(log) == Some(s.queue) && k < |s.queue| && s.queue[k].id == id
    ensures Replay(log + [Remove(k)]) == Some(Next(s, Step.Detach(id)).queue)
  {
    ReplayAppend(log, Remove(k));
  }

  lemma AttachRefines(log: seq<QueueOp>, s: State, id: nat, k: nat, delay: nat)
    requires Inv(s) && Replay(log) == Some(s.queue)
    requires id in s.tickers ==> k < |s.queue| && s.queue[k].id == id
    ensures var log' := if id in s.tickers then log + [Remove(k)] else log;
            Replay(log' + [Insert(Entry(delay + s.present, id))]) == Some(Next(s, Step.Attach(id, delay)).queue)
  {
    hide InsertSorted;
    if id in s.tickers {
      DetachRefines(log, s, id, k);
      ReplayAppend(log + [Remove(k)], Insert(Entry(delay + s.present, id)));
    } else {
      assert forall i :: 0 <= i < |s.queue| ==> s.queue[i] in s.queue && s.queue[i].id != id;
      ReplayAppend(log, Insert(Entry(delay + s.present, id)));
    }
  }

  lemma HandlerRefines(log: seq<QueueOp>, s: State)
    requires Inv(s) && Replay(log) == Some(s.queue) && Enabled(s, Step.Dispatch)
    ensures var e := s.queue[0];
            Replay(log + [QueueOp.Dispatch(s.present)] + [Insert(Entry(e.timestamp + s.tickers[e.id].delay, e.id))])
            == Some(Next(s, Step.Dispatch).queue)
  {
    hide InsertSorted;
    var e := s.queue[0];
    ReplayAppend(log, QueueOp.Dispatch(s.present));
    ReplayAppend(log + [QueueOp.Dispatch(s.present)], Insert(Entry(e.timestamp + s.tickers[e.id].delay, e.id)));
  }
}
