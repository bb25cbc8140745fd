/** The ticker of mbed-os/hal/mbed_ticker_api.c: the event queue it relinks in place, the clock it
    advances in place, and the compare interrupt it arms. */
module TickerQueue {
  import opened Arithmetic
  import opened TickerClock
  import opened EventQueue

  /** ticker_event_t: a node the caller owns and the queue links. */
  class Event {
    var timestamp: nat
    var id: nat
    var next: Event?

    constructor ()
      ensures next == null
    {
      timestamp, id, next := 0, 0, null;
    }
  }

  /** The counter behind ticker_interface_t. `now` counts ticks without ever wrapping; only its
      residue can be read. Time passes inside every access, by any amount that leaves the machine
      within its `horizon`. */
  class Hardware {
    const bits: nat
    const horizon: nat
    /** What get_info reports. */
    const infoFrequency: nat
    const infoBits: nat
    var now: nat
    var compare: nat
    /** The next tick at which the counter will equal the compare register. */
    ghost var alarm: nat
    /** fire_interrupt was called and the interrupt has not been cleared. */
    var pending: bool

    constructor (bits: nat, horizon: nat, infoFrequency: nat, infoBits: nat)
      ensures this.bits == bits && this.horizon == horizon && now <= horizon
      ensures this.infoFrequency == infoFrequency && this.infoBits == infoBits
    {
      this.bits, this.horizon, this.infoFrequency, this.infoBits := bits, horizon, infoFrequency, infoBits;
      now, compare, alarm, pending := 0, 0, 0, false;
    }

    ghost function Modulus(): (m: nat)
      ensures m > 0
    {
      Pow2(bits)
    }

    /** The report of the width is right, or impossible and the width is 32. */
    ghost predicate Usable()
      reads this`now
    {
      && infoFrequency < U32 && now <= horizon
      && bits == (if 4 <= infoBits <= 32 then infoBits else 32)
      && Micros(horizon, Frequency()) + U32 < U64
    }

    /** The frequency after the fallback of initialize. */
    function Frequency(): (f: nat)
      ensures f > 0
    {
      if infoFrequency == 0 then 1_000_000 else infoFrequency
    }

    method Read() returns (t: nat)
      requires now <= horizon
      modifies this`now
      ensures old(now) <= now <= horizon && t == Wrap(now, Modulus())
    {
      var d: nat :| now + d <= horizon;
      now := now + d;
      t := Wrap(now, Pow2(bits));
    }

    method SetInterrupt(tick: nat) returns (ghost armedAt: nat)
      requires now <= horizon && tick < Modulus()
      modifies this`now, this`compare, this`alarm
      ensures old(now) <= armedAt <= now <= horizon && compare == tick
      ensures Wrap(alarm, Modulus()) == tick && armedAt < alarm <= armedAt + Modulus()
    {
      var d: nat :| now + d <= horizon;
      now := now + d;
      armedAt := now;
      compare := tick;
      NextMatchIs(now, tick, Modulus());
      alarm := NextMatch(now, tick, Modulus());
      d :| now + d <= horizon;
      now := now + d;
    }

    method FireInterrupt()
      modifies this`pending
      ensures pending
    {
      pending := true;
    }

    method ClearInterrupt()
      modifies this`pending
      ensures !pending
    {
      pending := false;
    }
  }

  /** The entries of a list of nodes. */
  ghost function View(ns: seq<Event>): (s: seq<Entry>)
    reads ns`timestamp, ns`id
    ensures |s| == |ns|
    ensures forall i :: 0 <= i < |ns| ==> s[i] == Entry(ns[i].timestamp, ns[i].id)
  {
    if ns == [] then []
    else View(ns[..|ns| - 1]) + [Entry(ns[|ns| - 1].timestamp, ns[|ns| - 1].id)]
  }

  /** Starting at `head`, the next pointers run through exactly these nodes, each once. */
  ghost predicate Chain(head: Event?, ns: seq<Event>)
    reads ns`next
  {
    && head == (if ns == [] then null else ns[0])
    && (forall i :: 0 <= i < |ns| - 1 ==> ns[i].next == ns[i + 1])
    && (ns != [] ==> ns[|ns| - 1].next == null)
    && (forall i, j :: 0 <= i < j < |ns| ==> ns[i] != ns[j])
  }

  // ---------------------------------------------------------------- the list and its entries

  lemma WithoutFirst<T>(s: seq<T>)
    requires s != []
    ensures Without(s, 0) == s[1..]
  {
  }

  lemma WithoutIt(ns: seq<Event>, k: nat)
    requires k < |ns| && forall i, j :: 0 <= i < j < |ns| ==> ns[i] != ns[j]
    ensures ns[k] !in Without(ns, k)
  {
    hide Without;
    var r := Without(ns, k);
    forall j | 0 <= j < |r| ensures r[j] != ns[k] {
    }
  }

  lemma UnlinkFirst(ns: seq<Event>)
    requires ns != [] && Chain(ns[0], ns)
    ensures Chain(ns[0].next, Without(ns, 0))
  {
    hide Without;
    var r := Without(ns, 0);
    forall i | 0 <= i < |r| - 1 ensures r[i].next == r[i + 1] {
      assert ns[i + 1].next == ns[i + 2];
    }
  }

  /** The chain after the predecessor of node k was made to skip it. */
  lemma UnlinkMiddle(ns: seq<Event>, k: nat)
    requires 0 < k < |ns|
    requires forall i, j :: 0 <= i < j < |ns| ==> ns[i] != ns[j]
    requires forall i :: 0 <= i < |ns| - 1 && i != k - 1 ==> ns[i].next == ns[i + 1]
    requires k < |ns| - 1 ==> ns[|ns| - 1].next == null
    requires ns[k - 1].next == if k + 1 < |ns| then ns[k + 1] else null
    ensures Chain(ns[0], Without(ns, k))
  {
    hide Without;
    var r := Without(ns, k);
    forall i | 0 <= i < |r| - 1 ensures r[i].next == r[i + 1] {
      if i >= k {
        assert ns[i + 1].next == ns[i + 2];
      }
    }
  }

  lemma ViewWithout(ns: seq<Event>, k: nat)
    requires k < |ns|
    ensures View(Without(ns, k)) == Without(View(ns), k)
  {
    hide Without, View;
    var x, y := View(Without(ns, k)), Without(View(ns), k);
    forall j | 0 <= j < |x| ensures x[j] == y[j] {
    }
  }

  lemma ViewInsert(ns: seq<Event>, k: nat, obj: Event)
    requires k <= |ns|
    ensures View(InsertAt(ns, k, obj)) == InsertAt(View(ns), k, Entry(obj.timestamp, obj.id))
  {
    hide InsertAt, View;
    var x, y := View(InsertAt(ns, k, obj)), InsertAt(View(ns), k, Entry(obj.timestamp, obj.id));
    forall j | 0 <= j < |x| ensures x[j] == y[j] {
    }
  }

  lemma EmptyReplay()
    ensures Replay([]) == Some([])
  {
  }

  lemma ReplayInsert(log: seq<QueueOp>, e: Entry)
    requires Replay(log).Some?
    ensures var s := Replay(log).value;
            Replay(log + [Insert(e)]) == Some(InsertAt(s, InsertPos(s, e.timestamp), e))
  {
    ReplayAppend(log, Insert(e));
  }

  lemma ReplayRemove(log: seq<QueueOp>, k: nat)
    requires Replay(log).Some? && k < |Replay(log).value|
    ensures Replay(log + [Remove(k)]) == Some(Without(Replay(log).value, k))
  {
    ReplayAppend(log, Remove(k));
  }

  lemma ReplayDispatch(log: seq<QueueOp>, at: nat)
    requires Replay(log).Some? && Replay(log).value != [] && Replay(log).value[0].timestamp <= at
    ensures Replay(log + [Dispatch(at)]) == Some(Without(Replay(log).value, 0))
  {
    ReplayAppend(log, Dispatch(at));
    WithoutFirst(Replay(log).value);
  }

  lemma DispatchedSame(log: seq<QueueOp>, e: Entry)
    requires Replay(log).Some?
    ensures Replay(log + [Insert(e)]).Some? && Dispatched(log + [Insert(e)]) == Dispatched(log)
  {
    ReplayAppend(log, Insert(e));
    DispatchedAppend(log, Insert(e));
  }

  lemma InsertPosUnique(s: seq<Entry>, timestamp: nat, k: nat)
    requires k <= |s| && forall i :: 0 <= i < k ==> s[i].timestamp <= timestamp
    requires k < |s| ==> timestamp < s[k].timestamp
    ensures InsertPos(s, timestamp) == k
  {
  }

  // ---------------------------------------------------------------- the ticker

  class TickerQueue {
    const hw: Hardware
    var head: Event?
    var frequency: nat
    var bitmask: nat
    var maxDelta: nat
    var maxDeltaUs: nat
    var tickLastRead: nat
    var tickRemainder: nat
    var presentTime: nat
    var initialized: bool
    /** event_handler is not NULL. */
    var handlerSet: bool

    /** The true tick at which the clock read zero, and the true tick counted so far. */
    ghost var origin: nat
    ghost var last: nat
    /** The linked nodes in order, and every operation that led to them. */
    ghost var nodes: seq<Event>
    ghost var log: seq<QueueOp>
    /** The identifiers with which the handler was called. */
    ghost var called: seq<nat>

    ghost predicate ValidClock()
      reads this`frequency, this`bitmask, this`maxDelta, this`maxDeltaUs, this`tickLastRead,
            this`tickRemainder, this`presentTime, this`origin, this`last, hw`now
    {
      && ValidInfo(frequency, hw.bits)
      && bitmask + 1 == hw.Modulus()
      && maxDelta == MaxDelta(hw.bits) && maxDeltaUs == MaxDeltaUs(maxDelta, frequency)
      && origin <= last <= hw.now <= hw.horizon
      && Micros(hw.horizon, frequency) + U32 < U64
      && tickLastRead == Wrap(last, hw.Modulus())
      && Exact(frequency, presentTime, tickRemainder, last - origin)
    }

    ghost predicate ValidList()
      reads this`head, this`nodes, nodes`next
    {
      Chain(head, nodes)
    }

    ghost function Contents(): seq<Entry>
      reads this`nodes, nodes`timestamp, nodes`id
    {
      View(nodes)
    }

    ghost predicate Valid()
      reads this, hw, nodes
    {
      initialized && ValidClock() && ValidList() && Replay(log) == Some(Contents())
    }

    /** The time by the true tick count. */
    ghost function TrueTime(): nat
      requires ValidClock()
      reads this`frequency, this`bitmask, this`maxDelta, this`maxDeltaUs, this`tickLastRead,
            this`tickRemainder, this`presentTime, this`origin, this`last, hw`now
    {
      Micros(hw.now - origin, frequency)
    }

    /** An interrupt is forced, or the compare register will match at a tick that is still ahead,
        at most 7/16 of a wrap after the last tick counted, and at which the earliest deadline has
        not passed; one tick later it has, unless the alarm is as far ahead as it may be. */
    ghost predicate Scheduled()
      reads this, hw, nodes
    {
      && Armed(hw.pending, hw.now, hw.alarm, last, maxDelta)
      && (!hw.pending && frequency > 0 && origin <= hw.alarm ==>
            && (nodes != [] ==> Micros(hw.alarm - origin, frequency) <= nodes[0].timestamp)
            && (|| hw.alarm == last + maxDelta
                || (nodes != [] && nodes[0].timestamp <= Micros(hw.alarm + 1 - origin, frequency))))
    }

    constructor (hw: Hardware)
      ensures this.hw == hw && !initialized
    {
      this.hw := hw;
      initialized, handlerSet, head, nodes, log, called := false, false, null, [], [], [];
    }

    lemma PresentIs()
      requires ValidClock()
      ensures 0 < frequency && origin <= last <= hw.now && presentTime == Micros(last - origin, frequency)
    {
      ExactIsFloor(frequency, presentTime, tickRemainder, last - origin);
    }

    /** The true time does not go back. */
    lemma TimeBetween(earlier: nat)
      requires ValidClock() && origin <= earlier <= hw.now
      ensures Micros(earlier - origin, frequency) <= TrueTime()
    {
      MicrosMono(earlier - origin, hw.now - origin, frequency);
    }

    lemma PresentFits()
      requires ValidClock()
      ensures presentTime + U32 < U64
    {
      hide Wrap, Exact, Micros;
      MicrosMono(last - origin, hw.horizon, frequency);
      ExactIsFloor(frequency, presentTime, tickRemainder, last - origin);
    }

    /** update_present_time. */
    method UpdatePresentTime()
      requires ValidClock()
      modifies this`last, this`tickLastRead, this`tickRemainder, this`presentTime, hw`now
      ensures ValidClock() && old(hw.now) <= hw.now
      // whole wraps since the last reading go uncounted, and nothing else does
      ensures last == old(last) + Wrap(hw.now - old(last), hw.Modulus())
      ensures old(presentTime) <= presentTime == Micros(last - origin, frequency)
      // so within a wrap of the last reading the time is the true one
      ensures hw.now < old(last) + hw.Modulus() ==> last == hw.now && presentTime == TrueTime()
    {
      hide Wrap, Low32, Low64, Exact, ElapsedUs, Micros, MaxDelta, MaxDeltaUs, Pow2;
      var n := bitmask + 1;
      var tickerTime := hw.Read();
      ghost var e := Wrap(hw.now - last, n);
      ElapsedTicks(last, hw.now, hw.bits);
      SmallWrap(hw.now - last, n);
      if tickerTime == tickLastRead {
        ExactIsFloor(frequency, presentTime, tickRemainder, last - origin);
        return;
      }
      var elapsedTicks := Wrap(Low32(tickerTime - tickLastRead), n);
      tickLastRead := tickerTime;
      ArmsKeepExact(frequency, presentTime, tickRemainder, last - origin, e);
      StaysBelowU64(last - origin + e, hw.horizon, frequency);
      last := last + e;
      var (elapsedUs, remainder) := ElapsedUs(frequency, tickRemainder, elapsedTicks);
      tickRemainder := remainder;
      presentTime := Low64(presentTime + elapsedUs);
      assert presentTime == old(presentTime) + elapsedUs;
      ExactIsFloor(frequency, presentTime, tickRemainder, last - origin);
    }

    /** compute_tick. */
    function ComputeTick(timestamp: nat): (tick: nat)
      requires ValidClock() && presentTime <= timestamp
      reads this, hw
      ensures tick == Wrap(last + Min(Ticks(timestamp - presentTime, frequency), maxDelta), hw.Modulus())
    {
      ComputeDeltaExact(frequency, hw.bits, timestamp - presentTime);
      TickSum(last, Min(Ticks(timestamp - presentTime, frequency), maxDelta), hw.bits);
      MatchTick(frequency, maxDelta, maxDeltaUs, tickLastRead, timestamp - presentTime, bitmask + 1)
    }

    /** The tick that compute_tick stands for, and how it relates to the deadline. */
    lemma Target(timestamp: nat) returns (target: nat)
      requires ValidClock() && presentTime <= timestamp
      ensures last <= target <= last + maxDelta && 0 < maxDelta < hw.Modulus()
      ensures ComputeTick(timestamp) == Wrap(target, hw.Modulus())
      ensures ComputeTick(timestamp) == tickLastRead <==> target == last
      ensures Micros(target - origin, frequency) <= timestamp
      ensures target < last + maxDelta ==> timestamp <= Micros(target + 1 - origin, frequency)
    {
      hide Wrap, Exact, Micros, MaxDelta, MaxDeltaUs, Pow2, MatchTick;
      target := MatchTickIs(frequency, hw.bits, presentTime, tickRemainder, last - origin, last, timestamp);
    }

    /** Its branch for a non-empty queue. */
    method ScheduleHead()
      requires ValidClock() && ValidList() && head != null
      modifies hw
      ensures ValidClock() && old(hw.now) <= hw.now
      ensures old(hw.pending) ==> hw.pending
      ensures hw.now < last + hw.Modulus() ==> Scheduled()
      ensures hw.pending && !old(hw.pending) && hw.now < last + maxDelta
              ==> nodes[0].timestamp <= Micros(hw.now + 1 - origin, frequency)
    {
      hide Wrap, Exact, Micros, MaxDelta, MaxDeltaUs, Pow2, ComputeTick, MatchIntervalPassed;
      var present := presentTime;
      var matchTime := head.timestamp;
      if matchTime <= present {
        ExactIsFloor(frequency, presentTime, tickRemainder, last - origin);
        MicrosMono(last - origin, hw.now + 1 - origin, frequency);
        hw.FireInterrupt();
        return;
      }
      var matchTick := ComputeTick(matchTime);
      ghost var target := Target(matchTime);
      if matchTick == tickLastRead {
        MicrosMono(target + 1 - origin, hw.now + 1 - origin, frequency);
        hw.FireInterrupt();
        return;
      }
      ghost var armedAt := hw.SetInterrupt(matchTick);
      var curTick := hw.Read();
      if hw.now < last + hw.Modulus() {
        MatchOnTicks(last, hw.now, target, hw.Modulus());
        if armedAt < target {
          MatchUnique(armedAt, target, hw.alarm, hw.Modulus());
        }
      }
      if MatchIntervalPassed(tickLastRead, curTick, matchTick) {
        if hw.now < last + maxDelta {
          MicrosMono(target + 1 - origin, hw.now + 1 - origin, frequency);
        }
        hw.FireInterrupt();
      }
    }

    /** Its branch for an empty queue, without a second look at the counter. */
    method ScheduleIdle()
      requires ValidClock()
      modifies hw
      ensures ValidClock() && old(hw.now) <= hw.now && hw.pending == old(hw.pending)
      ensures nodes == [] && hw.now < last + maxDelta ==> Scheduled()
    {
      hide Wrap, Low32, Low64, Exact, Micros, MaxDelta, MaxDeltaUs, Pow2, NextMatch;
      var matchTick := IdleTick(maxDelta, tickLastRead, bitmask + 1);
      TickSum(last, maxDelta, hw.bits);
      WithinWrap(last, maxDelta, hw.bits);
      ghost var armedAt := hw.SetInterrupt(matchTick);
      if armedAt < last + maxDelta {
        MatchUnique(armedAt, last + maxDelta, hw.alarm, hw.Modulus());
      }
    }

    /** schedule_interrupt. The compare register can be passed while it is being written, so for a
        queued event the counter is read again afterwards; the conditions on `hw.now` say how long
        the call may take for the outcome to be relied upon. */
    method ScheduleInterrupt()
      requires ValidClock() && ValidList()
      modifies this`last, this`tickLastRead, this`tickRemainder, this`presentTime, hw
      ensures ValidClock() && old(hw.now) <= hw.now && old(last) <= last && old(presentTime) <= presentTime
      ensures old(hw.pending) ==> hw.pending
      // the clock has been read
      ensures hw.now < old(last) + hw.Modulus() ==> old(hw.now) <= last
      ensures hw.now < last + maxDelta ==> Scheduled()
      ensures nodes != [] && hw.now < last + hw.Modulus() ==> Scheduled()
      // a forced interrupt is less than one tick early
      ensures hw.pending && !old(hw.pending) && hw.now < last + maxDelta
              ==> nodes != [] && nodes[0].timestamp <= Micros(hw.now + 1 - origin, frequency)
    {
      hide Micros, Exact, Wrap, Pow2, MaxDelta, MaxDeltaUs;
      UpdatePresentTime();
      if head != null {
        WithinWrap(last, maxDelta, hw.bits);
        ScheduleHead();
      } else {
        ScheduleIdle();
      }
    }

    /** Those that concern the clock. */
    method StartClock(frequency: nat, bits: nat)
      requires ValidInfo(frequency, bits) && bits == hw.bits && hw.now <= hw.horizon
      requires Micros(hw.horizon, frequency) + U32 < U64
      modifies this`tickLastRead, this`tickRemainder, this`frequency, this`bitmask, this`maxDelta,
               this`maxDeltaUs, this`presentTime, this`origin, this`last, hw`now
      ensures ValidClock() && this.frequency == frequency
    {
      hide Wrap, Low32, Low64, Exact, Micros, Pow2, MaxDelta, MaxDeltaUs;
      tickLastRead := hw.Read();
      origin, last := hw.now, hw.now;
      tickRemainder := 0;
      this.frequency := frequency;
      bitmask := Pow2(bits) - 1;
      maxDelta := MaxDelta(bits);
      maxDeltaUs := MaxDeltaUs(maxDelta, frequency);
      presentTime := 0;
      StartExact(frequency);
    }

    /** The field assignments of initialize. */
    method Clear(frequency: nat, bits: nat)
      requires ValidInfo(frequency, bits) && bits == hw.bits && hw.now <= hw.horizon
      requires Micros(hw.horizon, frequency) + U32 < U64
      modifies this, hw`now
      ensures initialized && ValidClock() && ValidList()
      ensures nodes == [] && log == [] && this.frequency == frequency
    {
      hide ValidInfo, ValidClock, Wrap, Exact, Micros, Pow2;
      handlerSet := false;
      head := null;
      nodes, log, called := [], [], [];
      StartClock(frequency, bits);
      initialized := true;
    }

    /** initialize: a zero frequency or an impossible width is replaced by a default. */
    method Initialize()
      requires hw.Usable() && (initialized ==> Valid())
      modifies this, hw
      ensures Valid()
      ensures old(initialized) ==> unchanged(this) && unchanged(hw)
      ensures !old(initialized) ==> nodes == [] && log == [] && (hw.now < last + maxDelta ==> Scheduled())
      ensures !old(initialized) ==> frequency == hw.Frequency()
    {
      hide ValidClock, ValidList, Scheduled, Micros, Wrap, Pow2;
      if initialized {
        return;
      }
      var frequency := if hw.infoFrequency == 0 then 1_000_000 else hw.infoFrequency;
      var bits := if hw.infoBits > 32 || hw.infoBits < 4 then 32 else hw.infoBits;
      Clear(frequency, bits);
      EmptyReplay();
      assert Contents() == [];
      UpdatePresentTime();
      ScheduleInterrupt();
    }

    /** ticker_set_handler. */
    method SetHandler(nonNull: bool)
      requires hw.Usable() && (initialized ==> Valid())
      modifies this, hw
      ensures Valid() && handlerSet == nonNull
      ensures old(initialized) ==> nodes == old(nodes) && log == old(log) && hw.now == old(hw.now)
    {
      hide ValidClock, ValidList, Scheduled, Replay, View, Micros, Wrap, Pow2;
      Initialize();
      handlerSet := nonNull;
    }

    /** ticker_read_us. */
    method ReadUs() returns (now: nat)
      requires hw.Usable() && (initialized ==> Valid())
      modifies this, hw
      ensures Valid() && now == presentTime
      ensures old(initialized) ==> old(presentTime) <= now && nodes == old(nodes) && log == old(log)
      ensures old(initialized) && hw.now < old(last) + hw.Modulus() ==> now == TrueTime()
    {
      hide ValidClock, ValidList, Scheduled, Replay, View, Micros, Wrap, Pow2;
      Initialize();
      now := ReadPresent();
    }

    /** The same, of an initialized ticker. */
    method ReadPresent() returns (now: nat)
      requires Valid()
      modifies this`last, this`tickLastRead, this`tickRemainder, this`presentTime, hw`now
      ensures Valid() && old(hw.now) <= hw.now && old(presentTime) <= now == presentTime
      ensures last == old(last) + Wrap(hw.now - old(last), hw.Modulus())
      ensures old(last) <= last && old(TrueTime()) <= TrueTime()
      ensures hw.now < old(last) + hw.Modulus() ==> last == hw.now && now == TrueTime()
    {
      hide ValidClock, Replay, View;
      PresentIs();
      UpdatePresentTime();
      TimeBetween(old(hw.now));
      now := presentTime;
    }

    /** The walk to the first node that is strictly later. */
    method Walk(timestamp: nat) returns (prev: Event?, p: Event?, ghost k: nat)
      requires ValidList()
      ensures k <= |nodes|
      ensures prev == (if k == 0 then null else nodes[k - 1])
      ensures p == (if k == |nodes| then null else nodes[k])
      ensures forall j :: 0 <= j < k ==> nodes[j].timestamp <= timestamp
      ensures k < |nodes| ==> timestamp < nodes[k].timestamp
      ensures p == if prev == null then head else prev.next
      ensures (prev != null ==> prev.timestamp <= timestamp) && (p != null ==> timestamp < p.timestamp)
    {
      prev, p, k := null, head, 0;
      while p != null
        invariant 0 <= k <= |nodes|
        invariant prev == if k == 0 then null else nodes[k - 1]
        invariant p == if k == |nodes| then null else nodes[k]
        invariant forall j :: 0 <= j < k ==> nodes[j].timestamp <= timestamp
        decreases |nodes| - k
      {
        if timestamp < p.timestamp {
          break;
        }
        prev := p;
        p := p.next;
        k := k + 1;
      }
    }

    /** Linking a node between two neighbours. */
    method Splice(prev: Event?, obj: Event, p: Event?, ghost k: nat)
      requires ValidList() && obj !in nodes && k <= |nodes|
      requires prev == (if k == 0 then null else nodes[k - 1])
      requires p == (if k == |nodes| then null else nodes[k])
      modifies this`head, this`nodes, obj`next, nodes`next
      ensures ValidList() && nodes == InsertAt(old(nodes), k, obj)
    {
      hide InsertAt;
      obj.next := p;
      if prev == null {
        head := obj;
      } else {
        prev.next := obj;
      }
      ghost var ns := nodes;
      nodes := InsertAt(ns, k, obj);
      forall i | 0 <= i < |nodes| - 1 ensures nodes[i].next == nodes[i + 1] {
        if i < k - 1 {
          assert old(ns[i].next) == ns[i + 1] && ns[i] != ns[k - 1];
        } else if i > k {
          assert old(ns[i - 1].next) == ns[i] && nodes[i] == ns[i - 1];
        }
      }
    }

    /** Its changes to the list. */
    method InsertNode(obj: Event, timestamp: nat, id: nat)
      requires ValidList() && Replay(log) == Some(Contents()) && obj !in nodes
      modifies this`head, this`nodes, this`log, obj, nodes`next
      ensures ValidList() && Replay(log) == Some(Contents())
      ensures log == old(log) + [Insert(Entry(timestamp, id))]
      ensures obj.timestamp == timestamp && obj.id == id
      ensures nodes == InsertAt(old(nodes), InsertPos(old(Contents()), timestamp), obj)
    {
      hide ValidList, Replay, InsertPos, InsertAt, View;
      ghost var ns, c := nodes, Contents();
      obj.timestamp := timestamp;
      obj.id := id;
      assert View(ns) == c;
      var prev, p; ghost var k;
      prev, p, k := Walk(timestamp);
      InsertPosUnique(c, timestamp, k);
      Splice(prev, obj, p, k);
      ViewInsert(ns, k, obj);
      ReplayInsert(log, Entry(timestamp, id));
      log := log + [Insert(Entry(timestamp, id))];
    }

    /** ticker_insert_event_us, of a node that is not linked. */
    method InsertEventUs(obj: Event, timestamp: nat, id: nat)
      requires Valid() && obj !in nodes
      modifies this`head, this`last, this`tickLastRead, this`tickRemainder, this`presentTime,
               this`nodes, this`log, hw, obj, nodes`next
      ensures Valid() && old(hw.now) <= hw.now && (old(hw.pending) ==> hw.pending)
      ensures old(last) <= last && old(presentTime) <= presentTime && old(TrueTime()) <= TrueTime()
      ensures hw.now < old(last) + hw.Modulus() ==> old(hw.now) <= last
      ensures log == old(log) + [Insert(Entry(timestamp, id))]
      ensures obj.timestamp == timestamp && obj.id == id && obj in nodes
      ensures nodes == InsertAt(old(nodes), InsertPos(old(Contents()), timestamp), obj)
      ensures hw.now < last + maxDelta ==> Scheduled()
    {
      hide ValidClock, ValidList, Scheduled, Replay, InsertPos, InsertAt, View, Micros, Wrap, Pow2;
      PresentIs();
      UpdatePresentTime();
      assert Contents() == old(Contents());
      InsertNode(obj, timestamp, id);
      assert nodes[InsertPos(old(Contents()), timestamp)] == obj;
      ScheduleInterrupt();
      TimeBetween(old(hw.now));
    }

    /** ticker_insert_event: the 32-bit form means the next instant with those low bits, counted
        from the present time `at` read on entry. */
    method InsertEvent(obj: Event, timestamp: nat, id: nat) returns (ghost at: nat)
      requires Valid() && obj !in nodes && timestamp < U32
      modifies this`head, this`last, this`tickLastRead, this`tickRemainder, this`presentTime,
               this`nodes, this`log, hw, obj, nodes`next
      ensures Valid() && old(presentTime) <= at <= presentTime
      ensures hw.now < old(last) + hw.Modulus() ==> old(TrueTime()) <= at <= TrueTime()
      ensures at <= obj.timestamp < at + U32 && obj.timestamp % U32 == timestamp
      ensures obj.id == id && log == old(log) + [Insert(Entry(obj.timestamp, id))]
      ensures hw.now < last + maxDelta ==> Scheduled()
    {
      hide ValidClock, ValidList, Scheduled, Replay, InsertPos, InsertAt, View, Micros, Wrap, Pow2, ConvertTimestamp;
      PresentIs();
      UpdatePresentTime();
      TimeBetween(old(hw.now));
      PresentFits();
      at := presentTime;
      var absoluteTimestamp := ConvertTimestamp(presentTime, timestamp);
      ConvertTimestampUnique(presentTime, timestamp, absoluteTimestamp);
      InsertEventUs(obj, absoluteTimestamp, id);
    }

    method UnlinkHead(obj: Event)
      requires Valid() && head == obj
      modifies this`head, this`nodes, this`log
      ensures Valid() && old(nodes) != [] && old(nodes)[0] == obj && obj !in nodes
      ensures nodes == Without(old(nodes), 0) && log == old(log) + [Remove(0)]
    {
      hide ValidClock, Replay, View, Without;
      ghost var ns := nodes;
      head := obj.next;
      nodes := Without(ns, 0);
      UnlinkFirst(ns);
      WithoutIt(ns, 0);
      ViewWithout(ns, 0);
      ReplayRemove(log, 0);
      log := log + [Remove(0)];
    }

    /** The search for the predecessor of a node that is not the head. */
    method UnlinkLater(obj: Event) returns (ghost k: nat)
      requires Valid() && head != obj
      modifies this`nodes, this`log, nodes`next
      ensures Valid() && obj !in nodes
      ensures obj !in old(nodes) ==> nodes == old(nodes) && log == old(log)
      ensures obj in old(nodes) ==>
                && 0 < k < |old(nodes)| && old(nodes)[k] == obj
                && nodes == Without(old(nodes), k) && log == old(log) + [Remove(k)]
    {
      hide ValidClock, Replay, View, Without;
      k := 1;
      var p := head;
      while p != null
        invariant Valid() && nodes == old(nodes) && log == old(log) && 1 <= k <= |nodes| + 1
        invariant p == if k == |nodes| + 1 || nodes == [] then null else nodes[k - 1]
        invariant obj !in nodes[..if k <= |nodes| then k else |nodes|]
        decreases |nodes| + 1 - k
      {
        if p.next == obj {
          ghost var ns := nodes;
          assert k < |ns| && ns[k] == obj;
          assert obj.next == if k + 1 < |ns| then ns[k + 1] else null;
          p.next := obj.next;
          nodes := Without(ns, k);
          UnlinkMiddle(ns, k);
          WithoutIt(ns, k);
          ViewWithout(ns, k);
          ReplayRemove(log, k);
          log := log + [Remove(k)];
          return;
        }
        p := p.next;
        k := k + 1;
      }
    }

    /** ticker_remove_event. Removing a node that is not linked changes nothing. */
    method RemoveEvent(obj: Event) returns (ghost k: nat)
      requires Valid()
      modifies this`head, this`last, this`tickLastRead, this`tickRemainder, this`presentTime,
               this`nodes, this`log, hw, nodes`next
      ensures Valid() && old(hw.now) <= hw.now && (old(hw.pending) ==> hw.pending)
      ensures old(last) <= last && old(presentTime) <= presentTime && old(TrueTime()) <= TrueTime()
      // a new head means a new alarm
      ensures old(head) == obj && hw.now < old(last) + hw.Modulus() ==> old(hw.now) <= last
      ensures obj !in old(nodes) ==> nodes == old(nodes) && log == old(log)
      ensures obj in old(nodes) ==>
                && k < |old(nodes)| && old(nodes)[k] == obj
                && nodes == Without(old(nodes), k) && log == old(log) + [Remove(k)]
      ensures obj !in nodes && forall n :: n in nodes ==> n in old(nodes)
      ensures (old(Scheduled()) || old(head) == obj) && hw.now < last + maxDelta ==> Scheduled()
    {
      hide ValidClock, ValidList, Replay, View, Without, Micros, Wrap, Pow2;
      PresentIs();
      k := 0;
      if head == obj {
        UnlinkHead(obj);
        ScheduleInterrupt();
        TimeBetween(old(hw.now));
      } else {
        k := UnlinkLater(obj);
        TimeBetween(old(hw.now));
      }
    }

    method IsLinked(obj: Event) returns (linked: bool)
      requires ValidList()
      ensures linked <==> obj in nodes
    {
      var p := head;
      ghost var k := 0;
      while p != null
        invariant 0 <= k <= |nodes| && obj !in nodes[..k]
        invariant p == if k == |nodes| then null else nodes[k]
        decreases |nodes| - k
      {
        if p == obj {
          return true;
        }
        p := p.next;
        k := k + 1;
      }
      linked := false;
    }

    /** One turn of its loop, up to the call of the handler. */
    method PopHead() returns (p: Event)
      requires Valid() && head != null && head.timestamp <= presentTime
      modifies this`head, this`nodes, this`log
      ensures Valid() && old(nodes) == [p] + nodes
      ensures log == old(log) + [Dispatch(presentTime)]
      ensures Dispatched(log) == Dispatched(old(log)) + [Entry(p.timestamp, p.id)]
    {
      hide ValidClock, Replay, View, Without;
      p := head;
      ghost var ns, c := nodes, Contents();
      head := head.next;
      nodes := Without(ns, 0);
      UnlinkFirst(ns);
      ViewWithout(ns, 0);
      WithoutFirst(ns);
      ReplayDispatch(log, presentTime);
      DispatchedAppend(log, Dispatch(presentTime));
      log := log + [Dispatch(presentTime)];
    }

    /** A callback: any finite program that reads the time, removes events, and inserts events
        that are not linked, at most `budget` of them. */
    method RunCallback(id: nat, pool: set<Event>, budget: nat) returns (left: nat)
      requires Valid() && forall e :: e in nodes ==> e in pool
      modifies this`head, this`last, this`tickLastRead, this`tickRemainder, this`presentTime,
               this`nodes, this`log, this`called, hw, pool
      ensures Valid() && (forall e :: e in nodes ==> e in pool)
      ensures old(log) <= log && old(presentTime) <= presentTime
      ensures old(last) <= last && old(hw.now) <= hw.now
      ensures Dispatched(log) == Dispatched(old(log)) && called == old(called) + [id]
      ensures |nodes| + left <= |old(nodes)| + budget
    {
      hide ValidClock, ValidList, Scheduled, Replay, View, Micros, Wrap, Pow2, Dispatched, TrueTime;
      called := called + [id];
      left := budget;
      var calls: nat := *;
      while calls > 0 && pool != {}
        invariant Valid() && (forall e :: e in nodes ==> e in pool)
        invariant old(log) <= log && old(presentTime) <= presentTime
        invariant old(last) <= last && old(hw.now) <= hw.now
        invariant Dispatched(log) == Dispatched(old(log)) && called == old(called) + [id]
        invariant |nodes| + left <= |old(nodes)| + budget
        decreases calls
      {
        var obj :| obj in pool;
        if {
          case true =>
            var now := ReadPresent();
          case true =>
            ghost var was := log;
            ghost var k := RemoveEvent(obj);
            if log != was {
              DispatchedAppend(was, Remove(k));
            }
          case left > 0 =>
            var linked := IsLinked(obj);
            if !linked {
              var timestamp: nat, newId: nat := *, *;
              DispatchedSame(log, Entry(timestamp, newId));
              InsertEventUs(obj, timestamp, newId);
              left := left - 1;
            }
        }
        calls := calls - 1;
      }
    }

    /** One turn of its loop for a due head. */
    method DispatchHead(pool: set<Event>, budget: nat) returns (left: nat, ghost e: Entry)
      requires Valid() && head != null && head.timestamp <= presentTime && forall e :: e in nodes ==> e in pool
      modifies this`head, this`last, this`tickLastRead, this`tickRemainder, this`presentTime,
               this`nodes, this`log, this`called, hw, pool
      ensures Valid() && (forall e :: e in nodes ==> e in pool)
      ensures old(log) <= log && old(presentTime) <= presentTime
      ensures old(last) <= last && old(hw.now) <= hw.now
      ensures Dispatched(log) == Dispatched(old(log)) + [e]
      ensures if handlerSet then called == old(called) + [e.id]
              else called == old(called) && hw.pending == old(hw.pending)
      ensures |nodes| + left < |old(nodes)| + budget
    {
      hide ValidClock, ValidList, Scheduled, Replay, View, Micros, Wrap, Pow2, Dispatched;
      var p := PopHead();
      e := Entry(p.timestamp, p.id);
      left := budget;
      if handlerSet {
        left := RunCallback(p.id, pool, left);
      }
    }

    /** Its loop. */
    method DispatchDue(pool: set<Event>, budget: nat) returns (ghost newly: seq<Entry>)
      requires Valid() && forall e :: e in nodes ==> e in pool
      modifies this`head, this`last, this`tickLastRead, this`tickRemainder, this`presentTime,
               this`nodes, this`log, this`called, hw, pool
      ensures Valid() && (forall e :: e in nodes ==> e in pool)
      ensures old(log) <= log && old(presentTime) <= presentTime
      ensures head != null ==> presentTime < head.timestamp
      // judged by a reading that nothing came after
      ensures old(last) <= last && old(hw.now) <= hw.now
      ensures head != null && hw.now < old(last) + hw.Modulus() ==> last == hw.now
      ensures Dispatched(log) == Dispatched(old(log)) + newly
      ensures if handlerSet then called == old(called) + Ids(newly) else hw.pending == old(hw.pending)
    {
      hide ValidClock, ValidList, Scheduled, Replay, View, Micros, Wrap, Pow2, Dispatched, TrueTime;
      var left: nat := budget;
      newly := [];
      while true
        invariant Valid() && (forall e :: e in nodes ==> e in pool)
        invariant old(log) <= log && old(presentTime) <= presentTime
        invariant old(last) <= last && old(hw.now) <= hw.now
        invariant Dispatched(log) == Dispatched(old(log)) + newly
        invariant if handlerSet then called == old(called) + Ids(newly) else hw.pending == old(hw.pending)
        decreases left + |nodes|
      {
        if head == null {
          break;
        }
        UpdatePresentTime();
        if head.timestamp <= presentTime {
          ghost var e;
          left, e := DispatchHead(pool, left);
          newly := newly + [e];
        } else {
          break;
        }
      }
    }

    lemma NoHead()
      requires ValidList()
      ensures head == null <==> nodes == []
    {
    }

    /** When the head is not due, nothing is. */
    lemma NothingDue()
      requires Valid() && (head != null ==> presentTime < head.timestamp)
      ensures forall i :: 0 <= i < |nodes| ==> presentTime < nodes[i].timestamp
    {
      hide ValidClock, Replay, View;
      ReplaySorted(log);
      forall i | 0 <= i < |nodes| ensures presentTime < nodes[i].timestamp {
        assert i == 0 || Contents()[0].timestamp <= Contents()[i].timestamp;
      }
    }

    /** ticker_irq_handler. The callbacks it runs are arbitrary programs over the events in `pool`;
        `budget` bounds how many insertions they make between them, so that the loop ends, and
        `exitTick` is the last tick counted when it ends. */
    method IrqHandler(pool: set<Event>, budget: nat) returns (ghost exitTick: nat)
      requires Valid() && forall e :: e in nodes ==> e in pool
      modifies this`head, this`last, this`tickLastRead, this`tickRemainder, this`presentTime,
               this`nodes, this`log, this`called, hw, pool
      ensures Valid() && (forall e :: e in nodes ==> e in pool)
      ensures old(last) <= exitTick <= hw.now && old(hw.now) <= hw.now && origin <= exitTick
      // everything due by then has been dispatched
      ensures forall i :: 0 <= i < |nodes| ==> Micros(exitTick - origin, frequency) < nodes[i].timestamp
      // which is, unless a whole wrap went by, everything due when the interrupt came
      ensures nodes != [] && hw.now < old(last) + hw.Modulus() ==> old(hw.now) <= exitTick
      ensures hw.now < old(last) + hw.Modulus() ==>
                forall i :: 0 <= i < |nodes| ==> old(TrueTime()) < nodes[i].timestamp
      // the handler was called once for each event dispatched, in that order
      ensures old(log) <= log && Dispatched(old(log)) <= Dispatched(log)
      ensures handlerSet ==> called == old(called) + Ids(Dispatched(log)[|Dispatched(old(log))|..])
      ensures hw.now < old(last) + hw.Modulus() ==> old(hw.now) <= last
      ensures hw.now < last + maxDelta ==> Scheduled()
      // unless a callback asked for it, no interrupt is left pending more than one tick early
      ensures !handlerSet && hw.pending && hw.now < last + maxDelta ==>
                nodes != [] && nodes[0].timestamp <= Micros(hw.now + 1 - origin, frequency)
    {
      hide ValidClock, ValidList, Scheduled, Replay, View, Micros, Wrap, Pow2, Dispatched, Ids;
      PresentIs();
      hw.ClearInterrupt();
      ghost var newly := DispatchDue(pool, budget);
      exitTick := last;
      NothingDue();
      PresentIs();
      NoHead();
      if nodes != [] && hw.now < old(last) + hw.Modulus() {
        MicrosMono(old(hw.now) - origin, exitTick - origin, frequency);
      }
      assert Dispatched(log)[|Dispatched(old(log))|..] == newly;
      ScheduleInterrupt();
    }
  }
}
