/** The ticker over whole runs. The HAL is taken apart into its accesses to the hardware, and the
    counter may advance between any two of them; the compare register raises the interrupt whenever
    the counter shows its value, also while the HAL is rewriting it. */
module TickerRuns {
  import opened Arithmetic
  import opened TickerClock
  import opened EventQueue

  /** `start`: what the counter has counted when initialize reads it. `latency`: the longest time
      from an asserted interrupt, or from leaving the HAL with one, to the next clock reading.
      `stride`: the longest time inside the HAL between a clock reading and the next one or the
      return. */
  datatype Config = Config(f: nat, bits: nat, start: nat, latency: nat, stride: nat)

  ghost predicate ValidConfig(c: Config) {
    ValidInfo(c.f, c.bits)
  }

  /** Where execution stands. Idle: outside the HAL. Entered: inside, and the clock has not been
      read. Looked: it has, and nothing was changed since. Editing: the queue was changed, or the
      interrupt cleared, so schedule_interrupt must still run. Scheduling: its update_present_time
      has run. Arming: it has written the compare register. Leaving: it has finished. */
  datatype Point = Idle | Entered | Looked | Editing | Scheduling | Arming(tick: nat) | Leaving

  /** `now`, `compare` and `irq` are the hardware, with `now` the true tick count of which only the
      residue can be read; then come the fields of the queue. The last four only record what
      happened: the tick of the last clock reading, the tick the compare register stands for, and
      whether and since when an interrupt is waiting. */
  datatype State = State(
    now: nat, compare: nat, irq: bool,
    tickLastRead: nat, present: nat, remainder: nat, queue: seq<Entry>, at: Point,
    readAt: nat, target: nat, overdue: bool, since: nat)

  /** Tick: the counter advances. Clear: ticker_irq_handler starts. ReadClock: update_present_time.
      Edit: linking, unlinking or popping a node. Begin: the update_present_time of
      schedule_interrupt. Schedule: its decision and the access that follows. ReadBack: its second
      look at the counter. Return: the HAL is left. */
  datatype Step = Tick | Clear | ReadClock | Edit(op: QueueOp) | Begin | Schedule | ReadBack | Return

  predicate Unread(at: Point) {
    at.Idle? || at.Entered?
  }

  ghost predicate Enabled(c: Config, s: State, step: Step)
    requires ValidConfig(c)
  {
    match step
    case Tick =>
      if Unread(s.at) then s.overdue ==> s.now + 1 - s.since <= c.latency
      else s.now + 1 - s.readAt <= c.stride
    case Clear => s.at.Idle? && s.irq
    case ReadClock => !s.at.Scheduling? && !s.at.Arming?
    case Edit(op) =>
      && Apply(s.queue, op).Some?
      && (match op
          case Insert(_) => s.at.Looked? || s.at.Editing?
          case Remove(_) => !s.at.Scheduling? && !s.at.Arming?
          case Dispatch(t) => (s.at.Looked? || s.at.Editing?) && t == s.present)
    case Begin => s.at.Entered? || s.at.Looked? || s.at.Editing? || s.at.Leaving?
    case Schedule => s.at.Scheduling?
    case ReadBack => s.at.Arming?
    case Return => s.at.Looked? || s.at.Leaving?
  }

  /** update_present_time. */
  ghost function Reading(c: Config, s: State): State
    requires ValidConfig(c)
  {
    var reading := Wrap(s.now, Pow2(c.bits));
    var elapsed := Wrap(Low32(reading - s.tickLastRead), Pow2(c.bits));
    var (us, rem) := ElapsedUs(c.f, s.remainder, elapsed);
    s.(tickLastRead := reading, present := s.present + us, remainder := rem, readAt := s.now, overdue := false)
  }

  /** schedule_interrupt after it has read the clock. */
  ghost function Scheduled(c: Config, s: State): State
    requires ValidConfig(c)
  {
    var m, n := MaxDelta(c.bits), Pow2(c.bits);
    if s.queue == [] then
      s.(compare := IdleTick(m, s.tickLastRead, n), target := s.readAt + m, at := Leaving)
    else if s.queue[0].timestamp <= s.present then
      s.(irq := true, at := Leaving)
    else
      var deltaUs := s.queue[0].timestamp - s.present;
      var tick := MatchTick(c.f, m, MaxDeltaUs(m, c.f), s.tickLastRead, deltaUs, n);
      if tick == s.tickLastRead then s.(irq := true, at := Leaving)
      else s.(compare := tick, target := s.readAt + Min(Ticks(deltaUs, c.f), m), at := Arming(tick))
  }

  ghost function Next(c: Config, s: State, step: Step): State
    requires ValidConfig(c) && Enabled(c, s, step)
  {
    match step
    case Tick =>
      var hit := Wrap(s.now + 1, Pow2(c.bits)) == s.compare;
      var first := hit && Unread(s.at) && !s.overdue;
      s.(now := s.now + 1, irq := s.irq || hit, overdue := s.overdue || first,
         since := if first then s.now + 1 else s.since)
    case Clear => s.(irq := false, at := Entered)
    case ReadClock => Reading(c, s).(at := if s.at.Entered? || s.at.Editing? then Editing else Looked)
    case Edit(op) =>
      s.(queue := Apply(s.queue, op).value,
         at := if op.Remove? && op.index > 0 then s.at else if Unread(s.at) then Entered else Editing)
    case Begin => Reading(c, s).(at := Scheduling)
    case Schedule => Scheduled(c, s)
    case ReadBack =>
      var passed := MatchIntervalPassed(s.tickLastRead, Wrap(s.now, Pow2(c.bits)), s.at.tick);
      s.(irq := s.irq || passed, at := Leaving)
    case Return => s.(at := Idle, overdue := s.irq, since := s.now)
  }

  ghost predicate Run(c: Config, states: seq<State>, steps: seq<Step>)
    requires ValidConfig(c)
  {
    && |states| == |steps| + 1
    && (forall i :: 0 <= i < |steps| ==>
          Enabled(c, states[i], steps[i]) && states[i + 1] == Next(c, states[i], steps[i]))
  }

  /** initialize has read the counter and still has to schedule. What the compare register and the
      interrupt flag held before is unknown. */
  ghost predicate Init(c: Config, s: State)
    requires ValidConfig(c)
  {
    && s.now == s.readAt == c.start && s.tickLastRead == Wrap(c.start, Pow2(c.bits))
    && s.present == s.remainder == 0 && s.queue == [] && s.at == Editing && !s.overdue
  }

  // ---------------------------------------------------------------- the invariant

  ghost predicate ClockOk(c: Config, s: State)
    requires ValidConfig(c)
  {
    && c.start <= s.readAt <= s.now
    && s.tickLastRead == Wrap(s.readAt, Pow2(c.bits))
    && Exact(c.f, s.present, s.remainder, s.readAt - c.start)
  }

  /** When the counter reaches the target, the earliest deadline has not passed. */
  ghost predicate NotAfter(c: Config, target: nat, queue: seq<Entry>)
    requires ValidConfig(c)
  {
    queue != [] ==> c.start <= target && Micros(target - c.start, c.f) <= queue[0].timestamp
  }

  /** One tick after the target the earliest deadline has passed. */
  ghost predicate Close(c: Config, target: nat, queue: seq<Entry>)
    requires ValidConfig(c)
  {
    queue != [] && c.start <= target + 1 && queue[0].timestamp <= Micros(target + 1 - c.start, c.f)
  }

  /** An interrupt is asserted, or the compare register stands for a tick that is ahead, in reach and
      not too late. */
  ghost predicate AlarmSet(c: Config, s: State)
    requires ValidConfig(c)
  {
    || s.irq
    || (&& s.now < s.target && s.compare == Wrap(s.target, Pow2(c.bits))
        && InReach(c, s) && NotAfter(c, s.target, s.queue))
  }

  ghost predicate InReach(c: Config, s: State)
    requires ValidConfig(c)
  {
    s.target <= s.readAt + MaxDelta(c.bits)
  }

  /** The next clock reading is due: an interrupt waits, or will come in time. */
  ghost predicate Watched(c: Config, s: State)
    requires ValidConfig(c)
  {
    if s.overdue then s.since <= s.readAt + MaxDelta(c.bits) && s.now <= s.since + c.latency
    else !s.irq && s.now < s.target && s.compare == Wrap(s.target, Pow2(c.bits)) && InReach(c, s)
  }

  ghost predicate PointOk(c: Config, s: State)
    requires ValidConfig(c)
  {
    && (if Unread(s.at) then Watched(c, s) else s.now - s.readAt <= c.stride)
    && (match s.at
        case Idle => AlarmSet(c, s) && (s.overdue <==> s.irq)
        case Looked => AlarmSet(c, s)
        case Leaving => AlarmSet(c, s)
        case Arming(tick) =>
          && tick == s.compare == Wrap(s.target, Pow2(c.bits))
          && s.readAt < s.target && InReach(c, s) && NotAfter(c, s.target, s.queue)
          && (s.target == s.readAt + MaxDelta(c.bits) || Close(c, s.target, s.queue))
        case _ => true)
  }

  ghost predicate Inv(c: Config, s: State)
    requires ValidConfig(c)
  {
    ClockOk(c, s) && Sorted(s.queue) && PointOk(c, s)
  }

  /** Interrupts are served within the 9/16 of a wrap that scheduling leaves, and the HAL is quick
      enough for the alarm of an empty queue, which it does not check again. */
  ghost predicate InTime(c: Config)
    requires ValidConfig(c)
  {
    c.latency + MaxDelta(c.bits) < Pow2(c.bits) && c.stride < MaxDelta(c.bits)
  }

  lemma MaxDeltaFits(bits: nat)
    requires 4 <= bits <= 32
    ensures 0 < MaxDelta(bits) < Pow2(bits)
  {
    Pow2Split(bits);
  }

  /** The next reading is less than a wrap away. */
  lemma WithinAWrap(c: Config, s: State)
    requires ValidConfig(c) && InTime(c) && Inv(c, s)
    ensures s.now - s.readAt < Pow2(c.bits)
  {
    hide Exact, Wrap, Pow2, MaxDelta, NotAfter;
    MaxDeltaFits(c.bits);
  }

  /** With less than a wrap gone by, a reading tells the true elapsed ticks. */
  lemma ReadIsExact(c: Config, s: State)
    requires ValidConfig(c) && ClockOk(c, s) && s.now - s.readAt < Pow2(c.bits)
    ensures ClockOk(c, Reading(c, s))
  {
    hide Exact, Wrap, Low32, ElapsedUs, Pow2;
    Pow2Split(c.bits);
    LowThenWrap(Wrap(s.now, Pow2(c.bits)) - s.tickLastRead, Pow2(c.bits), Pow2(32 - c.bits));
    TickDistance(s.readAt, s.now, Pow2(c.bits));
    ArmsKeepExact(c.f, s.present, s.remainder, s.readAt - c.start, s.now - s.readAt);
  }

  lemma ReadingKeeps(c: Config, s: State, step: Step)
    requires ValidConfig(c) && InTime(c) && Inv(c, s) && Enabled(c, s, step) && (step.ReadClock? || step.Begin?)
    ensures Inv(c, Next(c, s, step))
  {
    hide Exact, Wrap, Low32, ElapsedUs, Pow2, MaxDelta, NotAfter, Sorted;
    WithinAWrap(c, s);
    ReadIsExact(c, s);
  }

  lemma EditKeeps(c: Config, s: State, op: QueueOp)
    requires ValidConfig(c) && Inv(c, s) && Enabled(c, s, Edit(op))
    ensures Inv(c, Next(c, s, Edit(op)))
  {
    hide Exact, Wrap, Pow2, MaxDelta, Micros, InsertSorted, Sorted;
    ApplyKeepsSorted(s.queue, op);
  }

  lemma ApplyKeepsSorted(s: seq<Entry>, op: QueueOp)
    requires Sorted(s) && Apply(s, op).Some?
    ensures Sorted(Apply(s, op).value)
  {
    if op.Insert? {
      InsertKeepsSorted(s, op.entry);
    }
  }

  /** Arming: with the clock exact the compare value stands for a tick ahead that is not too late. */
  lemma ScheduleKeeps(c: Config, s: State)
    requires ValidConfig(c) && InTime(c) && Inv(c, s) && s.at.Scheduling?
    ensures Inv(c, Scheduled(c, s))
  {
    hide Exact, Wrap, Low32, Pow2, MaxDelta, MaxDeltaUs, Micros, Ticks, MatchTick, Sorted;
    MaxDeltaFits(c.bits);
    TickSum(s.readAt, MaxDelta(c.bits), c.bits);
    if s.queue != [] && s.present < s.queue[0].timestamp {
      var target := MatchTickIs(c.f, c.bits, s.present, s.remainder, s.readAt - c.start, s.readAt,
                                s.queue[0].timestamp);
    }
  }

  /** Looking back: the interrupt is forced exactly when the target has gone by. */
  lemma ReadBackKeeps(c: Config, s: State)
    requires ValidConfig(c) && InTime(c) && Inv(c, s) && s.at.Arming?
    ensures Inv(c, Next(c, s, ReadBack))
    ensures Next(c, s, ReadBack).irq <==> s.irq || s.target <= s.now
  {
    hide Exact, Wrap, Pow2, MaxDelta, NotAfter, MatchIntervalPassed, Sorted;
    MaxDeltaFits(c.bits);
    MatchOnTicks(s.readAt, s.now, s.target, Pow2(c.bits));
  }

  lemma InvStep(c: Config, s: State, step: Step)
    requires ValidConfig(c) && InTime(c) && Inv(c, s) && Enabled(c, s, step)
    ensures Inv(c, Next(c, s, step))
  {
    match step
    case ReadClock => ReadingKeeps(c, s, step);
    case Begin => ReadingKeeps(c, s, step);
    case Edit(op) => EditKeeps(c, s, op);
    case Schedule => ScheduleKeeps(c, s);
    case ReadBack => ReadBackKeeps(c, s);
    case Tick => OtherKeeps(c, s, step);
    case Clear => OtherKeeps(c, s, step);
    case Return => OtherKeeps(c, s, step);
  }

  /** A tick that reaches the target shows the compare value, so it raises the interrupt. */
  lemma OtherKeeps(c: Config, s: State, step: Step)
    requires ValidConfig(c) && InTime(c) && Inv(c, s) && Enabled(c, s, step)
    requires step.Tick? || step.Clear? || step.Return?
    ensures Inv(c, Next(c, s, step))
  {
    hide Exact, Wrap, Pow2, MaxDelta, NotAfter, Sorted;
    MaxDeltaFits(c.bits);
  }

  // ---------------------------------------------------------------- whole runs

  lemma StartsOk(c: Config, s: State)
    requires ValidConfig(c) && Init(c, s)
    ensures Inv(c, s)
  {
  }

  /** In every run, as long as interrupts are served within 9/16 of a wrap, no wrap of the counter
      goes uncounted and the clock never drifts: its present time is the exact number of whole
      microseconds up to its last reading. */
  lemma {:induction false} ClockIsExactForever(c: Config, states: seq<State>, steps: seq<Step>, k: nat)
    requires ValidConfig(c) && InTime(c)
    requires Run(c, states, steps) && Init(c, states[0]) && k < |states|
    ensures Inv(c, states[k])
    ensures states[k].now - states[k].readAt < Pow2(c.bits)
    ensures c.start <= states[k].readAt && states[k].present == Micros(states[k].readAt - c.start, c.f)
  {
    hide Init, PointOk, Micros, Exact;
    if k == 0 {
      StartsOk(c, states[0]);
    } else {
      ClockIsExactForever(c, states, steps, k - 1);
      InvStep(c, states[k - 1], steps[k - 1]);
    }
    WithinAWrap(c, states[k]);
    ExactIsFloor(c.f, states[k].present, states[k].remainder, states[k].readAt - c.start);
  }

  /** No wakeup is lost. In every run, whenever the HAL is left and the deadline of any queued event
      has passed, the interrupt is asserted and has not waited longer than it may. */
  lemma NoLostWakeup(c: Config, states: seq<State>, steps: seq<Step>, k: nat, e: Entry)
    requires ValidConfig(c) && InTime(c)
    requires Run(c, states, steps) && Init(c, states[0]) && k < |states|
    requires states[k].at.Idle? && e in states[k].queue
    ensures var s := states[k];
            && c.start <= s.now
            && (Micros(s.now - c.start, c.f) > e.timestamp ==> s.irq && s.now <= s.since + c.latency)
  {
    hide Micros, Exact, Run;
    ClockIsExactForever(c, states, steps, k);
    var s := states[k];
    var i :| 0 <= i < |s.queue| && s.queue[i] == e;
    assert i == 0 || s.queue[0].timestamp <= s.queue[i].timestamp;
    if !s.irq {
      MicrosMono(s.now - c.start, s.target - c.start, c.f);
    }
  }

  /** Nor is one made up: while the HAL is left and nothing waits, the interrupt comes with the tick
      the compare register stands for and no other, however often the register was rewritten. */
  lemma AlarmIsExact(c: Config, states: seq<State>, steps: seq<Step>, k: nat)
    requires ValidConfig(c) && InTime(c)
    requires Run(c, states, steps) && Init(c, states[0]) && k < |steps|
    requires states[k].at.Idle? && !states[k].irq && steps[k].Tick?
    ensures states[k + 1].irq <==> states[k + 1].now == states[k].target
  {
    hide Micros, Exact, Wrap, Init;
    ClockIsExactForever(c, states, steps, k);
    var s := states[k];
    MaxDeltaFits(c.bits);
    WithinAWrap(c, s);
    Rotation(s.now + 1, s.target - (s.now + 1), Pow2(c.bits));
  }

  /** The target is as far as scheduling goes from the reading with which it last began. */
  ghost predicate AtLimit(c: Config, states: seq<State>, k: nat)
    requires ValidConfig(c) && k < |states|
  {
    exists j :: 0 <= j < k && ScheduledLast(states, j, k) && states[k].target == states[j].readAt + MaxDelta(c.bits)
  }

  ghost predicate ScheduledLast(states: seq<State>, j: nat, k: nat)
    requires j < k < |states|
  {
    states[j].at.Scheduling? && forall i :: j < i <= k ==> !states[i].at.Scheduling?
  }

  predicate HasAlarm(at: Point) {
    at.Idle? || at.Looked? || at.Leaving? || at.Arming?
  }

  lemma {:induction false} AlarmIsClose(c: Config, states: seq<State>, steps: seq<Step>, k: nat)
    requires ValidConfig(c) && InTime(c)
    requires Run(c, states, steps) && Init(c, states[0]) && k < |states| && HasAlarm(states[k].at)
    ensures var s := states[k];
            (s.irq && !s.at.Arming?) || Close(c, s.target, s.queue) || AtLimit(c, states, k)
  {
    if k > 0 {
      hide Init, Close, AtLimit, ScheduledLast, PointOk, Scheduled, Reading, Apply, InTime;
      var s, step := states[k - 1], steps[k - 1];
      ClockIsExactForever(c, states, steps, k - 1);
      if step.Schedule? {
        ScheduleIsClose(c, states, k - 1);
      } else {
        AlarmIsClose(c, states, steps, k - 1);
        assert !states[k].at.Scheduling?;
        AlarmStays(c, s, step);
        if AtLimit(c, states, k - 1) {
          LimitStays(c, states, k);
        }
      }
    }
  }

  /** No other step that leads to a point with an alarm moves it, or the head of the queue. */
  lemma AlarmStays(c: Config, s: State, step: Step)
    requires ValidConfig(c) && Enabled(c, s, step) && !step.Schedule? && HasAlarm(Next(c, s, step).at)
    ensures var s' := Next(c, s, step);
            && HasAlarm(s.at) && s'.target == s.target && (s.irq ==> s'.irq)
            && (Close(c, s.target, s.queue) ==> Close(c, s.target, s'.queue))
            && (s'.at.Arming? ==> s.at.Arming?)
    ensures s.at.Arming? ==> step.Tick? || step.ReadBack?
  {
  }

  lemma LimitStays(c: Config, states: seq<State>, k: nat)
    requires ValidConfig(c) && 0 < k < |states| && AtLimit(c, states, k - 1)
    requires states[k].target == states[k - 1].target && !states[k].at.Scheduling?
    ensures AtLimit(c, states, k)
  {
    var j :| 0 <= j < k - 1 && ScheduledLast(states, j, k - 1)
             && states[k - 1].target == states[j].readAt + MaxDelta(c.bits);
    assert ScheduledLast(states, j, k);
  }

  lemma ScheduleIsClose(c: Config, states: seq<State>, k: nat)
    requires ValidConfig(c) && k + 1 < |states|
    requires Inv(c, states[k]) && states[k].at.Scheduling? && states[k + 1] == Scheduled(c, states[k])
    ensures var s := states[k + 1];
            (s.irq && !s.at.Arming?) || Close(c, s.target, s.queue) || AtLimit(c, states, k + 1)
  {
    hide Exact, Wrap, Low32, Pow2, MaxDelta, MaxDeltaUs, Micros, Ticks, MatchTick, Sorted;
    var s := states[k];
    assert !states[k + 1].at.Scheduling?;
    assert ScheduledLast(states, k, k + 1);
    if s.queue != [] && s.present < s.queue[0].timestamp {
      var target := MatchTickIs(c.f, c.bits, s.present, s.remainder, s.readAt - c.start, s.readAt,
                                s.queue[0].timestamp);
    }
  }

  /** An interrupt is forced only for a deadline less than one tick away. */
  lemma ForcedIsDue(c: Config, states: seq<State>, steps: seq<Step>, k: nat)
    requires ValidConfig(c) && InTime(c)
    requires Run(c, states, steps) && Init(c, states[0]) && k < |steps|
    requires !states[k].irq && states[k + 1].irq && !steps[k].Tick?
    ensures var s := states[k];
            s.queue != [] && c.start <= s.now && s.queue[0].timestamp <= Micros(s.now + 1 - c.start, c.f)
  {
    hide Init, Exact, Wrap, Low32, Pow2, MaxDelta, MaxDeltaUs, Micros, Ticks, MatchTick, ElapsedUs, Apply;
    var s := states[k];
    ClockIsExactForever(c, states, steps, k);
    if steps[k].Schedule? {
      MaxDeltaFits(c.bits);
      MicrosMono(s.readAt - c.start, s.now + 1 - c.start, c.f);
      MicrosMono(s.readAt + 1 - c.start, s.now + 1 - c.start, c.f);
      if s.queue != [] && s.present < s.queue[0].timestamp {
        var target := MatchTickIs(c.f, c.bits, s.present, s.remainder, s.readAt - c.start, s.readAt,
                                  s.queue[0].timestamp);
      }
    } else if steps[k].ReadBack? {
      ReadBackKeeps(c, s);
      MicrosMono(s.target + 1 - c.start, s.now + 1 - c.start, c.f);
    }
  }

  /** No needless interrupts. In every run, while the HAL is left and no interrupt waits, the alarm
      is less than one tick before the earliest deadline, or 7/16 of a wrap after the reading with
      which schedule_interrupt last began. */
  lemma NoNeedlessAlarm(c: Config, states: seq<State>, steps: seq<Step>, k: nat)
    requires ValidConfig(c) && InTime(c)
    requires Run(c, states, steps) && Init(c, states[0]) && k < |states|
    requires states[k].at.Idle? && !states[k].irq
    ensures var s := states[k];
            || (s.queue != [] && c.start <= s.target + 1 && s.queue[0].timestamp <= Micros(s.target + 1 - c.start, c.f))
            || (exists j :: 0 <= j < k && states[j].at.Scheduling?
                            && (forall i :: j < i <= k ==> !states[i].at.Scheduling?)
                            && s.target == states[j].readAt + MaxDelta(c.bits))
  {
    hide Exact, Micros, Wrap, Run, Init, MaxDelta, InTime;
    AlarmIsClose(c, states, steps, k);
    if AtLimit(c, states, k) {
      var j :| 0 <= j < k && ScheduledLast(states, j, k) && states[k].target == states[j].readAt + MaxDelta(c.bits);
    }
  }

  /** No event is dispatched before its time by the true clock. */
  lemma NeverEarly(c: Config, states: seq<State>, steps: seq<Step>, k: nat)
    requires ValidConfig(c) && InTime(c)
    requires Run(c, states, steps) && Init(c, states[0]) && k < |steps|
    requires steps[k].Edit? && steps[k].op.Dispatch?
    ensures var s := states[k];
            s.queue != [] && c.start <= s.now && s.queue[0].timestamp <= Micros(s.now - c.start, c.f)
  {
    hide Micros, Exact, Init, PointOk;
    ClockIsExactForever(c, states, steps, k);
    MicrosMono(states[k].readAt - c.start, states[k].now - c.start, c.f);
  }

  // ---------------------------------------------------------------- the timing bounds are exact

  /** The run in which an idle queue's alarm is served as late as allowed: the state after k steps,
      which are two to schedule, the return, and ticks. */
  ghost function LateState(c: Config, k: nat): State
    requires ValidConfig(c)
  {
    var a, m, n := c.start, MaxDelta(c.bits), Pow2(c.bits);
    var s := State(a, Wrap(a + m, n), false, Wrap(a, n), 0, 0, [], Editing, a, a + m, false, a);
    if k == 0 then s
    else if k == 1 then s.(at := Scheduling)
    else if k == 2 then s.(at := Leaving)
    else
      var late := k - 3 >= m;
      s.(at := Idle, now := a + (k - 3), irq := late, overdue := late, since := if late then a + m else a)
  }

  ghost function LateStep(k: nat): Step {
    if k == 0 then Begin else if k == 1 then Schedule else if k == 2 then Return else Tick
  }

  lemma LateStepFollows(c: Config, k: nat)
    requires ValidConfig(c) && c.latency + MaxDelta(c.bits) >= Pow2(c.bits) && k < Pow2(c.bits) + 3
    ensures Enabled(c, LateState(c, k), LateStep(k))
    ensures LateState(c, k + 1) == Next(c, LateState(c, k), LateStep(k))
  {
    var a, m, n := c.start, MaxDelta(c.bits), Pow2(c.bits);
    MaxDeltaFits(c.bits);
    if k == 0 {
      ReadingAgain(c, LateState(c, 0));
    } else {
      hide Wrap, Pow2, MaxDelta, Low32;
      TickSum(a, m, c.bits);
      if k >= 3 && k - 3 < m {
        Rotation(a + (k - 2), m - (k - 2), n);
      }
    }
  }

  /** Reading twice at the same tick adds nothing. */
  lemma ReadingAgain(c: Config, s: State)
    requires ValidConfig(c) && s.now == s.readAt && s.tickLastRead == Wrap(s.now, Pow2(c.bits))
    requires s.remainder < c.f && !s.overdue
    ensures Reading(c, s) == s
  {
    DivUnique(0, Pow2(c.bits), 0, 0);
    DivUnique(0, c.f, 0, 0);
  }

  lemma LateRun(c: Config) returns (states: seq<State>, steps: seq<Step>)
    requires ValidConfig(c) && c.latency + MaxDelta(c.bits) >= Pow2(c.bits)
    ensures Run(c, states, steps) && Init(c, states[0])
    ensures |states| == Pow2(c.bits) + 4 && states[Pow2(c.bits) + 3] == LateState(c, Pow2(c.bits) + 3)
  {
    hide Pow2, MaxDelta, Wrap, LateState, LateStep, Next, Enabled;
    var n := Pow2(c.bits);
    states := seq(n + 4, k requires 0 <= k => LateState(c, k));
    steps := seq(n + 3, k requires 0 <= k => LateStep(k));
    forall k | 0 <= k < n + 3
      ensures Enabled(c, states[k], steps[k]) && states[k + 1] == Next(c, states[k], steps[k])
    {
      LateStepFollows(c, k);
    }
    BothStart(c);
  }

  /** The run in which the alarm of an empty queue is set too late to be seen: ticks up to the
      intended one, the write, the return, and more ticks. */
  ghost function SlowState(c: Config, k: nat): State
    requires ValidConfig(c)
  {
    var a, m, n := c.start, MaxDelta(c.bits), Pow2(c.bits);
    var s := State(a, Wrap(a, n), false, Wrap(a, n), 0, 0, [], Editing, a, a, false, a);
    if k == 0 then s
    else if k <= m + 1 then s.(at := Scheduling, now := a + (k - 1))
    else
      var t := s.(compare := Wrap(a + m, n), target := a + m);
      if k == m + 2 then t.(at := Leaving, now := a + m)
      else t.(at := Idle, now := a + (k - 3), since := a + m)
  }

  ghost function SlowStep(c: Config, k: nat): Step
    requires ValidConfig(c)
  {
    var m := MaxDelta(c.bits);
    if k == 0 then Begin else if k == m + 1 then Schedule else if k == m + 2 then Return else Tick
  }

  lemma SlowStepFollows(c: Config, k: nat)
    requires ValidConfig(c) && c.stride >= MaxDelta(c.bits) && k < Pow2(c.bits) + 3
    ensures Enabled(c, SlowState(c, k), SlowStep(c, k))
    ensures SlowState(c, k + 1) == Next(c, SlowState(c, k), SlowStep(c, k))
  {
    var a, m, n := c.start, MaxDelta(c.bits), Pow2(c.bits);
    MaxDeltaFits(c.bits);
    if k == 0 {
      ReadingAgain(c, SlowState(c, 0));
    } else {
      hide Wrap, Pow2, MaxDelta, Low32;
      TickSum(a, m, c.bits);
      if k <= m {
        Rotation(a, k, n);
      } else if k > m + 2 {
        Rotation(a + m, k - 2 - m, n);
      }
    }
  }

  lemma SlowRun(c: Config) returns (states: seq<State>, steps: seq<Step>)
    requires ValidConfig(c) && c.stride >= MaxDelta(c.bits)
    ensures Run(c, states, steps) && Init(c, states[0])
    ensures |states| == Pow2(c.bits) + 4 && states[Pow2(c.bits) + 3] == SlowState(c, Pow2(c.bits) + 3)
  {
    hide Pow2, MaxDelta, Wrap, SlowState, SlowStep, Next, Enabled;
    var n := Pow2(c.bits);
    states := seq(n + 4, k requires 0 <= k => SlowState(c, k));
    steps := seq(n + 3, k requires 0 <= k => SlowStep(c, k));
    forall k | 0 <= k < n + 3
      ensures Enabled(c, states[k], steps[k]) && states[k + 1] == Next(c, states[k], steps[k])
    {
      SlowStepFollows(c, k);
    }
    BothStart(c);
  }

  lemma BothStart(c: Config)
    requires ValidConfig(c)
    ensures Init(c, LateState(c, 0)) && Init(c, SlowState(c, 0))
  {
  }

  ghost predicate NoWrapLost(c: Config)
    requires ValidConfig(c)
  {
    forall states: seq<State>, steps: seq<Step>, k: nat ::
      Run(c, states, steps) && Init(c, states[0]) && k < |states| ==> states[k].now - states[k].readAt < Pow2(c.bits)
  }

  /** Neither bound can be relaxed: no run loses a wrap exactly when interrupts are served within
      9/16 of a wrap and the HAL takes less than 7/16 of one from a reading to the next. */
  lemma TimingExact(c: Config)
    requires ValidConfig(c)
    ensures InTime(c) <==> NoWrapLost(c)
  {
    hide Init;
    MaxDeltaFits(c.bits);
    if InTime(c) {
      forall states: seq<State>, steps: seq<Step>, k: nat | Run(c, states, steps) && Init(c, states[0]) && k < |states|
        ensures states[k].now - states[k].readAt < Pow2(c.bits)
      {
        ClockIsExactForever(c, states, steps, k);
      }
    } else if c.stride < MaxDelta(c.bits) {
      var states, steps := LateRun(c);
      LostWrap(states, steps, c);
    } else {
      var states, steps := SlowRun(c);
      LostWrap(states, steps, c);
    }
  }

  lemma LostWrap(states: seq<State>, steps: seq<Step>, c: Config)
    requires ValidConfig(c) && Run(c, states, steps) && Init(c, states[0]) && |states| == Pow2(c.bits) + 4
    requires states[Pow2(c.bits) + 3].now - states[Pow2(c.bits) + 3].readAt >= Pow2(c.bits)
    ensures !NoWrapLost(c)
  {
  }
}
