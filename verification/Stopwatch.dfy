/** What a Timer measures: for every history of start, stop and reset, the number of microseconds
    since the last reset during which it was running. */
module Stopwatch {

  datatype State = State(running: bool, start: nat, time: nat)

  datatype Act = Start | Stop | Reset

  function Slice(s: State, now: nat): nat {
    if s.running && s.start <= now then now - s.start else 0
  }

  /** mbed-os/drivers/Timer.cpp, with the clock reading as a parameter. */
  function Apply(s: State, act: Act, now: nat): State {
    match act
    case Start => if s.running then s else State(true, now, s.time)
    case Stop => State(false, s.start, s.time + Slice(s, now))
    case Reset => State(s.running, now, 0)
  }

  function ReadTimer(s: State, now: nat): nat {
    s.time + Slice(s, now)
  }

  // ---------------------------------------------------------------- the reference definition

  datatype Event = Event(act: Act, at: nat)

  ghost predicate InOrder(h: seq<Event>, now: nat) {
    h == [] || (InOrder(h[..|h| - 1], h[|h| - 1].at) && h[|h| - 1].at <= now)
  }

  function Run(h: seq<Event>): State {
    if h == [] then State(false, 0, 0) else Apply(Run(h[..|h| - 1]), h[|h| - 1].act, h[|h| - 1].at)
  }

  /** Whether the stopwatch is running during the microsecond that begins at `u`: of the starts and
      stops up to then, the last is a start. */
  predicate RunningAt(h: seq<Event>, u: nat) {
    if h == [] then false
    else
      var e := h[|h| - 1];
      if e.at <= u && e.act != Reset then e.act == Start else RunningAt(h[..|h| - 1], u)
  }

  function LastReset(h: seq<Event>): nat {
    if h == [] then 0
    else if h[|h| - 1].act == Reset then h[|h| - 1].at
    else LastReset(h[..|h| - 1])
  }

  /** How many microseconds of [from, until) the stopwatch was running. */
  function RunningMicros(h: seq<Event>, from: nat, until: nat): nat {
    if until <= from then 0
    else RunningMicros(h, from, until - 1) + (if RunningAt(h, until - 1) then 1 else 0)
  }

  // ---------------------------------------------------------------- the two agree

  /** An event changes nothing before its own time. */
  lemma {:induction false} PastIsFixed(h: seq<Event>, from: nat, until: nat)
    requires h != [] && until <= h[|h| - 1].at
    ensures RunningMicros(h, from, until) == RunningMicros(h[..|h| - 1], from, until)
    decreases until
  {
    if from < until {
      PastIsFixed(h, from, until - 1);
    }
  }

  /** After the last event the stopwatch stays as that event left it. */
  lemma {:induction false} PresentIsConstant(h: seq<Event>, from: nat, mid: nat, until: nat)
    requires InOrder(h, mid) && from <= mid <= until
    ensures RunningMicros(h, from, until) == RunningMicros(h, from, mid) + if Run(h).running then until - mid else 0
    decreases until
  {
    if mid < until {
      PresentIsConstant(h, from, mid, until - 1);
      RunningNow(h, until - 1);
    }
  }

  lemma {:induction false} RunningNow(h: seq<Event>, u: nat)
    requires InOrder(h, u)
    ensures RunningAt(h, u) == Run(h).running
  {
    if h != [] {
      InOrderLater(h[..|h| - 1], h[|h| - 1].at, u);
      RunningNow(h[..|h| - 1], u);
    }
  }

  lemma InOrderLater(h: seq<Event>, now: nat, later: nat)
    requires InOrder(h, now) && now <= later
    ensures InOrder(h, later)
  {
  }

  lemma {:induction false} ResetInPast(h: seq<Event>, now: nat)
    requires InOrder(h, now)
    ensures LastReset(h) <= now && (Run(h).running ==> Run(h).start <= now)
  {
    if h != [] {
      ResetInPast(h[..|h| - 1], h[|h| - 1].at);
    }
  }

  /** For every history, with repeated starts and stops and resets at any moment, the reading is the
      total running time since the last reset. */
  lemma {:induction false} ReadingIsRunningTime(h: seq<Event>, now: nat)
    requires InOrder(h, now)
    ensures ReadTimer(Run(h), now) == RunningMicros(h, LastReset(h), now)
  {
    if h == [] {
      NeverStarted(now);
    } else {
      var before, e := h[..|h| - 1], h[|h| - 1];
      var t := e.at;
      ResetInPast(before, t);
      ReadingIsRunningTime(before, t);
      if e.act == Reset {
        PresentIsConstant(h, t, t, now);
      } else {
        PastIsFixed(h, LastReset(before), t);
        PresentIsConstant(h, LastReset(before), t, now);
      }
    }
  }

  lemma {:induction false} NeverStarted(until: nat)
    ensures RunningMicros([], 0, until) == 0
  {
    if until > 0 {
      NeverStarted(until - 1);
    }
  }
}
