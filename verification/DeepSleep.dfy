/** Deep-sleep locking: the counter of mbed-os/hal/mbed_sleep_manager.c and the three kinds of
    client that hold it, as a machine over values. Drivers.dfy has the classes. */
module DeepSleep {

  const USHRT_MAX: nat := 65535

  /** What each client remembers about itself. `locks` is false for the low-power variants. */
  datatype Client =
    | TimerClient(running: bool, locks: bool)
    | TickerClient(attached: bool, locks: bool)
    | SerialClient(rx: bool, tx: bool)

  datatype Irq = RxIrq | TxIrq

  datatype Op =
    | TimerStart
    | TimerStop
    | TickerAttach(nonNull: bool)
    | TickerDetach
    | SerialAttach(irq: Irq, nonNull: bool)

  /** `Stopped` is a call of error(), which does not return. */
  datatype Outcome = Ok(client: Client, lock: nat) | Stopped(underflow: bool)

  function Lock(c: Client, lock: nat): Outcome {
    if lock == USHRT_MAX then Stopped(false) else Ok(c, lock + 1)
  }

  function Unlock(c: Client, lock: nat): Outcome {
    if lock == 0 then Stopped(true) else Ok(c, lock - 1)
  }

  /** One call on one client, with the branches of Timer.cpp, Ticker.h, Ticker.cpp and
      SerialBase.cpp. A call that does not fit the client leaves everything as it is. */
  function Call(c: Client, lock: nat, op: Op): Outcome {
    match (c, op)
    case (TimerClient(running, locks), TimerStart) =>
      if !running && locks then Lock(TimerClient(true, locks), lock) else Ok(TimerClient(true, locks), lock)
    case (TimerClient(running, locks), TimerStop) =>
      if running && locks then Unlock(TimerClient(false, locks), lock) else Ok(TimerClient(false, locks), lock)
    case (TickerClient(attached, locks), TickerAttach(nonNull)) =>
      if !attached && locks then Lock(TickerClient(nonNull, locks), lock) else Ok(TickerClient(nonNull, locks), lock)
    case (TickerClient(attached, locks), TickerDetach) =>
      if attached && locks then Unlock(TickerClient(false, locks), lock) else Ok(TickerClient(false, locks), lock)
    case (SerialClient(rx, tx), SerialAttach(irq, nonNull)) =>
      var was := if irq.RxIrq? then rx else tx;
      var c' := if irq.RxIrq? then SerialClient(nonNull, tx) else SerialClient(rx, nonNull);
      if nonNull && !was then Lock(c', lock)
      else if !nonNull && was then Unlock(c', lock)
      else Ok(c', lock)
    case _ => Ok(c, lock)
  }

  /** The locks a client ought to hold: a running Timer, an attached Ticker, each attached serial
      interrupt. */
  function Holds(c: Client): nat {
    match c
    case TimerClient(running, locks) => if running && locks then 1 else 0
    case TickerClient(attached, locks) => if attached && locks then 1 else 0
    case SerialClient(rx, tx) => (if rx then 1 else 0) + (if tx then 1 else 0)
  }

  /** Attaching a null callback to a locking Ticker. */
  function Leak(c: Client, op: Op): nat {
    if c.TickerClient? && c.locks && op == TickerAttach(false) then 1 else 0
  }

  /** A call changes the counter by what the client's holding changes, plus the leak. It can only
      underflow if the counter is less than what the client holds. */
  lemma CallBalance(c: Client, lock: nat, op: Op)
    ensures var r := Call(c, lock, op);
            && (r.Ok? ==> r.lock + Holds(c) == lock + Holds(r.client) + Leak(c, op))
            && (r == Stopped(true) ==> lock < Holds(c))
            && (r == Stopped(false) ==> lock == USHRT_MAX)
  {
  }

  // ---------------------------------------------------------------- any number of clients

  datatype System = System(clients: seq<Client>, lock: nat, leaked: nat) | Halted(underflow: bool)

  datatype Event = Event(who: nat, op: Op)

  function Step(s: System, e: Event): System {
    if s.Halted? || e.who >= |s.clients| then s
    else
      match Call(s.clients[e.who], s.lock, e.op)
      case Ok(c, lock) => System(s.clients[e.who := c], lock, s.leaked + Leak(s.clients[e.who], e.op))
      case Stopped(underflow) => Halted(underflow)
  }

  function Run(s: System, events: seq<Event>): System {
    if events == [] then s else Step(Run(s, events[..|events| - 1]), events[|events| - 1])
  }

  function TotalHolds(clients: seq<Client>): nat {
    if clients == [] then 0 else TotalHolds(clients[..|clients| - 1]) + Holds(clients[|clients| - 1])
  }

  lemma {:induction false} TotalHoldsUpdate(clients: seq<Client>, i: nat, c: Client)
    requires i < |clients|
    ensures TotalHolds(clients[i := c]) + Holds(clients[i]) == TotalHolds(clients) + Holds(c)
    ensures Holds(clients[i]) <= TotalHolds(clients)
  {
    var n := |clients| - 1;
    if i == n {
      assert clients[i := c][..n] == clients[..n];
    } else {
      TotalHoldsUpdate(clients[..n], i, c);
      assert clients[i := c][..n] == clients[..n][i := c];
    }
  }

  /** In every run of any number of clients the counter is what they hold plus what null attaches
      leaked, and it never underflows. */
  lemma {:induction false} LockConservation(s: System, events: seq<Event>)
    requires s.System? && s.lock == TotalHolds(s.clients) + s.leaked
    ensures var r := Run(s, events);
            && (r.System? ==> r.lock == TotalHolds(r.clients) + r.leaked && s.leaked <= r.leaked)
            && r != Halted(true)
  {
    if events != [] {
      LockConservation(s, events[..|events| - 1]);
      var m, e := Run(s, events[..|events| - 1]), events[|events| - 1];
      if m.System? && e.who < |m.clients| {
        var c := m.clients[e.who];
        CallBalance(c, m.lock, e.op);
        match Call(c, m.lock, e.op) {
          case Ok(c', _) => TotalHoldsUpdate(m.clients, e.who, c');
          case Stopped(_) => TotalHoldsUpdate(m.clients, e.who, c);
        }
      }
    }
  }

  /** No event of the history attaches a null callback to a locking Ticker. */
  ghost predicate NoNullAttach(s: System, events: seq<Event>)
    requires s.System?
  {
    forall i :: 0 <= i < |events| && events[i].who < |s.clients| ==> Leak(s.clients[events[i].who], events[i].op) == 0
  }

  /** The clients of a run stay of the kind they were. */
  lemma {:induction false} KindsStay(s: System, events: seq<Event>)
    requires s.System?
    ensures var r := Run(s, events);
            r.System? ==> |r.clients| == |s.clients|
                          && forall i, op :: 0 <= i < |s.clients| ==> Leak(r.clients[i], op) == Leak(s.clients[i], op)
  {
    if events != [] {
      KindsStay(s, events[..|events| - 1]);
    }
  }

  /** sleep_manager_can_deep_sleep. */
  predicate CanDeepSleep(s: System)
    requires s.System?
  {
    s.lock == 0
  }

  lemma {:induction false} LeaksCounted(s: System, events: seq<Event>)
    requires s.System? && s.leaked == 0
    ensures Run(s, events).System? ==> (Run(s, events).leaked == 0 <==> NoNullAttach(s, events))
  {
    if events != [] {
      var before := events[..|events| - 1];
      LeaksCounted(s, before);
      KindsStay(s, before);
      assert events == before + [events[|events| - 1]];
      assert forall i :: 0 <= i < |before| ==> events[i] == before[i];
      if Run(s, before).System? && NoNullAttach(s, before) {
        var e := events[|events| - 1];
        assert NoNullAttach(s, events) <==> (e.who < |s.clients| ==> Leak(s.clients[e.who], e.op) == 0);
      }
    }
  }

  /** Deep sleep is possible exactly when no client holds a lock and nobody ever attached a null
      callback to a locking Ticker; after one such call it never is again. */
  lemma DeepSleepExact(s: System, events: seq<Event>)
    requires s.System? && s.lock == 0 && s.leaked == 0 && TotalHolds(s.clients) == 0
    requires Run(s, events).System?
    ensures CanDeepSleep(Run(s, events))
            <==> TotalHolds(Run(s, events).clients) == 0 && NoNullAttach(s, events)
  {
    LockConservation(s, events);
    LeaksCounted(s, events);
  }
}
