/** The drivers that use the ticker and the deep-sleep lock: mbed_sleep_manager.c, Timer.cpp,
    Ticker.h, Ticker.cpp and SerialBase.cpp. Each method is tied to the machines of DeepSleep.dfy,
    Stopwatch.dfy and EventQueue.dfy, where the properties of whole runs are proved. */
module Drivers {
  import EQ = EventQueue
  import opened TickerQueue
  import DS = DeepSleep
  import SW = Stopwatch

  /** The static deep_sleep_lock. A call that would overflow or underflow does not return. */
  class SleepManager {
    var deepSleepLock: nat

    constructor ()
      ensures deepSleepLock == 0
    {
      deepSleepLock := 0;
    }

    method LockDeepSleep()
      requires deepSleepLock != DS.USHRT_MAX
      modifies this
      ensures deepSleepLock == old(deepSleepLock) + 1
    {
      deepSleepLock := deepSleepLock + 1;
    }

    method UnlockDeepSleep()
      requires deepSleepLock != 0
      modifies this
      ensures deepSleepLock == old(deepSleepLock) - 1
    {
      deepSleepLock := deepSleepLock - 1;
    }
  }

  class Timer {
    const queue: TickerQueue
    const sleep: SleepManager
    const lockDeepsleep: bool
    var running: bool
    var start: nat
    var time: nat

    /** The clock was read just now: unless a whole wrap went by, it shows the true time. */
    twostate predicate ClockRead()
      requires queue.ValidClock()
      reads queue, queue.hw
    {
      queue.hw.now < old(queue.last) + queue.hw.Modulus() ==> queue.presentTime == queue.TrueTime()
    }

    ghost predicate Valid()
      reads this, queue, queue.hw, queue.nodes
    {
      queue.Valid() && start <= queue.presentTime
    }

    function State(): SW.State
      reads this
    {
      SW.State(running, start, time)
    }

    function Client(): DS.Client
      reads this
    {
      DS.TimerClient(running, lockDeepsleep)
    }

    constructor (queue: TickerQueue, sleep: SleepManager, lockDeepsleep: bool)
      requires queue.Valid()
      modifies queue`last, queue`tickLastRead, queue`tickRemainder, queue`presentTime, queue.hw`now
      ensures this.queue == queue && this.sleep == sleep && this.lockDeepsleep == lockDeepsleep
      ensures Valid() && State() == SW.Apply(SW.State(false, 0, 0), SW.Reset, queue.presentTime)
      ensures DS.Holds(Client()) == 0
    {
      this.queue, this.sleep, this.lockDeepsleep := queue, sleep, lockDeepsleep;
      running, start, time := false, 0, 0;
      new;
      Reset();
    }

    method Start()
      requires Valid() && DS.Call(Client(), sleep.deepSleepLock, DS.TimerStart).Ok?
      modifies this`running, this`start, sleep
      modifies queue`last, queue`tickLastRead, queue`tickRemainder, queue`presentTime, queue.hw`now
      ensures Valid() && old(queue.presentTime) <= queue.presentTime
      ensures !old(running) ==> ClockRead()
      ensures State() == SW.Apply(old(State()), SW.Start, queue.presentTime)
      ensures DS.Ok(Client(), sleep.deepSleepLock) == DS.Call(old(Client()), old(sleep.deepSleepLock), DS.TimerStart)
    {
      if !running {
        if lockDeepsleep {
          sleep.LockDeepSleep();
        }
        start := queue.ReadPresent();
        running := true;
      }
    }

    method Stop()
      requires Valid() && DS.Call(Client(), sleep.deepSleepLock, DS.TimerStop).Ok?
      modifies this`running, this`time, sleep
      modifies queue`last, queue`tickLastRead, queue`tickRemainder, queue`presentTime, queue.hw`now
      ensures Valid() && old(queue.presentTime) <= queue.presentTime
      ensures old(running) ==> ClockRead()
      ensures State() == SW.Apply(old(State()), SW.Stop, queue.presentTime)
      ensures DS.Ok(Client(), sleep.deepSleepLock) == DS.Call(old(Client()), old(sleep.deepSleepLock), DS.TimerStop)
    {
      var slice := SliceTime();
      time := time + slice;
      if running {
        if lockDeepsleep {
          sleep.UnlockDeepSleep();
        }
      }
      running := false;
    }

    method SliceTime() returns (slice: nat)
      requires Valid()
      modifies queue`last, queue`tickLastRead, queue`tickRemainder, queue`presentTime, queue.hw`now
      ensures Valid() && old(queue.presentTime) <= queue.presentTime
      ensures running ==> ClockRead()
      ensures slice == SW.Slice(State(), queue.presentTime)
    {
      slice := 0;
      if running {
        var now := queue.ReadPresent();
        slice := now - start;
      }
    }

    method ReadHighResolutionUs() returns (us: nat)
      requires Valid()
      modifies queue`last, queue`tickLastRead, queue`tickRemainder, queue`presentTime, queue.hw`now
      ensures Valid() && old(queue.presentTime) <= queue.presentTime
      ensures running ==> ClockRead()
      ensures us == SW.ReadTimer(State(), queue.presentTime)
    {
      var slice := SliceTime();
      us := time + slice;
    }

    method Reset()
      requires queue.Valid()
      modifies this`start, this`time
      modifies queue`last, queue`tickLastRead, queue`tickRemainder, queue`presentTime, queue.hw`now
      ensures Valid() && old(queue.presentTime) <= queue.presentTime
      ensures ClockRead()
      ensures State() == SW.Apply(old(State()), SW.Reset, queue.presentTime)
    {
      start := queue.ReadPresent();
      time := 0;
    }
  }

  class Ticker {
    const queue: TickerQueue
    const sleep: SleepManager
    const lockDeepsleep: bool
    /** The event handed to the queue, and the identifier the queue gives back. */
    const event: Event
    const id: nat
    var delay: nat
    /** `_function` is not null. */
    var hasFunction: bool

    constructor (queue: TickerQueue, sleep: SleepManager, lockDeepsleep: bool, id: nat)
      ensures this.queue == queue && this.sleep == sleep && this.lockDeepsleep == lockDeepsleep
      ensures this.id == id && fresh(event) && DS.Holds(Client()) == 0
    {
      this.queue, this.sleep, this.lockDeepsleep, this.id := queue, sleep, lockDeepsleep, id;
      event := new Event();
      delay, hasFunction := 0, false;
    }

    function Client(): DS.Client
      reads this
    {
      DS.TickerClient(hasFunction, lockDeepsleep)
    }

    /** Deep sleep is unlocked only if a callback was set. */
    method Detach() returns (ghost k: nat)
      requires queue.Valid() && DS.Call(Client(), sleep.deepSleepLock, DS.TickerDetach).Ok?
      modifies this`hasFunction, sleep, queue.hw, queue.nodes`next
      modifies queue`head, queue`last, queue`tickLastRead, queue`tickRemainder, queue`presentTime,
               queue`nodes, queue`log
      ensures queue.Valid() && event !in queue.nodes && !hasFunction
      ensures if event in old(queue.nodes)
              then k < |old(queue.nodes)| && old(queue.nodes)[k] == event
                   && queue.log == old(queue.log) + [EQ.Remove(k)]
              else queue.log == old(queue.log)
      ensures DS.Ok(Client(), sleep.deepSleepLock) == DS.Call(old(Client()), old(sleep.deepSleepLock), DS.TickerDetach)
    {
      hide TickerQueue.Valid, EQ.Without;
      k := queue.RemoveEvent(event);
      if hasFunction && lockDeepsleep {
        sleep.UnlockDeepSleep();
      }
      hasFunction := false;
    }

    /** attach_us: lock for the first callback, then (re)start the period from now. */
    method AttachUs(nonNull: bool, t: nat) returns (ghost k: nat, ghost at: nat)
      requires queue.Valid() && DS.Call(Client(), sleep.deepSleepLock, DS.TickerAttach(nonNull)).Ok?
      modifies this`hasFunction, this`delay, sleep, queue.hw, queue.nodes`next, event
      modifies queue`head, queue`last, queue`tickLastRead, queue`tickRemainder, queue`presentTime,
               queue`nodes, queue`log
      ensures queue.Valid() && event in queue.nodes && delay == t && hasFunction == nonNull
      ensures event.timestamp == t + at && old(queue.presentTime) <= at <= queue.presentTime
      ensures queue.hw.now < old(queue.last) + queue.hw.Modulus() ==> old(queue.TrueTime()) <= at <= queue.TrueTime()
      ensures if event in old(queue.nodes)
              then k < |old(queue.nodes)| && old(queue.nodes)[k] == event
                   && queue.log == old(queue.log) + [EQ.Remove(k)] + [EQ.Insert(EQ.Entry(t + at, id))]
              else queue.log == old(queue.log) + [EQ.Insert(EQ.Entry(t + at, id))]
      ensures DS.Ok(Client(), sleep.deepSleepLock)
              == DS.Call(old(Client()), old(sleep.deepSleepLock), DS.TickerAttach(nonNull))
    {
      hide TickerQueue.Valid, TickerQueue.TrueTime;
      if !hasFunction && lockDeepsleep {
        sleep.LockDeepSleep();
      }
      hasFunction := nonNull;
      k, at := Setup(t);
    }

    method Setup(t: nat) returns (ghost k: nat, ghost at: nat)
      requires queue.Valid()
      modifies this`delay, queue.hw, queue.nodes`next, event
      modifies queue`head, queue`last, queue`tickLastRead, queue`tickRemainder, queue`presentTime,
               queue`nodes, queue`log
      ensures queue.Valid() && event in queue.nodes && delay == t
      ensures event.timestamp == t + at && old(queue.presentTime) <= at <= queue.presentTime
      ensures queue.hw.now < old(queue.last) + queue.hw.Modulus() ==> old(queue.TrueTime()) <= at <= queue.TrueTime()
      ensures if event in old(queue.nodes)
              then k < |old(queue.nodes)| && old(queue.nodes)[k] == event
                   && queue.log == old(queue.log) + [EQ.Remove(k)] + [EQ.Insert(EQ.Entry(t + at, id))]
              else queue.log == old(queue.log) + [EQ.Insert(EQ.Entry(t + at, id))]
    {
      hide TickerQueue.Valid, TickerQueue.Scheduled, TickerQueue.TrueTime, TickerQueue.Contents, Hardware.Modulus;
      hide EQ.InsertAt, EQ.InsertPos, EQ.Without;
      k := queue.RemoveEvent(event);
      delay := t;
      var now := queue.ReadPresent();
      at := now;
      queue.InsertEventUs(event, delay + now, id);
    }

    /** handler, up to the callback: called with the event just taken off the queue. The next run
        is queued relative to the deadline, not to the present. */
    method Handler() returns (invoke: bool)
      requires queue.Valid() && event !in queue.nodes
      modifies queue.hw, queue.nodes`next, event
      modifies queue`head, queue`last, queue`tickLastRead, queue`tickRemainder, queue`presentTime,
               queue`nodes, queue`log
      ensures queue.Valid() && event in queue.nodes && invoke == hasFunction
      ensures event.timestamp == old(event.timestamp) + delay
      ensures queue.log == old(queue.log) + [EQ.Insert(EQ.Entry(old(event.timestamp) + delay, id))]
    {
      hide TickerQueue.Valid, TickerQueue.Scheduled, EQ.InsertAt, EQ.InsertPos;
      queue.InsertEventUs(event, event.timestamp + delay, id);
      invoke := hasFunction;
    }
  }

  /** The two interrupt slots of a serial port. */
  class SerialBase {
    const sleep: SleepManager
    /** Slot 0 is RxIrq, slot 1 TxIrq; true when a callback is set. */
    const irq: array<bool>
    /** serial_irq_set: which interrupts the peripheral raises. */
    const enabled: array<bool>

    ghost predicate Valid()
      reads this, irq, enabled
    {
      irq.Length == enabled.Length == 2 && irq != enabled && irq[..] == enabled[..]
    }

    function Client(): DS.Client
      requires irq.Length == 2
      reads this, irq
    {
      DS.SerialClient(irq[0], irq[1])
    }

    constructor (sleep: SleepManager)
      ensures this.sleep == sleep && Valid() && fresh(irq) && fresh(enabled)
      ensures DS.Holds(Client()) == 0
    {
      this.sleep := sleep;
      irq := new bool[2](_ => false);
      enabled := new bool[2](_ => false);
    }

    method Attach(nonNull: bool, irqType: DS.Irq)
      requires Valid() && DS.Call(Client(), sleep.deepSleepLock, DS.SerialAttach(irqType, nonNull)).Ok?
      modifies irq, enabled, sleep
      ensures Valid()
      ensures irq[..] == if irqType == DS.RxIrq then [nonNull, old(irq[1])] else [old(irq[0]), nonNull]
      ensures DS.Ok(Client(), sleep.deepSleepLock)
              == DS.Call(old(Client()), old(sleep.deepSleepLock), DS.SerialAttach(irqType, nonNull))
    {
      var slot := if irqType == DS.RxIrq then 0 else 1;
      if nonNull {
        if !irq[slot] {
          sleep.LockDeepSleep();
        }
        irq[slot] := true;
        enabled[slot] := true;
      } else {
        if irq[slot] {
          sleep.UnlockDeepSleep();
        }
        irq[slot] := false;
        enabled[slot] := false;
      }
    }

    /** The destructor gives back every lock of this port and no other. */
    method Destroy()
      requires Valid() && DS.Holds(Client()) <= sleep.deepSleepLock
      modifies irq, enabled, sleep
      ensures Valid() && DS.Holds(Client()) == 0
      ensures sleep.deepSleepLock == old(sleep.deepSleepLock) - old(DS.Holds(Client()))
    {
      var i := 0;
      while i < 2
        invariant 0 <= i <= 2 && Valid()
        invariant DS.Holds(Client()) <= sleep.deepSleepLock
        invariant old(DS.Holds(Client())) - DS.Holds(Client()) == old(sleep.deepSleepLock) - sleep.deepSleepLock
        invariant forall j :: 0 <= j < i ==> !irq[j]
      {
        var irqType := if i == 0 then DS.RxIrq else DS.TxIrq;
        DS.CallBalance(Client(), sleep.deepSleepLock, DS.SerialAttach(irqType, false));
        Attach(false, irqType);
        i := i + 1;
      }
    }
  }
}
