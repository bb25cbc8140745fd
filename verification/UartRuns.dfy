/** UARTSerial under every interleaving: any number of threads inside write and read, one step at a
    time, with both interrupt routines striking between any two steps. */
module UartRuns {
  import opened Arithmetic
  import opened UartPort
  import opened CircularBuffer

  /** Where a thread stands in write. Enter, Wait: wanting the mutex. Head: the outer loop test.
      Check: is the buffer full? Fill: the inner loop test. Push: about to push. Kick: before the
      critical section. Done: returned. */
  datatype WPoint = WEnter | WHead | WCheck | WWait | WFill | WPush | WKick | WDone

  datatype RPoint = REnter | RCheck | RWait | RDrain | RPop | RArm | RDone | RFailed

  /** `places` records where in the stream of accepted bytes those of this call stand, `from` where
      in the stream of delivered bytes this call began to take. */
  datatype Pc =
    | Idle
    | Writing(w: WPoint, data: seq<Byte>, written: nat, places: seq<nat>)
    | Reading(r: RPoint, length: nat, got: seq<Byte>, from: nat)

  datatype Config = Config(caps: Caps, blocking: bool)

  datatype State = State(port: Port, threads: map<nat, Pc>, holder: Maybe)

  datatype Maybe = Nobody | Held(thread: nat)

  /** The first two start a call; Run lets a thread take its next step, in which the peripheral may
      take `n` bytes or give `bytes`; the last two are the interrupts. */
  datatype Step =
    | CallWrite(t: nat, data: seq<Byte>)
    | CallRead(t: nat, length: nat)
    | Run(t: nat, n: nat, bytes: seq<Byte>)
    | TxInterrupt(n: nat)
    | RxInterrupt(bytes: seq<Byte>)

  function PcOf(s: State, t: nat): Pc {
    if t in s.threads then s.threads[t] else Idle
  }

  predicate Finished(pc: Pc) {
    pc.Idle? || (pc.Writing? && pc.w.WDone?) || (pc.Reading? && (pc.r.RDone? || pc.r.RFailed?))
  }

  /** The points at which a thread owns the mutex. */
  predicate Locked(pc: Pc) {
    || (pc.Writing? && pc.w in {WHead, WCheck, WFill, WPush, WKick})
    || (pc.Reading? && pc.r in {RCheck, RDrain, RPop, RArm})
  }

  predicate Wants(pc: Pc) {
    || (pc.Writing? && pc.w in {WEnter, WWait})
    || (pc.Reading? && pc.r in {REnter, RWait})
  }

  /** What the calls return. */
  function WriteResult(pc: Pc): int
    requires pc.Writing?
  {
    if pc.data == [] then 0 else if pc.written != 0 then pc.written else -EAGAIN
  }

  predicate Enabled(c: Config, s: State, step: Step) {
    match step
    case CallWrite(t, _) => Finished(PcOf(s, t))
    case CallRead(t, _) => Finished(PcOf(s, t))
    case Run(t, n, bytes) =>
      && n <= |s.port.tx| && |s.port.rx| + |bytes| <= c.caps.rx
      && (Locked(PcOf(s, t)) || (Wants(PcOf(s, t)) && s.holder == Nobody))
    case TxInterrupt(n) => s.port.txIrq && n <= |s.port.tx|
    case RxInterrupt(bytes) => s.port.rxIrq && |s.port.rx| + |bytes| <= c.caps.rx
  }

  function At(s: State, t: nat, pc: Pc): State {
    s.(threads := s.threads[t := pc])
  }

  function Release(s: State, t: nat, pc: Pc): State {
    s.(threads := s.threads[t := pc], holder := Nobody)
  }

  function StepWrite(c: Config, s: State, t: nat, n: nat): State
    requires PcOf(s, t).Writing? && n <= |s.port.tx|
  {
    var pc := PcOf(s, t);
    match pc.w
    case WEnter => At(s, t, pc.(w := WHead)).(holder := Held(t))
    case WHead =>
      if pc.written < |pc.data| then At(s, t, pc.(w := WCheck)) else Release(s, t, pc.(w := WDone))
    case WCheck =>
      if |s.port.tx| == c.caps.tx then
        Release(s, t, pc.(w := if c.blocking then WWait else WDone))
      else
        At(s, t, pc.(w := WFill))
    case WWait => At(s, t, pc.(w := WCheck)).(holder := Held(t))
    case WFill =>
      if pc.written < |pc.data| && |s.port.tx| != c.caps.tx
      then At(s, t, pc.(w := WPush)) else At(s, t, pc.(w := WKick))
    case WPush =>
      if pc.written < |pc.data|
      then
        At(s, t, pc.(w := WFill, written := pc.written + 1, places := pc.places + [|s.port.accepted|]))
        .(port := PushTx(c.caps, s.port, pc.data[pc.written]))
      else s
    case WKick => At(s, t, pc.(w := WHead)).(port := Kick(s.port, n))
    case WDone => s
  }

  function StepRead(c: Config, s: State, t: nat, bytes: seq<Byte>): State
    requires PcOf(s, t).Reading? && |s.port.rx| + |bytes| <= c.caps.rx
  {
    var pc := PcOf(s, t);
    match pc.r
    case REnter => At(s, t, pc.(r := RCheck)).(holder := Held(t))
    case RCheck =>
      if s.port.rx == [] then
        Release(s, t, pc.(r := if c.blocking then RWait else RFailed))
      else
        At(s, t, pc.(r := RDrain, from := |s.port.delivered|))
    case RWait => At(s, t, pc.(r := RCheck)).(holder := Held(t))
    case RDrain =>
      if |pc.got| < pc.length && s.port.rx != []
      then At(s, t, pc.(r := RPop)) else At(s, t, pc.(r := RArm))
    case RPop =>
      if s.port.rx != []
      then At(s, t, pc.(r := RDrain, got := pc.got + [s.port.rx[0]])).(port := PopRx(s.port))
      else s
    case RArm => Release(s, t, pc.(r := RDone)).(port := Rearm(c.caps, s.port, bytes))
    case RDone => s
    case RFailed => s
  }

  function Next(c: Config, s: State, step: Step): State
    requires Enabled(c, s, step)
  {
    match step
    case CallWrite(t, data) => At(s, t, Writing(if data == [] then WDone else WEnter, data, 0, []))
    case CallRead(t, length) => At(s, t, Reading(if length == 0 then RDone else REnter, length, [], 0))
    case Run(t, n, bytes) =>
      if PcOf(s, t).Writing? then StepWrite(c, s, t, n) else StepRead(c, s, t, bytes)
    case TxInterrupt(n) => s.(port := TxIrq(s.port, n))
    case RxInterrupt(bytes) => s.(port := RxIrq(c.caps, s.port, bytes))
  }

  // ---------------------------------------------------------------- the invariant

  /** Byte streams in order: accepted is what was sent and what is buffered, received is what was
      delivered and what is buffered. */
  predicate Conserved(p: Port) {
    p.accepted == p.sent + p.tx && p.received == p.delivered + p.rx
  }

  predicate Fits(c: Caps, p: Port) {
    |p.tx| <= c.tx && |p.rx| <= c.rx && p.txFlag == p.txIrq && p.rxFlag == p.rxIrq
  }

  /** Between a write's full-buffer test and its kick, or a read's empty-buffer test and its rearm. */
  predicate InTxWindow(s: State) {
    s.holder.Held? && var pc := PcOf(s, s.holder.thread); pc.Writing? && pc.w in {WFill, WPush, WKick}
  }

  predicate InRxWindow(s: State) {
    s.holder.Held? && var pc := PcOf(s, s.holder.thread); pc.Reading? && pc.r in {RDrain, RPop, RArm}
  }

  /** The transmit interrupt is attached exactly when something waits to be sent, and the receive
      interrupt exactly when there is room, except while a thread is about to see to it. */
  predicate Attended(c: Caps, s: State) {
    && (s.port.txIrq ==> s.port.tx != [])
    && (s.port.tx != [] && !s.port.txIrq ==> InTxWindow(s))
    && (s.port.rxIrq ==> |s.port.rx| < c.rx)
    && (|s.port.rx| < c.rx && !s.port.rxIrq ==> InRxWindow(s))
  }

  /** The first `written` bytes of the data stand in the stream, in order, at these places. */
  predicate Placed(stream: seq<Byte>, data: seq<Byte>, written: nat, places: seq<nat>) {
    && |places| == written <= |data|
    && (forall i :: 0 <= i < written ==> places[i] < |stream| && stream[places[i]] == data[i])
    && (forall i, j :: 0 <= i < j < written ==> places[i] < places[j])
  }

  /** These bytes stand in the stream one after the other, beginning at `from`. */
  predicate Took(stream: seq<Byte>, from: nat, got: seq<Byte>) {
    from + |got| <= |stream| && stream[from..from + |got|] == got
  }

  predicate Grows(p: Port, q: Port) {
    p.accepted <= q.accepted && p.delivered <= q.delivered
  }

  /** What holds of one thread. */
  predicate ThreadOk(c: Config, p: Port, pc: Pc) {
    match pc
    case Idle => true
    case Writing(w, data, written, places) =>
      && written <= |data| && Placed(p.accepted, data, written, places) && (data == [] ==> w.WDone?)
      && (w.WPush? ==> written < |data| && |p.tx| < c.caps.tx)
      && (w in {WCheck, WWait} ==> written < |data|)
      && (w.WWait? ==> c.blocking)
      && (w.WDone? && c.blocking ==> written == |data|)
    case Reading(r, length, got, from) =>
      && |got| <= length && (length == 0 ==> r.RDone?)
      && (r in {REnter, RCheck, RWait, RFailed} ==> got == [])
      && (r.RFailed? ==> !c.blocking)
      && (r.RPop? ==> |got| < length && p.rx != [])
      && (r.RDrain? ==> got != [] || p.rx != [])
      && (r.RArm? || (r.RDone? && length > 0) ==> got != [])
      && (r in {RDrain, RPop, RArm} ==> Took(p.delivered, from, got) && from + |got| == |p.delivered|)
      && (r.RDone? && length > 0 ==> Took(p.delivered, from, got))
  }

  predicate MutexOk(s: State) {
    forall t :: t in s.threads ==> (Locked(s.threads[t]) <==> s.holder == Held(t))
  }

  predicate Inv(c: Config, s: State) {
    && Conserved(s.port) && Fits(c.caps, s.port) && Attended(c.caps, s)
    && MutexOk(s) && (s.holder.Held? ==> s.holder.thread in s.threads)
    && (forall t :: t in s.threads ==> ThreadOk(c, s.port, s.threads[t]))
  }

  function Init(): State {
    State(NewPort(), map[], Nobody)
  }

  /** A thread outside the mutex does not care what happens to the buffers. */
  lemma UnlockedStable(c: Config, p: Port, p': Port, pc: Pc)
    requires ThreadOk(c, p, pc) && !Locked(pc) && Grows(p, p')
    ensures ThreadOk(c, p', pc)
  {
  }

  /** The parts of `Attended` that speak of one direction, away from its window. */
  predicate TxSettled(p: Port) {
    p.txIrq <==> p.tx != []
  }

  predicate RxSettled(c: Caps, p: Port) {
    p.rxIrq <==> |p.rx| < c.rx
  }

  predicate SameRx(p: Port, q: Port) {
    p.rx == q.rx && p.rxIrq == q.rxIrq && p.rxFlag == q.rxFlag && p.received == q.received && p.delivered == q.delivered
  }

  predicate SameTx(p: Port, q: Port) {
    p.tx == q.tx && p.txIrq == q.txIrq && p.txFlag == q.txFlag && p.accepted == q.accepted && p.sent == q.sent
  }

  lemma TxIrqPort(c: Caps, p: Port, n: nat)
    requires Conserved(p) && Fits(c, p) && n <= |p.tx|
    ensures var q := TxIrq(p, n);
            && Conserved(q) && Fits(c, q) && SameRx(p, q) && |q.tx| <= |p.tx|
            && (p.txIrq ==> TxSettled(q)) && (!p.txIrq ==> !q.txIrq) && q.accepted == p.accepted
            && q.tx == p.tx[n..] && q.sent == p.sent + p.tx[..n]
  {
    assert p.tx == p.tx[..n] + p.tx[n..];
  }

  lemma RxIrqPort(c: Caps, p: Port, bytes: seq<Byte>)
    requires Conserved(p) && Fits(c, p) && |p.rx| + |bytes| <= c.rx
    ensures var q := RxIrq(c, p, bytes);
            && Conserved(q) && Fits(c, q) && SameTx(p, q) && p.delivered == q.delivered
            && p.rx <= q.rx
            && (p.rxIrq ==> RxSettled(c, q)) && (!p.rxIrq ==> !q.rxIrq)
  {
  }

  lemma KickPort(c: Caps, p: Port, n: nat)
    requires Conserved(p) && Fits(c, p) && n <= |p.tx| && (p.txIrq ==> p.tx != [])
    ensures var q := Kick(p, n);
            Conserved(q) && Fits(c, q) && SameRx(p, q) && TxSettled(q) && q.accepted == p.accepted
  {
    hide TxIrq, Conserved;
    TxIrqPort(c, p, n);
    KickConserves(c, p, n);
  }

  lemma KickConserves(c: Caps, p: Port, n: nat)
    requires Conserved(p) && Fits(c, p) && n <= |p.tx|
    ensures Conserved(Kick(p, n))
  {
    hide TxIrq;
    TxIrqPort(c, p, n);
  }

  lemma RearmPort(c: Caps, p: Port, bytes: seq<Byte>)
    requires Conserved(p) && Fits(c, p) && |p.rx| + |bytes| <= c.rx && (p.rxIrq ==> |p.rx| < c.rx)
    ensures var q := Rearm(c, p, bytes);
            Conserved(q) && Fits(c, q) && SameTx(p, q) && RxSettled(c, q) && q.delivered == p.delivered
  {
    hide RxIrq;
    RxIrqPort(c, p, bytes);
  }

  /** A push never meets a full buffer, so it never overwrites. */
  lemma PushPort(c: Caps, p: Port, b: Byte)
    requires Conserved(p) && Fits(c, p) && |p.tx| < c.tx
    ensures var q := PushTx(c, p, b);
            && Conserved(q) && Fits(c, q) && SameRx(p, q) && q.txIrq == p.txIrq
            && q.tx == p.tx + [b] && q.accepted == p.accepted + [b]
  {
    assert p.sent + (p.tx + [b]) == (p.sent + p.tx) + [b];
  }

  lemma PopPort(c: Caps, p: Port)
    requires Conserved(p) && Fits(c, p) && p.rx != []
    ensures var q := PopRx(p);
            && Conserved(q) && Fits(c, q) && SameTx(p, q) && q.rxIrq == p.rxIrq && |q.rx| < c.rx
            && q.delivered == p.delivered + [p.rx[0]]
  {
    assert p.rx == [p.rx[0]] + p.rx[1..];
  }

  lemma TakesNext(stream: seq<Byte>, from: nat, got: seq<Byte>, x: Byte)
    requires Took(stream, from, got) && from + |got| == |stream|
    ensures Took(stream + [x], from, got + [x])
  {
  }

  lemma PlacesNext(stream: seq<Byte>, data: seq<Byte>, written: nat, places: seq<nat>)
    requires Placed(stream, data, written, places) && written < |data|
    ensures Placed(stream + [data[written]], data, written + 1, places + [|stream|])
  {
  }

  lemma TxInterruptKeeps(c: Config, s: State, n: nat)
    requires Inv(c, s) && Enabled(c, s, TxInterrupt(n))
    ensures Inv(c, Next(c, s, TxInterrupt(n)))
  {
    hide TxIrq, Conserved;
    TxIrqPort(c.caps, s.port, n);
  }

  lemma RxInterruptKeeps(c: Config, s: State, bytes: seq<Byte>)
    requires Inv(c, s) && Enabled(c, s, RxInterrupt(bytes))
    ensures Inv(c, Next(c, s, RxInterrupt(bytes)))
  {
    hide RxIrq, Conserved;
    RxIrqPort(c.caps, s.port, bytes);
  }

  /** A step of thread t: enough to look at the port, at t, and at who owns the mutex. */
  lemma ThreadStepKeeps(c: Config, s: State, t: nat, s': State)
    requires Inv(c, s) && t in s.threads
    requires s'.threads == s.threads[t := PcOf(s', t)]
    requires Locked(PcOf(s, t)) || s.holder == Nobody
             || (s'.port == s.port && s'.holder == s.holder && !Locked(PcOf(s', t)))
    requires Locked(PcOf(s, t)) || s.holder == Nobody ==> s'.holder == if Locked(PcOf(s', t)) then Held(t) else Nobody
    requires Conserved(s'.port) && Fits(c.caps, s'.port) && Attended(c.caps, s')
    requires ThreadOk(c, s'.port, PcOf(s', t)) && Grows(s.port, s'.port)
    ensures Inv(c, s')
  {
    forall u | u in s'.threads && u != t
      ensures ThreadOk(c, s'.port, s'.threads[u]) && (Locked(s'.threads[u]) <==> s'.holder == Held(u))
    {
      if !Locked(s.threads[u]) {
        UnlockedStable(c, s.port, s'.port, s.threads[u]);
      }
    }
  }

  lemma WriterOk(c: Config, s: State, t: nat, n: nat)
    requires Inv(c, s) && PcOf(s, t).Writing? && n <= |s.port.tx|
    ensures var s' := StepWrite(c, s, t, n); ThreadOk(c, s'.port, PcOf(s', t))
  {
    hide Kick, PushSpec, Conserved, MutexOk, Attended, Placed;
    var pc := PcOf(s, t);
    if pc.w.WPush? {
      PlacesNext(s.port.accepted, pc.data, pc.written, pc.places);
    } else if pc.w.WKick? {
      KickStream(s.port, n);
    }
  }

  lemma WriteStepKeeps(c: Config, s: State, t: nat, n: nat, bytes: seq<Byte>)
    requires Inv(c, s) && Enabled(c, s, Run(t, n, bytes)) && PcOf(s, t).Writing? && c.caps.tx > 0
    ensures Inv(c, Next(c, s, Run(t, n, bytes)))
  {
    hide Kick, PushTx, Conserved, MutexOk, ThreadOk;
    var s', pc := StepWrite(c, s, t, n), PcOf(s, t);
    OwnerIs(c, s, t);
    WriterOk(c, s, t, n);
    PushHasRoom(c, s, t);
    if pc.w.WKick? {
      KickPort(c.caps, s.port, n);
    } else if pc.w.WPush? {
      PushPort(c.caps, s.port, pc.data[pc.written]);
    }
    ThreadStepKeeps(c, s, t, s');
  }

  /** Nobody fills the buffer between a writer's test and its push. */
  lemma PushHasRoom(c: Config, s: State, t: nat)
    requires Inv(c, s) && PcOf(s, t).Writing?
    ensures PcOf(s, t).w.WPush? ==> PcOf(s, t).written < |PcOf(s, t).data| && |s.port.tx| < c.caps.tx
  {
  }

  lemma PopHasByte(c: Config, s: State, t: nat)
    requires Inv(c, s) && PcOf(s, t).Reading?
    ensures PcOf(s, t).r.RPop? ==> s.port.rx != []
  {
  }

  lemma OwnerIs(c: Config, s: State, t: nat)
    requires Inv(c, s) && t in s.threads
    ensures Locked(PcOf(s, t)) <==> s.holder == Held(t)
  {
  }

  lemma ReaderOk(c: Config, s: State, t: nat, bytes: seq<Byte>)
    requires Inv(c, s) && PcOf(s, t).Reading? && |s.port.rx| + |bytes| <= c.caps.rx
    ensures var s' := StepRead(c, s, t, bytes); ThreadOk(c, s'.port, PcOf(s', t))
  {
    hide Conserved, MutexOk, Attended, Took;
    var pc := PcOf(s, t);
    if pc.r.RPop? {
      TakesNext(s.port.delivered, pc.from, pc.got, s.port.rx[0]);
    } else if pc.r.RCheck? {
      TookNothing(s.port.delivered);
    }
  }

  lemma TookNothing(stream: seq<Byte>)
    ensures Took(stream, |stream|, [])
  {
  }

  lemma ReadStepKeeps(c: Config, s: State, t: nat, n: nat, bytes: seq<Byte>)
    requires Inv(c, s) && Enabled(c, s, Run(t, n, bytes)) && PcOf(s, t).Reading? && c.caps.rx > 0
    ensures Inv(c, Next(c, s, Run(t, n, bytes)))
  {
    hide Rearm, PopRx, Conserved, MutexOk, ThreadOk;
    var s', pc := StepRead(c, s, t, bytes), PcOf(s, t);
    OwnerIs(c, s, t);
    ReaderOk(c, s, t, bytes);
    PopHasByte(c, s, t);
    if pc.r.RArm? {
      RearmPort(c.caps, s.port, bytes);
    } else if pc.r.RPop? {
      PopPort(c.caps, s.port);
    }
    ThreadStepKeeps(c, s, t, s');
  }

  lemma CallKeeps(c: Config, s: State, t: nat, pc: Pc)
    requires Inv(c, s) && Finished(PcOf(s, t)) && !Locked(pc) && ThreadOk(c, s.port, pc)
    ensures Inv(c, At(s, t, pc))
  {
    forall u | u in At(s, t, pc).threads && u != t ensures u in s.threads {
    }
  }

  lemma InvStep(c: Config, s: State, step: Step)
    requires Inv(c, s) && Enabled(c, s, step) && c.caps.tx > 0 && c.caps.rx > 0
    ensures Inv(c, Next(c, s, step))
  {
    match step
    case CallWrite(t, data) => CallKeeps(c, s, t, Writing(if data == [] then WDone else WEnter, data, 0, []));
    case CallRead(t, length) => CallKeeps(c, s, t, Reading(if length == 0 then RDone else REnter, length, [], 0));
    case Run(t, n, bytes) =>
      if PcOf(s, t).Writing? {
        WriteStepKeeps(c, s, t, n, bytes);
      } else {
        ReadStepKeeps(c, s, t, n, bytes);
      }
    case TxInterrupt(n) => TxInterruptKeeps(c, s, n);
    case RxInterrupt(bytes) => RxInterruptKeeps(c, s, bytes);
  }

  // ---------------------------------------------------------------- whole runs

  ghost predicate IsRun(c: Config, states: seq<State>, steps: seq<Step>) {
    && |states| == |steps| + 1 && states[0] == Init()
    && (forall i :: 0 <= i < |steps| ==>
          Enabled(c, states[i], steps[i]) && states[i + 1] == Next(c, states[i], steps[i]))
  }

  lemma {:induction false} InvHolds(c: Config, states: seq<State>, steps: seq<Step>, k: nat)
    requires c.caps.tx > 0 && c.caps.rx > 0
    requires IsRun(c, states, steps) && k < |states|
    ensures Inv(c, states[k])
  {
    if k > 0 {
      InvHolds(c, states, steps, k - 1);
      InvStep(c, states[k - 1], steps[k - 1]);
    }
  }

  /** No byte is lost, duplicated or reordered, in either direction, in any run: what write
      accepted is what was sent followed by what is buffered, and what the peripheral gave is what
      read delivered followed by what is buffered. */
  lemma ByteStreams(c: Config, states: seq<State>, steps: seq<Step>, k: nat)
    requires c.caps.tx > 0 && c.caps.rx > 0
    requires IsRun(c, states, steps) && k < |states|
    ensures var p := states[k].port;
            && p.accepted == p.sent + p.tx && |p.tx| <= c.caps.tx
            && p.received == p.delivered + p.rx && |p.rx| <= c.caps.rx
  {
    InvHolds(c, states, steps, k);
  }

  /** The overwriting branch of CircularBuffer::push is never taken. */
  lemma NeverOverwrites(c: Config, states: seq<State>, steps: seq<Step>, k: nat, t: nat)
    requires c.caps.tx > 0 && c.caps.rx > 0
    requires IsRun(c, states, steps) && k < |states|
    requires var pc := PcOf(states[k], t); pc.Writing? && pc.w.WPush?
    ensures var s, pc := states[k], PcOf(states[k], t);
            && pc.written < |pc.data|
            && PushTx(c.caps, s.port, pc.data[pc.written]).tx == s.port.tx + [pc.data[pc.written]]
  {
    InvHolds(c, states, steps, k);
  }

  /** Nobody waits in vain. Outside the short window in which a thread is about to see to it
      itself, the transmit interrupt is attached exactly when there is something to send, so any
      writer waiting on a full buffer will be served; and the receive interrupt exactly when there
      is room, so any reader waiting on an empty buffer will be. */
  lemma NoStall(c: Config, states: seq<State>, steps: seq<Step>, k: nat)
    requires c.caps.tx > 0 && c.caps.rx > 0
    requires IsRun(c, states, steps) && k < |states|
    ensures var s := states[k];
            && (!InTxWindow(s) ==> (s.port.txIrq <==> s.port.tx != []))
            && (!InRxWindow(s) ==> (s.port.rxIrq <==> |s.port.rx| < c.caps.rx))
    // an interrupt that finds the peripheral willing makes room for the writer, a byte for the reader
    ensures var s := states[k];
            && (!InTxWindow(s) && |s.port.tx| == c.caps.tx ==>
                  Enabled(c, s, TxInterrupt(1)) && |Next(c, s, TxInterrupt(1)).port.tx| < c.caps.tx)
            && (forall b :: !InRxWindow(s) && s.port.rx == [] ==>
                  Enabled(c, s, RxInterrupt([b])) && Next(c, s, RxInterrupt([b])).port.rx == [b])
  {
    InvHolds(c, states, steps, k);
  }

  /** How many steps the owner of the mutex can take before it leaves its window. */
  function WindowSteps(s: State): nat {
    if !s.holder.Held? then 0
    else
      match PcOf(s, s.holder.thread)
      case Writing(w, data, written, _) =>
        var left := if written <= |data| then 2 * (|data| - written) else 0;
        if w.WFill? then left + 2 else if w.WPush? then left + 1 else if w.WKick? then 1 else 0
      case Reading(r, length, got, _) =>
        var left := if |got| <= length then 2 * (length - |got|) else 0;
        if r.RDrain? then left + 2 else if r.RPop? then left + 1 else if r.RArm? then 1 else 0
      case Idle => 0
  }

  /** The windows are short: every step of the owner brings it nearer to the end, and interrupts
      cannot prolong it. */
  lemma WindowsEnd(c: Config, s: State, step: Step)
    requires Inv(c, s) && Enabled(c, s, step) && (InTxWindow(s) || InRxWindow(s))
    ensures step.Run? && step.t == s.holder.thread ==> WindowSteps(Next(c, s, step)) < WindowSteps(s)
    ensures !(step.Run? && step.t == s.holder.thread) ==> WindowSteps(Next(c, s, step)) == WindowSteps(s)
  {
    hide Inv, Kick, Rearm, PushTx, PopRx, TxIrq, RxIrq;
    InWindow(c, s);
    if step.Run? {
      OnlyOwnerRuns(c, s, step);
    }
  }

  lemma InWindow(c: Config, s: State)
    requires Inv(c, s) && (InTxWindow(s) || InRxWindow(s))
    ensures var pc := PcOf(s, s.holder.thread);
            && (pc.Writing? ==> pc.written <= |pc.data| && (pc.w.WPush? ==> pc.written < |pc.data|))
            && (pc.Reading? ==> |pc.got| <= pc.length && (pc.r.RPop? ==> |pc.got| < pc.length && s.port.rx != []))
  {
    hide Placed, Took, Conserved, Fits, Attended, MutexOk;
  }

  lemma OnlyOwnerRuns(c: Config, s: State, step: Step)
    requires Inv(c, s) && Enabled(c, s, step) && step.Run? && s.holder.Held?
    ensures step.t == s.holder.thread
  {
    hide ThreadOk, Conserved, Fits, Attended;
  }

  /** What must have been so of the port when a thread came to this point. */
  predicate Excused(c: Config, p: Port, pc: Pc) {
    match pc
    case Idle => true
    case Writing(w, data, written, _) =>
      && (w.WWait? ==> c.blocking && |p.tx| == c.caps.tx)
      && (w in {WKick, WDone} ==> written == |data| || |p.tx| == c.caps.tx)
    case Reading(r, length, got, _) =>
      && (r.RWait? ==> c.blocking && p.rx == [])
      && (r.RFailed? ==> !c.blocking && p.rx == [])
      && (r.RArm? ==> |got| == length || p.rx == [])
  }

  /** With step j thread t came to the point at which it still is, and could not go on. */
  ghost predicate CameTo(c: Config, states: seq<State>, t: nat, j: nat, k: nat)
    requires j < k < |states|
  {
    && PcOf(states[j], t) != PcOf(states[k], t)
    && (forall i :: j < i <= k ==> PcOf(states[i], t) == PcOf(states[k], t))
    && Excused(c, states[j].port, PcOf(states[k], t))
  }

  lemma WriteExcused(c: Config, s: State, t: nat, n: nat)
    requires PcOf(s, t).Writing? && n <= |s.port.tx| && PcOf(s, t).written <= |PcOf(s, t).data|
    ensures var pc' := PcOf(StepWrite(c, s, t, n), t); pc' != PcOf(s, t) ==> pc'.Writing? && Excused(c, s.port, pc')
  {
    hide Kick, PushTx;
  }

  lemma ReadExcused(c: Config, s: State, t: nat, bytes: seq<Byte>)
    requires PcOf(s, t).Reading? && |s.port.rx| + |bytes| <= c.caps.rx && |PcOf(s, t).got| <= PcOf(s, t).length
    ensures var pc, pc' := PcOf(s, t), PcOf(StepRead(c, s, t, bytes), t);
            && (pc' != pc ==> pc'.Reading? && Excused(c, s.port, pc'))
            && (pc' != pc && pc'.r.RDone? ==> pc.r.RArm? && pc.got == pc'.got && pc.length == pc'.length)
  {
    hide Rearm, PopRx;
  }

  lemma Lengths(c: Config, s: State, t: nat)
    requires Inv(c, s)
    ensures PcOf(s, t).Writing? ==> PcOf(s, t).written <= |PcOf(s, t).data|
    ensures PcOf(s, t).Reading? ==> |PcOf(s, t).got| <= PcOf(s, t).length
  {
    hide Placed, Took, Conserved, Fits, Attended, MutexOk;
  }

  /** Whoever goes on is excused; and a read is done only after it was done copying. */
  lemma StepExcused(c: Config, s: State, step: Step, t: nat)
    requires Inv(c, s) && Enabled(c, s, step) && PcOf(Next(c, s, step), t) != PcOf(s, t)
    ensures Excused(c, s.port, PcOf(Next(c, s, step), t))
    ensures var pc, pc' := PcOf(s, t), PcOf(Next(c, s, step), t);
            pc'.Reading? && pc'.r.RDone? && pc'.length > 0 ==>
              pc.Reading? && pc.r.RArm? && pc.got == pc'.got && pc.length == pc'.length
  {
    Lengths(c, s, t);
    hide Inv, StepWrite, StepRead, TxIrq, RxIrq;
    if step.Run? && step.t == t {
      if PcOf(s, t).Writing? {
        WriteExcused(c, s, t, step.n);
      } else {
        ReadExcused(c, s, t, step.bytes);
      }
    } else if step.Run? {
      OthersStay(c, s, step, t);
    }
  }

  lemma OthersStay(c: Config, s: State, step: Step, t: nat)
    requires Enabled(c, s, step) && step.Run? && step.t != t
    ensures PcOf(Next(c, s, step), t) == PcOf(s, t)
  {
    hide Kick, Rearm, PushTx, PopRx;
  }

  /** In every run, a thread that waits, gives up, or stops copying had cause to when it did: it was
      done, or the buffer was full, or empty. */
  lemma {:induction false} EveryStopExcused(c: Config, states: seq<State>, steps: seq<Step>, k: nat, t: nat)
    requires c.caps.tx > 0 && c.caps.rx > 0
    requires IsRun(c, states, steps) && k < |states|
    ensures PcOf(states[k], t).Idle? || exists j :: 0 <= j < k && CameTo(c, states, t, j, k)
  {
    if k > 0 {
      hide Inv, Enabled, Next, Excused;
      EveryStopExcused(c, states, steps, k - 1, t);
      InvHolds(c, states, steps, k - 1);
      if PcOf(states[k], t) != PcOf(states[k - 1], t) {
        StepExcused(c, states[k - 1], steps[k - 1], t);
        assert CameTo(c, states, t, k - 1, k);
      } else if !PcOf(states[k], t).Idle? {
        var j :| 0 <= j < k - 1 && CameTo(c, states, t, j, k - 1);
        assert CameTo(c, states, t, j, k);
      }
    }
  }

  /** A read has taken all it asked for, or the buffer was empty when it had taken what it did. */
  ghost predicate TookAll(states: seq<State>, t: nat, j: nat, k: nat)
    requires j < k < |states|
  {
    var pc := PcOf(states[k], t);
    && pc.Reading? && (|pc.got| == pc.length || states[j].port.rx == [])
    && (forall i :: j < i <= k ==>
          var q := PcOf(states[i], t); q.Reading? && q.got == pc.got && q.length == pc.length)
  }

  lemma TookAllNow(states: seq<State>, t: nat, k: nat)
    requires 0 < k < |states| && PcOf(states[k], t).Reading?
    requires |PcOf(states[k], t).got| == PcOf(states[k], t).length || states[k - 1].port.rx == []
    ensures TookAll(states, t, k - 1, k)
  {
  }

  lemma TookAllStays(states: seq<State>, t: nat, j: nat, k: nat)
    requires j < k - 1 && k < |states| && TookAll(states, t, j, k - 1)
    requires var p, q := PcOf(states[k - 1], t), PcOf(states[k], t);
             q.Reading? && p.Reading? && q.got == p.got && q.length == p.length
    ensures TookAll(states, t, j, k)
  {
  }

  lemma {:induction false} ReadTakesAll(c: Config, states: seq<State>, steps: seq<Step>, k: nat, t: nat)
    requires c.caps.tx > 0 && c.caps.rx > 0
    requires IsRun(c, states, steps) && k < |states|
    requires var pc := PcOf(states[k], t); pc.Reading? && (pc.r.RArm? || (pc.r.RDone? && pc.length > 0))
    ensures exists j :: 0 <= j < k && TookAll(states, t, j, k)
  {
    if k > 0 {
      hide Inv, Enabled, Next, TookAll;
      InvHolds(c, states, steps, k - 1);
      var before, now := PcOf(states[k - 1], t), PcOf(states[k], t);
      if before != now {
        StepExcused(c, states[k - 1], steps[k - 1], t);
      }
      if before != now && now.r.RArm? {
        TookAllNow(states, t, k);
      } else {
        ReadTakesAll(c, states, steps, k - 1, t);
        var j :| 0 <= j < k - 1 && TookAll(states, t, j, k - 1);
        TookAllStays(states, t, j, k);
      }
    }
  }

  /** What the calls return: a blocking write takes all its data, a write that returns -EAGAIN took
      none; a read that returns takes at least one byte and no more than asked, unless asked for
      none or failing without blocking. */
  lemma Results(c: Config, states: seq<State>, steps: seq<Step>, k: nat, t: nat)
    requires c.caps.tx > 0 && c.caps.rx > 0
    requires IsRun(c, states, steps) && k < |states|
    ensures var pc := PcOf(states[k], t);
            && (pc.Writing? && pc.w.WDone? ==>
                  && -EAGAIN <= WriteResult(pc) <= |pc.data|
                  && (c.blocking ==> WriteResult(pc) == |pc.data|)
                  && (WriteResult(pc) < 0 ==> pc.written == 0))
            && (pc.Reading? && pc.r.RDone? && pc.length > 0 ==> 1 <= |pc.got| <= pc.length)
            && (pc.Reading? && pc.r.RFailed? ==> !c.blocking && pc.got == [])
    // a read returns bytes that stand next to each other in the stream of all delivered ones
    ensures var pc := PcOf(states[k], t);
            pc.Reading? && pc.r.RDone? && pc.length > 0 ==> Took(states[k].port.delivered, pc.from, pc.got)
    // at any moment the bytes of a write that were accepted are its first ones, in order
    ensures var pc := PcOf(states[k], t);
            pc.Writing? ==> Placed(states[k].port.accepted, pc.data, pc.written, pc.places)
    // and it took all it was asked for, or all there was
    ensures var pc := PcOf(states[k], t);
            pc.Reading? && pc.r.RDone? && pc.length > 0 ==> exists j :: 0 <= j < k && TookAll(states, t, j, k)
    // a read fails or waits only at an empty buffer, a write stops short or waits only at a full one
    ensures PcOf(states[k], t).Idle? || exists j :: 0 <= j < k && CameTo(c, states, t, j, k)
  {
    hide Placed, Took, IsRun, TookAll, CameTo;
    InvHolds(c, states, steps, k);
    EveryStopExcused(c, states, steps, k, t);
    var pc := PcOf(states[k], t);
    if pc.Reading? && pc.r.RDone? && pc.length > 0 {
      ReadTakesAll(c, states, steps, k, t);
    }
  }
}
