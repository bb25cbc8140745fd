/** The interrupt-driven serial port of mbed-os/drivers/UARTSerial.cpp: its two ring buffers, its
    interrupt routines and the critical sections of write and read. UartRuns.dfy interleaves them
    with threads. */
module UartPort {
  import opened Arithmetic
  import opened CircularBuffer

  const EAGAIN: int := 11

  /** The shared state. `txIrq` and `rxIrq` say which interrupt routines are attached to the
      peripheral, the flags what the driver believes. The four streams record all traffic. */
  datatype Port = Port(
    tx: seq<Byte>, rx: seq<Byte>,
    txIrq: bool, rxIrq: bool, txFlag: bool, rxFlag: bool,
    accepted: seq<Byte>, sent: seq<Byte>, received: seq<Byte>, delivered: seq<Byte>)

  datatype Caps = Caps(tx: nat, rx: nat)

  function NewPort(): Port {
    Port([], [], false, true, false, true, [], [], [], [])
  }

  /** tx_irq: the peripheral takes n bytes before it is not writeable or the buffer is empty. */
  function TxIrq(p: Port, n: nat): Port
    requires n <= |p.tx|
  {
    var q := p.(tx := p.tx[n..], sent := p.sent + p.tx[..n]);
    if q.txFlag && q.tx == [] then q.(txIrq := false, txFlag := false) else q
  }

  /** rx_irq: the peripheral yields `bytes` before it is not readable or the buffer is full. */
  function RxIrq(caps: Caps, p: Port, bytes: seq<Byte>): Port
    requires |p.rx| + |bytes| <= caps.rx
  {
    var q := p.(rx := p.rx + bytes, received := p.received + bytes);
    if q.rxFlag && |q.rx| == caps.rx then q.(rxIrq := false, rxFlag := false) else q
  }

  /** The critical section that ends a round of write. */
  function Kick(p: Port, n: nat): Port
    requires n <= |p.tx|
  {
    if p.txFlag then p
    else
      var q := TxIrq(p, n);
      if q.tx != [] then q.(txIrq := true, txFlag := true) else q
  }

  /** The critical section that ends read. */
  function Rearm(caps: Caps, p: Port, bytes: seq<Byte>): Port
    requires |p.rx| + |bytes| <= caps.rx
  {
    if p.rxFlag then p
    else
      var q := RxIrq(caps, p, bytes);
      if |q.rx| < caps.rx then q.(rxIrq := true, rxFlag := true) else q
  }

  /** The driver knows whether its transmit interrupt is attached, and it never is in vain. */
  predicate TxReady(p: Port) {
    p.txFlag == p.txIrq && (p.txIrq ==> p.tx != [])
  }

  /** Sending moves bytes from the buffer to the wire, and what cannot be sent now is left to the
      transmit interrupt. */
  lemma KickStream(p: Port, n: nat)
    requires n <= |p.tx|
    ensures var q := Kick(p, n);
            && q.sent + q.tx == p.sent + p.tx && q.accepted == p.accepted
            && (TxReady(p) ==> TxReady(q) && (q.txIrq <==> q.tx != []))
  {
    assert p.tx == p.tx[..n] + p.tx[n..];
  }

  function PushTx(caps: Caps, p: Port, b: Byte): Port {
    p.(tx := PushSpec(caps.tx, p.tx, b), accepted := p.accepted + [b])
  }

  function PopRx(p: Port): Port
    requires p.rx != []
  {
    p.(rx := p.rx[1..], delivered := p.delivered + [p.rx[0]])
  }

  /** After a read took these bytes from the front of the buffer. */
  function Taken(p: Port, taken: seq<Byte>): Port
    requires |taken| <= |p.rx|
  {
    p.(rx := p.rx[|taken|..], delivered := p.delivered + taken)
  }

  class UARTSerial {
    const txbuf: CircularBuffer<Byte>
    const rxbuf: CircularBuffer<Byte>
    var txIrqEnabled: bool
    var rxIrqEnabled: bool
    /** The callbacks set in SerialBase. */
    var txAttached: bool
    var rxAttached: bool
    ghost var accepted: seq<Byte>
    ghost var sent: seq<Byte>
    ghost var received: seq<Byte>
    ghost var delivered: seq<Byte>
    /** How often the peripheral refused a byte, or had none to give. */
    ghost var refusals: nat

    ghost predicate Valid()
      reads this, txbuf, rxbuf
    {
      txbuf != rxbuf && txbuf.pool != rxbuf.pool && txbuf.Valid() && rxbuf.Valid()
    }

    ghost function View(): Port
      requires Valid()
      reads this, txbuf, rxbuf, txbuf.pool, rxbuf.pool
    {
      Port(txbuf.Contents(), rxbuf.Contents(), txAttached, rxAttached, txIrqEnabled, rxIrqEnabled,
           accepted, sent, received, delivered)
    }

    ghost function Capacity(): Caps
      reads this
    {
      Caps(txbuf.Capacity(), rxbuf.Capacity())
    }

    constructor (txSize: nat, rxSize: nat, counterModulus: nat)
      requires 0 < txSize && 0 < rxSize && 0 < counterModulus
      ensures Valid() && View() == NewPort()
      ensures Capacity() == Caps(Min(txSize, counterModulus), Min(rxSize, counterModulus))
    {
      txbuf := new CircularBuffer<Byte>(txSize, counterModulus);
      rxbuf := new CircularBuffer<Byte>(rxSize, counterModulus);
      txIrqEnabled, rxIrqEnabled := false, true;
      txAttached, rxAttached := false, true;
      accepted, sent, received, delivered := [], [], [], [];
      refusals := 0;
    }

    /** The peripheral: whether it can take or give a byte is up to the outside. */
    method Writeable() returns (ready: bool)
      modifies this`refusals
      ensures refusals == old(refusals) + if ready then 0 else 1
    {
      ready := *;
      if !ready {
        refusals := refusals + 1;
      }
    }

    method Readable() returns (ready: bool)
      modifies this`refusals
      ensures refusals == old(refusals) + if ready then 0 else 1
    {
      ready := *;
      if !ready {
        refusals := refusals + 1;
      }
    }

    method BaseGetc() returns (data: Byte)
      modifies this`received
      ensures received == old(received) + [data]
    {
      data := *;
      received := received + [data];
    }

    method BasePutc(data: Byte)
      modifies this`sent
      ensures sent == old(sent) + [data]
    {
      sent := sent + [data];
    }

    method TxIrqHandler() returns (ghost n: nat)
      requires Valid()
      modifies this`txAttached, this`txIrqEnabled, this`sent, this`refusals, txbuf
      ensures Valid() && n <= |old(View()).tx| && View() == TxIrq(old(View()), n)
      // it stops only when the buffer is empty or the peripheral refuses
      ensures refusals == old(refusals) + if View().tx == [] then 0 else 1
    {
      hide CircularBuffer.Contents, CircularBuffer.Valid;
      n := Send();
      var empty := txbuf.Empty();
      if txIrqEnabled && empty {
        txAttached := false;
        txIrqEnabled := false;
      }
    }

    /** Its loop. */
    method Send() returns (ghost n: nat)
      requires Valid()
      modifies this`sent, this`refusals, txbuf
      ensures Valid() && n <= |old(View()).tx|
      ensures View() == old(View()).(tx := old(View()).tx[n..], sent := old(View()).sent + old(View()).tx[..n])
      ensures refusals == old(refusals) + if View().tx == [] then 0 else 1
    {
      hide CircularBuffer.Contents, CircularBuffer.Valid;
      n := 0;
      ghost var p := View();
      while true
        invariant Valid() && n <= |p.tx| && refusals == old(refusals)
        invariant txbuf.Contents() == p.tx[n..] && sent == p.sent + p.tx[..n]
        invariant rxbuf.Contents() == p.rx
        decreases |p.tx| - n
      {
        var empty := txbuf.Empty();
        if empty {
          break;
        }
        var ready := Writeable();
        if !ready {
          break;
        }
        var popped, data := txbuf.Pop();
        BasePutc(data);
        assert p.tx[..n + 1] == p.tx[..n] + [p.tx[n]];
        n := n + 1;
      }
    }

    method RxIrqHandler() returns (ghost bytes: seq<Byte>)
      requires Valid()
      modifies this`rxAttached, this`rxIrqEnabled, this`received, this`refusals, rxbuf, rxbuf.pool
      ensures Valid() && |old(View()).rx| + |bytes| <= Capacity().rx
      ensures View() == RxIrq(Capacity(), old(View()), bytes)
      // it stops only when the buffer is full or the peripheral has nothing
      ensures refusals == old(refusals) + if |View().rx| == Capacity().rx then 0 else 1
    {
      hide CircularBuffer.Contents, CircularBuffer.Valid, PushSpec;
      bytes := Receive();
      var full := rxbuf.Full();
      if rxIrqEnabled && full {
        rxAttached := false;
        rxIrqEnabled := false;
      }
    }

    /** Its loop. */
    method Receive() returns (ghost bytes: seq<Byte>)
      requires Valid()
      modifies this`received, this`refusals, rxbuf, rxbuf.pool
      ensures Valid() && |old(View()).rx| + |bytes| <= Capacity().rx
      ensures View() == old(View()).(rx := old(View()).rx + bytes, received := old(View()).received + bytes)
      ensures refusals == old(refusals) + if |View().rx| == Capacity().rx then 0 else 1
    {
      hide CircularBuffer.Contents, CircularBuffer.Valid, PushSpec;
      bytes := [];
      ghost var p := View();
      while true
        invariant refusals == old(refusals)
        invariant Valid() && |p.rx| + |bytes| <= Capacity().rx
        invariant rxbuf.Contents() == p.rx + bytes && received == p.received + bytes
        invariant txbuf.Contents() == p.tx
        decreases Capacity().rx - |bytes|
      {
        var full := rxbuf.Full();
        if full {
          break;
        }
        var ready := Readable();
        if !ready {
          break;
        }
        var data := BaseGetc();
        PushWithRoom(rxbuf.Capacity(), rxbuf.Contents(), data);
        rxbuf.Push(data);
        bytes := bytes + [data];
      }
    }

    /** The critical section of write. */
    method KickTransmitter() returns (ghost n: nat)
      requires Valid()
      modifies this`txAttached, this`txIrqEnabled, this`sent, this`refusals, txbuf
      ensures Valid() && n <= |old(View()).tx| && View() == Kick(old(View()), n)
      // bytes stay behind only if the peripheral refused them, or the interrupt was to send them
      ensures refusals == old(refusals) + if old(txIrqEnabled) || View().tx == [] then 0 else 1
    {
      hide CircularBuffer.Contents, CircularBuffer.Valid, TxIrq;
      n := 0;
      if !txIrqEnabled {
        n := TxIrqHandler();
        var empty := txbuf.Empty();
        if !empty {
          txAttached := true;
          txIrqEnabled := true;
        }
      }
    }

    /** The critical section of read. */
    method RearmReceiver() returns (ghost bytes: seq<Byte>)
      requires Valid()
      modifies this`rxAttached, this`rxIrqEnabled, this`received, this`refusals, rxbuf, rxbuf.pool
      ensures Valid() && |old(View()).rx| + |bytes| <= Capacity().rx
      ensures View() == Rearm(Capacity(), old(View()), bytes)
      ensures refusals == old(refusals) + if old(rxIrqEnabled) || |View().rx| == Capacity().rx then 0 else 1
    {
      hide CircularBuffer.Contents, CircularBuffer.Valid, RxIrq;
      bytes := [];
      if !rxIrqEnabled {
        bytes := RxIrqHandler();
        var full := rxbuf.Full();
        if !full {
          rxAttached := true;
          rxIrqEnabled := true;
        }
      }
    }

    /** write with `_blocking` false, when no interrupt strikes: the buffer is topped up and kicked
        until all data is in or the buffer stays full. */
    method TryWrite(buffer: seq<Byte>) returns (result: int)
      requires Valid()
      modifies this`txAttached, this`txIrqEnabled, this`sent, this`accepted, this`refusals, txbuf, txbuf.pool
      ensures Valid()
      ensures buffer == [] ==> result == 0 && View() == old(View())
      ensures buffer != [] ==> result == -EAGAIN || 0 < result <= |buffer|
      ensures View().accepted == old(View()).accepted + if result > 0 then buffer[..result] else []
      ensures old(Streams()) ==> Streams()
      ensures result < |buffer| ==> |View().tx| == Capacity().tx
      // whatever is still to be sent has the transmit interrupt to send it
      ensures result > 0 && TxReady(old(View())) ==> TxReady(View()) && (View().txIrq <==> View().tx != [])
    {
      hide CircularBuffer.Contents, CircularBuffer.Valid, PushSpec, Kick;
      if |buffer| == 0 {
        return 0;
      }
      var written := 0;
      while written < |buffer|
        invariant Valid() && written <= |buffer|
        invariant accepted == old(accepted) + buffer[..written]
        invariant old(Streams()) ==> Streams()
        invariant TxReady(old(View())) ==> TxReady(View()) && (written > 0 ==> (txAttached <==> View().tx != []))
        decreases |buffer| - written
      {
        var full := txbuf.Full();
        if full {
          break;
        }
        written := Fill(buffer, written);
        ghost var q := View();
        ghost var n := KickTransmitter();
        KickStream(q, n);
      }
      result := if written != 0 then written else -EAGAIN;
    }

    /** The inner loop of write. */
    method Fill(buffer: seq<Byte>, from: nat) returns (written: nat)
      requires Valid() && from < |buffer| && |View().tx| < Capacity().tx
      modifies this`accepted, txbuf, txbuf.pool
      ensures Valid() && from < written <= |buffer|
      ensures accepted == old(accepted) + buffer[from..written]
      ensures txbuf.Contents() == old(View()).tx + buffer[from..written]
      ensures rxbuf.Contents() == old(View()).rx
    {
      hide CircularBuffer.Contents, CircularBuffer.Valid, PushSpec;
      ghost var p := View();
      written := from;
      while true
        invariant Valid() && from <= written <= |buffer|
        invariant written == from ==> |txbuf.Contents()| < txbuf.Capacity()
        invariant accepted == old(accepted) + buffer[from..written]
        invariant txbuf.Contents() == p.tx + buffer[from..written] && rxbuf.Contents() == p.rx
        decreases |buffer| - written
      {
        var full := txbuf.Full();
        if !(written < |buffer| && !full) {
          break;
        }
        PushWithRoom(txbuf.Capacity(), txbuf.Contents(), buffer[written]);
        txbuf.Push(buffer[written]);
        accepted := accepted + [buffer[written]];
        assert buffer[from..written + 1] == buffer[from..written] + [buffer[written]];
        written := written + 1;
      }
    }

    /** read with `_blocking` false, when no interrupt strikes: it takes what is there, up to
        `length` bytes, and lets the peripheral refill the buffer. */
    method TryRead(length: nat) returns (result: int, buffer: seq<Byte>, ghost bytes: seq<Byte>)
      requires Valid()
      modifies this`rxAttached, this`rxIrqEnabled, this`received, this`delivered, this`refusals, rxbuf, rxbuf.pool
      ensures Valid()
      ensures result == if length == 0 then 0 else if old(View()).rx == [] then -EAGAIN else |buffer|
      ensures result <= 0 ==> buffer == [] && View() == old(View())
      ensures result > 0 ==>
                && |buffer| == (if length <= |old(View()).rx| then length else |old(View()).rx|)
                && buffer == old(View()).rx[..|buffer|]
                && var p := Taken(old(View()), buffer);
                   |p.rx| + |bytes| <= Capacity().rx && View() == Rearm(Capacity(), p, bytes)
    {
      hide CircularBuffer.Contents, CircularBuffer.Valid, Rearm;
      buffer, bytes := [], [];
      if length == 0 {
        return 0, buffer, bytes;
      }
      var empty := rxbuf.Empty();
      if empty {
        return -EAGAIN, buffer, bytes;
      }
      buffer := Drain(length);
      bytes := RearmReceiver();
      result := |buffer|;
    }

    /** The inner loop of read. */
    method Drain(length: nat) returns (buffer: seq<Byte>)
      requires Valid()
      modifies this`delivered, rxbuf
      ensures Valid()
      ensures |buffer| == if length <= |old(View()).rx| then length else |old(View()).rx|
      ensures buffer == old(View()).rx[..|buffer|] && View() == Taken(old(View()), buffer)
    {
      hide CircularBuffer.Contents, CircularBuffer.Valid;
      buffer := [];
      ghost var p := View();
      while true
        invariant Valid() && |buffer| <= length && |buffer| <= |p.rx| && buffer == p.rx[..|buffer|]
        invariant rxbuf.Contents() == p.rx[|buffer|..] && delivered == p.delivered + buffer
        invariant txbuf.Contents() == p.tx
        decreases length - |buffer|
      {
        var empty := rxbuf.Empty();
        if !(|buffer| < length && !empty) {
          break;
        }
        var popped, data := rxbuf.Pop();
        delivered := delivered + [data];
        buffer := buffer + [data];
      }
    }

    ghost predicate Streams()
      requires Valid()
      reads this, txbuf, rxbuf, txbuf.pool, rxbuf.pool
    {
      accepted == sent + txbuf.Contents()
    }
  }
}
