/** The board of main.cpp: two RF channels, the main controller with the global transmit enable,
    the command interpreter, the calibration of the power amplifiers, and the shutdown path. */
module Board {
  import opened Afe
  import opened Calibration

  const MAIN_ENABLES: bv16 := 0x002 | 0x004 | 0x008 | 0x040 | 0x200
  const MAIN_DEFAULTS: bv16 := 0
  const MAIN_TX_OFF: bv16 := 0x002 | 0x004 | 0x008 | 0x200
  const MAIN_TX_ON: bv16 := 0x002 | 0x004 | 0x008 | 0x200 | 0x040

  /** The DAC transmit enable line of the main controller. */
  predicate TransmitBit(gpio: bv16) {
    gpio & 0x040 != 0
  }

  datatype GravMode = GravSafe | GravTxEn | GravTxDis

  function MainWord(mode: GravMode): bv16 {
    match mode
    case GravSafe => MAIN_DEFAULTS
    case GravTxEn => MAIN_TX_ON
    case GravTxDis => MAIN_TX_OFF
  }

  lemma MainBits(mode: GravMode)
    ensures TransmitBit(MainWord(mode)) <==> mode == GravTxEn
    ensures Lines(MainWord(mode)) == MainWord(mode)
    ensures Lines(MAIN_ENABLES) == 0x24E
    ensures MainWord(GravSafe) == 0 && MainWord(GravTxDis) == 0x20E && MainWord(GravTxEn) == 0x24E
    ensures forall gpio: bv16 :: TransmitBit(gpio) <==> (gpio >> 6) & 1 == 1
  {
  }

  // ---------------------------------------------------------------- commands

  datatype Channel = A | B

  /** What a command byte asks of the channels. */
  datatype Command = Receive(c: Channel, gain: bv8) | Transmit(c: Channel) | Secure(c: Channel) | SecureBoth | Other

  /** The command table in the comment above changeState. */
  function Decode(msg: bv8): Command {
    var c := if msg & 0x80 == 0 then A else B;
    if msg & 0x40 != 0 then Receive(c, msg & 0x3F)
    else if msg & 0x3F == 0 then SecureBoth
    else if msg & 0x3F == 3 then Transmit(c)
    else if msg & 0x3F == 22 then Secure(c)
    else Other
  }

  /** The table in numbers: bit 7 is the channel, bit 6 asks for receive with the low six bits as the
      gain, otherwise they are the command. */
  lemma DecodeInNumbers(msg: bv8)
    ensures Decode(msg) ==
              if msg % 128 >= 64 then Receive(if msg < 128 then A else B, msg % 64)
              else if msg == 0 || msg == 128 then SecureBoth
              else if msg == 3 then Transmit(A) else if msg == 131 then Transmit(B)
              else if msg == 22 then Secure(A) else if msg == 150 then Secure(B)
              else Other
  {
  }

  /** The mode and gain a channel should be in after a command. */
  function ModeAfter(cmd: Command, c: Channel, mode: Mode, gain: bv8): (Mode, bv8) {
    match cmd
    case Receive(d, g) => if c == d then (Rx, g) else (mode, gain)
    case Transmit(d) => if c == d then (Tx, gain) else (mode, gain)
    case Secure(d) => if c == d then (Safe, gain) else (mode, gain)
    case SecureBoth => (Safe, gain)
    case Other => (mode, gain)
  }

  predicate Concerns(cmd: Command, c: Channel) {
    match cmd
    case Receive(d, _) => c == d
    case Transmit(d) => c == d
    case Secure(d) => c == d
    case SecureBoth => true
    case Other => false
  }

  /** Whether a command changes that some channel transmits, or that none does. */
  predicate Switches(cmd: Command, a: Mode, b: Mode) {
    if a == Tx || b == Tx then
      !cmd.Transmit? && (a == Tx ==> Concerns(cmd, A)) && (b == Tx ==> Concerns(cmd, B))
    else cmd.Transmit?
  }

  lemma SwitchesIs(cmd: Command, a: Mode, b: Mode, gainA: bv8, gainB: bv8)
    ensures var a', b' := ModeAfter(cmd, A, a, gainA).0, ModeAfter(cmd, B, b, gainB).0;
            Switches(cmd, a, b) <==> !((a == Tx || b == Tx) <==> (a' == Tx || b' == Tx))
  {
  }

  /** For example transmit on channel A, when neither channel was transmitting. */
  lemma TransmitLags()
    ensures Switches(Decode(0x03), Safe, Rx)
  {
  }

  /** What one turn of main's loop meets. */
  datatype Input = Input(periodic: bool, readable: bool, msg: bv8, trip: bool)

  function ModeAfterAll(inputs: seq<Input>, c: Channel, mode: Mode, gain: bv8): (Mode, bv8) {
    if inputs == [] then (mode, gain)
    else
      var (m, g) := ModeAfterAll(inputs[..|inputs| - 1], c, mode, gain);
      var last := inputs[|inputs| - 1];
      if last.readable then ModeAfter(Decode(last.msg), c, m, g) else (m, g)
  }

  /** So the mode of a channel is decided by the last command that concerns it. */
  lemma {:induction false} LastCommandDecides(inputs: seq<Input>, k: nat, c: Channel, mode: Mode, gain: bv8)
    requires k < |inputs| && inputs[k].readable && Concerns(Decode(inputs[k].msg), c)
    requires forall i :: k < i < |inputs| && inputs[i].readable ==> !Concerns(Decode(inputs[i].msg), c)
    ensures var cmd := Decode(inputs[k].msg);
            ModeAfterAll(inputs, c, mode, gain).0 ==
              if cmd.Receive? then Rx else if cmd.Transmit? then Tx else Safe
    ensures Decode(inputs[k].msg).Receive? ==>
              ModeAfterAll(inputs, c, mode, gain).1 == Decode(inputs[k].msg).gain
  {
    if k < |inputs| - 1 {
      LastCommandDecides(inputs[..|inputs| - 1], k, c, mode, gain);
    }
  }

  lemma SafeIsOff(afe: AMC7891)
    requires RegsFor(afe.regs, Safe, afe.gain, afe.vgSetpoint, afe.vgQuiescent) && afe.history == []
    ensures !RxEnabled(afe.regs.gpio) && afe.RxNeverOn()
  {
    ModeBits(afe.gain);
  }

  lemma DecodeBits(msg: bv8)
    ensures 0x40 & msg == msg & 0x40 && (0x40 == 0x40 & msg <==> msg & 0x40 != 0)
    ensures (0x00 == 0x80 & msg <==> msg & 0x80 == 0) && (0x80 == 0x80 & msg <==> msg & 0x80 != 0)
    ensures 0x3F & msg == msg & 0x3F
  {
  }

  class Board {
    const a: AMC7891
    const b: AMC7891
    const main: AMC7891
    var gravMode: GravMode
    /** go_safe_and_reset has run; nothing executes after it. */
    var halted: bool
    /** mode_switched of main. */
    var modeSwitched: bool

    ghost predicate Wired()
      reads this
    {
      a != b && a != main && b != main
    }

    /** The main loop's invariant: registers follow modes, the receivers are protected after every
        write so far, and the board transmits exactly when a channel does. */
    ghost predicate Ready()
      reads this, a, b, main
    {
      && Wired() && !halted
      && a.Agrees() && a.AllProtected() && b.Agrees() && b.AllProtected()
      && main.regs.gpio == MainWord(gravMode)
      && (TransmitBit(main.regs.gpio) <==> a.mode == Tx || b.mode == Tx)
    }

    /** After a shutdown: both channels and the main controller in their safe settings. */
    ghost predicate ShutDown()
      reads this, a, b, main
    {
      && Wired() && halted
      && a.mode == Safe && RegsFor(a.regs, Safe, a.gain, a.vgSetpoint, a.vgQuiescent)
      && b.mode == Safe && RegsFor(b.regs, Safe, b.gain, b.vgSetpoint, b.vgQuiescent)
      && main.regs.gpio == MainWord(GravSafe) && !TransmitBit(main.regs.gpio)
    }

    constructor (a: AMC7891, b: AMC7891, main: AMC7891)
      requires a != b && a != main && b != main
      ensures this.a == a && this.b == b && this.main == main && Wired() && !halted && !modeSwitched
    {
      this.a, this.b, this.main := a, b, main;
      gravMode, halted, modeSwitched := GravSafe, false, false;
    }

    /** configure_grav_safe. */
    method ConfigureGravSafe()
      requires Wired()
      modifies this`gravMode, main`regs, main`history
      ensures gravMode == GravSafe && main.regs.gpio == MainWord(GravSafe)
      ensures main.regs.gpioConfig == 0x24E && main.regs.adcGain == 0x2000
    {
      MainBits(GravSafe);
      hide Lines;
      main.SetGpio(MAIN_DEFAULTS);
      main.ConfigGpio(MAIN_ENABLES);
      main.ConfigAdc(0x20);
      gravMode := GravSafe;
    }

    /** configure_grav_on_with_tx_off and _on: write only when the cached mode says so. */
    method ConfigureTransmit(on: bool)
      requires Wired() && main.regs.gpio == MainWord(gravMode)
      modifies this`gravMode, main`regs, main`history
      ensures gravMode == (if on then GravTxEn else GravTxDis) && main.regs.gpio == MainWord(gravMode)
      ensures TransmitBit(main.regs.gpio) <==> on
    {
      var mode := if on then GravTxEn else GravTxDis;
      MainBits(mode);
      hide Lines, TransmitBit, MainWord;
      if gravMode == mode {
        return;
      }
      main.SetGpio(MainWord(mode));
      gravMode := mode;
    }

    /** go_safe_and_reset, up to the reset. */
    method GoSafeAndReset()
      requires Wired()
      modifies this`gravMode, this`halted, a`regs, a`history, a`mode, b`regs, b`history, b`mode
      modifies main`regs, main`history
      ensures ShutDown()
      ensures old(a.Agrees() && a.AllProtected()) ==> a.AllProtected()
      ensures old(b.Agrees() && b.AllProtected()) ==> b.AllProtected()
      ensures old(a.RxIsOff()) ==> a.RxIsOff()
      ensures old(b.RxIsOff()) ==> b.RxIsOff()
    {
      a.SwitchToSafe();
      b.SwitchToSafe();
      ConfigureGravSafe();
      MainBits(GravSafe);
      halted := true;
    }

    /** changeState. */
    method ChangeState(msg: bv8)
      requires Wired() && a.Agrees() && a.AllProtected() && b.Agrees() && b.AllProtected()
      modifies a`regs, a`history, a`mode, a`gain, b`regs, b`history, b`mode, b`gain
      ensures a.Agrees() && a.AllProtected() && b.Agrees() && b.AllProtected()
      ensures (a.mode, a.gain) == ModeAfter(Decode(msg), A, old(a.mode), old(a.gain))
      ensures (b.mode, b.gain) == ModeAfter(Decode(msg), B, old(b.mode), old(b.gain))
      // until main's transmit enable follows, it is right exactly if the command changed nothing
      ensures (TransmitBit(main.regs.gpio) <==> old(a.mode == Tx || b.mode == Tx)) ==>
                ((TransmitBit(main.regs.gpio) <==> a.mode == Tx || b.mode == Tx)
                 <==> !Switches(Decode(msg), old(a.mode), old(b.mode)))
      // the same in numbers
      ensures msg % 128 >= 64 && msg < 128 ==> a.mode == Rx && a.gain == msg % 64 && unchanged(b)
      ensures msg % 128 >= 64 && msg >= 128 ==> b.mode == Rx && b.gain == msg % 64 && unchanged(a)
      ensures msg == 0 || msg == 128 ==> a.mode == b.mode == Safe
      ensures msg == 3 ==> a.mode == Tx && unchanged(b)
      ensures msg == 131 ==> b.mode == Tx && unchanged(a)
      ensures msg == 22 ==> a.mode == Safe && unchanged(b)
      ensures msg == 150 ==> b.mode == Safe && unchanged(a)
      ensures msg % 128 < 64 && msg % 128 !in {0, 3, 22} ==> unchanged(a) && unchanged(b)
      // a channel that is not addressed sees no write at all
      ensures !Concerns(Decode(msg), A) ==> unchanged(a)
      ensures !Concerns(Decode(msg), B) ==> unchanged(b)
    {
      var isRx := 0x40 == 0x40 & msg;
      var isA := 0x00 == 0x80 & msg;
      var isB := 0x80 == 0x80 & msg;
      hide RxWrites, TxWrites, SafeWrites;
      DecodeBits(msg);
      DecodeInNumbers(msg);
      SwitchesIs(Decode(msg), a.mode, b.mode, a.gain, b.gain);
      if isRx && isA {
        a.SwitchToRx(0x3F & msg);
      }
      if isRx && isB {
        b.SwitchToRx(0x3F & msg);
      }
      if !isRx {
        var opCode := 0x3F & msg;
        if opCode == 0x00 {
          a.SwitchToSafe();
          b.SwitchToSafe();
        } else if opCode == 0x03 {
          if isA {
            a.SwitchToTx();
          }
          if isB {
            b.SwitchToTx();
          }
        } else if opCode == 0x16 {
          if isA {
            a.SwitchToSafe();
          }
          if isB {
            b.SwitchToSafe();
          }
        }
      }
    }

    /** The commands main gives itself every so many turns. They concern no channel. */
    method SelfIssued()
      requires Wired() && a.Agrees() && a.AllProtected() && b.Agrees() && b.AllProtected()
      modifies this`modeSwitched, a`regs, a`history, a`mode, a`gain, b`regs, b`history, b`mode, b`gain
      ensures unchanged(a) && unchanged(b) && modeSwitched
    {
      if !modeSwitched {
        modeSwitched := true;
        ChangeState(0x15);
      }
      ChangeState(0x02);
    }

    /** One turn of main's loop: `periodic` every ten thousandth time, a byte may have arrived, and
        the safety check may trip. */
    method Turn(periodic: bool, readable: bool, msg: bv8, trip: bool)
      requires Ready()
      modifies this`gravMode, this`halted, this`modeSwitched, main`regs, main`history
      modifies a`regs, a`history, a`mode, a`gain, b`regs, b`history, b`mode, b`gain
      ensures if trip then ShutDown() && a.AllProtected() && b.AllProtected() else Ready()
      ensures !trip && readable ==>
                && (a.mode, a.gain) == ModeAfter(Decode(msg), A, old(a.mode), old(a.gain))
                && (b.mode, b.gain) == ModeAfter(Decode(msg), B, old(b.mode), old(b.gain))
      ensures !trip && !readable ==> unchanged(a) && unchanged(b)
    {
      if periodic {
        SelfIssued();
      }
      if readable {
        ChangeState(msg);
        ConfigureTransmit(a.mode == Tx || b.mode == Tx);
      }
      if trip {
        GoSafeAndReset();
      }
    }

    /** calibrate_power_amplifier on one of the channels, with the shutdown. */
    method CalibratePowerAmplifier(afe: AMC7891, current: nat -> nat, v29: nat -> nat) returns (reset: bool)
      requires Wired() && !halted && (afe == a || afe == b)
      requires afe.RxIsOff()
      modifies this`gravMode, this`halted, main`regs, main`history
      modifies a`regs, a`history, a`mode, b`regs, b`history, b`mode
      modifies afe`vgSetpoint, afe`vgQuiescent, afe`measured
      ensures reset <==> BusDrops(v29, Steps(current, 0))
      ensures reset ==> ShutDown()
      ensures !reset ==> !halted && Calibrates(afe, Steps(current, 0)) && afe.regs.paEn == PA_EN_OFF
      ensures !reset ==> GateWithin(old(afe.history), afe.history, old(afe.regs.gpio))
      // the receivers stay off at every write, on the way to the shutdown too
      ensures afe.RxIsOff() && (old(a.RxIsOff()) ==> a.RxIsOff()) && (old(b.RxIsOff()) ==> b.RxIsOff())
      ensures !reset ==> afe.mode == old(afe.mode) && afe.regs.gpio == old(afe.regs.gpio)
      ensures !reset ==> unchanged(main) && gravMode == old(gravMode)
      ensures !reset ==> (afe == a ==> unchanged(b)) && (afe == b ==> unchanged(a))
    {
      hide Steps, BusDrops, Calibrates, RegsFor;
      reset := TuneGate(afe, current, v29);
      if reset {
        GoSafeAndReset();
      }
    }

    /** The part of init that sets the front end up. `unpowered` is the outcome of its bus check;
        when it fails the source reports an error and goes on without enabling the main board. */
    method Init(unpowered: bool, currentA: nat -> nat, currentB: nat -> nat, v29A: nat -> nat, v29B: nat -> nat)
      requires Wired() && !halted
      modifies this`gravMode, this`halted, main`regs, main`history, a, b
      ensures halted <==> BusDrops(v29A, Steps(currentA, 0)) || BusDrops(v29B, Steps(currentB, 0))
      ensures if halted then ShutDown() else Ready() && a.mode == Safe && b.mode == Safe
      // the busses were powered if they were not
      ensures !halted ==> gravMode == if unpowered then GravTxDis else GravSafe
      ensures !halted ==> Calibrates(a, Steps(currentA, 0)) && Calibrates(b, Steps(currentB, 0))
      ensures a.RxIsOff() && b.RxIsOff()
    {
      hide Steps, BusDrops, RegsFor, GateWithin, MainWord, TransmitBit, SafeWrites, Probed;
      MainBits(gravMode);
      ConfigureGravSafe();
      a.PowerOn();
      b.PowerOn();
      SafeIsOff(a);
      SafeIsOff(b);
      if unpowered {
        ConfigureTransmit(false);
      }
      var reset := CalibratePowerAmplifier(a, currentA, v29A);
      if reset {
        return;
      }
      reset := CalibratePowerAmplifier(b, currentB, v29B);
      if reset {
        return;
      }
      a.SwitchToSafe();
      b.SwitchToSafe();
      MainBits(gravMode);
    }

    /** main: the loop over any sequence of inputs, until a safety check trips. */
    method Run(inputs: seq<Input>)
      requires Ready()
      modifies this`gravMode, this`halted, this`modeSwitched, main`regs, main`history
      modifies a`regs, a`history, a`mode, a`gain, b`regs, b`history, b`mode, b`gain
      ensures a.AllProtected() && b.AllProtected()
      ensures halted <==> exists i :: 0 <= i < |inputs| && inputs[i].trip
      ensures halted ==> ShutDown()
      ensures !halted ==>
                && Ready()
                && (a.mode, a.gain) == ModeAfterAll(inputs, A, old(a.mode), old(a.gain))
                && (b.mode, b.gain) == ModeAfterAll(inputs, B, old(b.mode), old(b.gain))
    {
      hide RegsFor, TransmitBit, MainWord, RxProtected;
      var i := 0;
      while i < |inputs|
        invariant 0 <= i <= |inputs| && Ready() && forall j :: 0 <= j < i ==> !inputs[j].trip
        invariant (a.mode, a.gain) == ModeAfterAll(inputs[..i], A, old(a.mode), old(a.gain))
        invariant (b.mode, b.gain) == ModeAfterAll(inputs[..i], B, old(b.mode), old(b.gain))
      {
        assert inputs[..i + 1] == inputs[..i] + [inputs[i]];
        Turn(inputs[i].periodic, inputs[i].readable, inputs[i].msg, inputs[i].trip);
        if inputs[i].trip {
          return;
        }
        i := i + 1;
      }
      assert inputs[..i] == inputs;
    }
  }
}
