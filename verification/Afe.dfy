/** One RF front-end controller (src/amc7891.cpp) and the ordered register writes that move a
    channel between its modes (src/graviton.cpp). */
module Afe {

  // Register values of graviton.h.
  const EN_LNA_DIS: bv16 := 0x080
  const EN_DSA: bv16 := 0x07F
  const EN_PRE_RX_EN: bv16 := 0x200
  const EN_PRE_TX_EN: bv16 := 0x100
  const EN_TX_EN: bv16 := 0x400
  const EN_RX_EN: bv16 := 0x800

  const AFE_ENABLES: bv16 := EN_DSA | EN_LNA_DIS | EN_PRE_RX_EN | EN_PRE_TX_EN | EN_TX_EN | EN_RX_EN
  const AFE_RECEIVE: bv16 := EN_PRE_RX_EN | EN_RX_EN | EN_PRE_TX_EN
  const AFE_TRANSMIT: bv16 := EN_DSA | EN_LNA_DIS | EN_PRE_TX_EN | EN_TX_EN
  const AFE_SAFE: bv16 := EN_LNA_DIS | EN_DSA

  const TX_SW_RX: nat := 0x0000
  const TX_SW_TX: nat := 0x02A3
  const TX_LNA_DIS_TX: nat := 0x0000
  const TX_LNA_DIS_RX: nat := 0x03FF
  const VGSET_SAFE: nat := 0x03FF
  const PA_EN_OFF: nat := 0x0000
  const PA_EN_ON: nat := 0x03FF

  datatype Mode = Safe | Rx | Tx

  datatype Dac = PaEn | VgSet | TxSw | TxLnaDis

  /** The registers of the chip. */
  datatype Regs = Regs(
    paEn: nat, vgSet: nat, txSw: nat, txLnaDis: nat,
    gpio: bv16, gpioConfig: bv16, power: bv16, adcGain: bv16)

  predicate RxEnabled(gpio: bv16) {
    gpio & EN_RX_EN != 0
  }

  predicate TxEnabled(gpio: bv16) {
    gpio & EN_TX_EN != 0
  }

  /** The receiver is only ever powered with the antenna switch turned to it, the transmit
      amplifier disabled and the power amplifier's gate at its idle or safe value, and never
      together with the transmitter. */
  predicate RxProtected(r: Regs, quiescent: nat) {
    RxEnabled(r.gpio) ==>
      && r.txSw == TX_SW_RX && r.txLnaDis == TX_LNA_DIS_RX && !TxEnabled(r.gpio)
      && (r.vgSet == quiescent || r.vgSet == VGSET_SAFE)
  }

  /** What each mode means, register by register. */
  predicate RegsFor(r: Regs, mode: Mode, gain: bv8, setpoint: nat, quiescent: nat) {
    match mode
    case Safe =>
      && r.paEn == PA_EN_OFF && r.vgSet == VGSET_SAFE && r.txSw == TX_SW_RX
      && r.txLnaDis == TX_LNA_DIS_RX && r.gpio == AFE_SAFE
    case Rx =>
      && r.paEn == PA_EN_ON && r.vgSet == quiescent && r.txSw == TX_SW_RX
      && r.txLnaDis == TX_LNA_DIS_RX && r.gpio == ReceiveWord(gain)
    case Tx =>
      && r.paEn == PA_EN_ON && r.vgSet == setpoint && r.txSw == TX_SW_TX
      && r.txLnaDis == TX_LNA_DIS_TX && r.gpio == AFE_TRANSMIT
  }

  /** `0x03FF & val`: the ten DAC bits. */
  function DacWord(val: nat): (r: nat)
    ensures val < 0x400 ==> r == val
  {
    val % 0x400
  }

  /** `0x0FFF & val`: the twelve GPIO lines. */
  function Lines(val: bv16): bv16 {
    0x0FFF & val
  }

  /** The GPIO word of the receive mode. */
  function ReceiveWord(gain: bv8): bv16 {
    AFE_RECEIVE | DsaBits(gain)
  }

  /** The six gain bits sit above the lowest bit of the seven-bit attenuator field. */
  function DsaBits(gain: bv8): bv16 {
    ((gain as bv16) << 1) & 0x7E
  }

  lemma ModeBits(gain: bv8)
    ensures RxEnabled(ReceiveWord(gain)) && !TxEnabled(ReceiveWord(gain))
    ensures Lines(ReceiveWord(gain)) == ReceiveWord(gain)
    ensures !RxEnabled(AFE_TRANSMIT) && TxEnabled(AFE_TRANSMIT) && Lines(AFE_TRANSMIT) == AFE_TRANSMIT
    ensures !RxEnabled(AFE_SAFE) && !TxEnabled(AFE_SAFE) && Lines(AFE_SAFE) == AFE_SAFE
    ensures Lines(AFE_ENABLES) == AFE_ENABLES
  {
  }

  lemma EnableBits(gpio: bv16)
    ensures RxEnabled(gpio) <==> (gpio >> 11) & 1 == 1
    ensures TxEnabled(gpio) <==> (gpio >> 10) & 1 == 1
  {
  }

  /** The gain of the receive mode is in bits 1 to 6 of its word, whatever else the byte holds. */
  lemma GainBits(gain: bv8)
    ensures (ReceiveWord(gain) >> 1) & 0x3F == (gain as bv16) % 0x40
    ensures ReceiveWord(gain) == 0xB00 + 2 * ((gain as bv16) % 0x40)
  {
  }

  /** The modes in numbers. */
  lemma RegsInNumbers(r: Regs, gain: bv8, setpoint: nat, quiescent: nat)
    ensures RegsFor(r, Safe, gain, setpoint, quiescent) <==>
              r.paEn == 0 && r.vgSet == 1023 && r.txSw == 0 && r.txLnaDis == 1023 && r.gpio == 0x0FF
    ensures RegsFor(r, Rx, gain, setpoint, quiescent) <==>
              && r.paEn == 1023 && r.vgSet == quiescent && r.txSw == 0 && r.txLnaDis == 1023
              && r.gpio == 0xB00 + 2 * ((gain as bv16) % 0x40)
    ensures RegsFor(r, Tx, gain, setpoint, quiescent) <==>
              r.paEn == 1023 && r.vgSet == setpoint && r.txSw == 675 && r.txLnaDis == 0 && r.gpio == 0x5FF
  {
    GainBits(gain);
  }

  // ---------------------------------------------------------------- the order of the writes

  /** The registers after each write of a switch to receive from `r`. The amplifier is enabled first
      if it was off; then come its gate, the antenna switch, the transmit LNA, and last the receiver,
      alone if the channel was receiving. */
  function RxWrites(r: Regs, from: Mode, gain: bv8, quiescent: nat): seq<Regs> {
    var word: bv16 := 0xB00 + 2 * ((gain as bv16) % 0x40);
    if from == Rx then [r.(gpio := word)]
    else
      var p := if from == Safe then r.(paEn := 1023) else r;
      var t := p.(vgSet := quiescent, txSw := 0, txLnaDis := 1023);
      (if from == Safe then [p] else [])
      + [p.(vgSet := quiescent), p.(vgSet := quiescent, txSw := 0), t, t.(gpio := word)]
  }

  /** To transmit, the receiver goes off first. */
  function TxWrites(r: Regs, from: Mode, setpoint: nat): seq<Regs> {
    if from == Tx then []
    else
      var p := if from == Safe then r.(paEn := 1023) else r;
      var g := p.(gpio := 0x5FF);
      (if from == Safe then [p] else [])
      + [g, g.(vgSet := setpoint), g.(vgSet := setpoint, txSw := 675),
         g.(vgSet := setpoint, txSw := 675, txLnaDis := 0)]
  }

  /** To safety, the amplifier goes off first. */
  function SafeWrites(r: Regs): seq<Regs> {
    var a := r.(paEn := 0);
    var b := a.(vgSet := 1023);
    var c := b.(txSw := 0);
    var d := c.(txLnaDis := 1023);
    var e := d.(power := 0x7E00);
    var f := e.(gpio := 0x0FF);
    [a, b, c, d, e, f, f.(gpioConfig := 0xFFF)]
  }

  // ---------------------------------------------------------------- gate voltage conversions

  /** conv_dac_counts_to_mv_for_vgg_circuit; C division truncates, so it rounds toward zero. */
  function CountsToMv(counts: nat): int {
    -((counts % 0x400) * 5000 * 2 / 1023)
  }

  function AtMost(x: int, limit: int): int {
    if limit < x then limit else x
  }

  /** conv_mv_to_dac_counts_for_vgg_circuit. */
  function MvToCounts(mv: int): nat {
    var inMv := if 0 < mv then 0 else if -4900 > mv then -4900 else mv;
    var opAmpOut := -inMv / 2;
    AtMost(1023 * AtMost(opAmpOut, 5000) / 5000, 1023)
  }

  /** Backing a setpoint off by 100 mV is exactly ten counts more negative, whatever the roundings,
      for every count the clamp at -4900 mV leaves alone. */
  lemma BackOffIsTenCounts(counts: nat)
    requires counts <= 491
    ensures MvToCounts(CountsToMv(counts) - 100) == counts + 10
  {
    var m := counts * 10000 / 1023;
    assert CountsToMv(counts) == -m;
    assert 0 <= m <= 4800;
    var op := (m + 100) / 2;
    assert op == 5000 * counts / 1023 + 50;
    var q := 5000 * counts / 1023;
    assert 5000 * counts - 1022 <= 1023 * q <= 5000 * counts;
    assert 1023 * op / 5000 == counts + 10;
  }

  /** The request is clamped to 0 .. -4900 mV, so the count never exceeds 501, and a more negative
      voltage never gets a smaller count. */
  lemma ClampedCounts(mv: int, lower: int)
    requires lower <= mv
    ensures mv >= 0 ==> MvToCounts(mv) == 0
    ensures lower <= -4900 ==> MvToCounts(lower) == 501
    ensures 0 <= MvToCounts(mv) <= MvToCounts(lower) <= 501
  {
  }

  lemma LosesOne(counts: nat, m: nat, half: nat)
    requires 0 < counts <= 501
    requires 1023 * m <= 10000 * counts < 1023 * m + 1023 && 2 * half <= m < 2 * half + 2
    ensures 1023 * half / 5000 == counts - 1
  {
    // 1023 and 5000 have no common factor
    var t := 596 * half - 2913 * counts;
    assert 1023 * half == 5000 * counts ==> counts == 1023 * t;
    assert 5000 * (counts - 1) <= 1023 * half < 5000 * (counts - 1) + 5000;
  }

  lemma InRange(counts: nat, m: int)
    requires counts <= 501 && m == counts * 10000 / 1023
    ensures CountsToMv(counts) == -m && m <= 4900
    ensures MvToCounts(-m) == 1023 * (m / 2) / 5000
  {
    assert 1023 * (m / 2) <= 1023 * 2450;
  }

  /** Converting to millivolts and back loses one count, to the roundings. */
  lemma RoundTripLosesOne(counts: nat)
    requires 0 < counts <= 501
    ensures MvToCounts(CountsToMv(counts)) == counts - 1
  {
    var m := counts * 10000 / 1023;
    LosesOne(counts, m, m / 2);
    InRange(counts, m);
  }

  class AMC7891 {
    var vgSetpoint: nat
    var vgQuiescent: nat
    var mode: Mode
    var regs: Regs
    /** The register contents after every single write, in order. */
    ghost var history: seq<Regs>
    /** The registers at each reading of the ADC, in order. */
    ghost var measured: seq<Regs>
    /** The gain of the last switch to receive. */
    ghost var gain: bv8

    constructor ()
      ensures history == [] && measured == []
    {
      vgSetpoint, vgQuiescent, mode := 0, 0, Safe;
      regs := Regs(0, 0, 0, 0, 0, 0, 0, 0);
      history, measured := [], [];
      gain := 0;
    }

    /** A usable calibration: the idle gate value is more negative (a larger count) than the
        transmit one, and both fit the DAC. */
    predicate Calibrated()
      reads this
    {
      vgSetpoint < vgQuiescent < VGSET_SAFE
    }

    /** The registers are what the mode says. */
    ghost predicate Agrees()
      reads this
    {
      Calibrated() && RegsFor(regs, mode, gain, vgSetpoint, vgQuiescent)
    }

    ghost predicate AllProtected()
      reads this`history, this`vgQuiescent
    {
      forall i :: 0 <= i < |history| ==> RxProtected(history[i], vgQuiescent)
    }

    /** The receiver has been off after every recorded write. */
    ghost predicate RxNeverOn()
      reads this`history
    {
      forall i :: 0 <= i < |history| ==> !RxEnabled(history[i].gpio)
    }

    /** And is off now. */
    ghost predicate RxIsOff()
      reads this`history, this`regs
    {
      RxNeverOn() && !RxEnabled(regs.gpio)
    }

    /** The first switch_to_safe. What the registers held before is unknown, so the record of
        writes starts after it. */
    method PowerOn()
      modifies this`regs, this`history, this`mode
      ensures mode == Safe && RegsFor(regs, Safe, gain, vgSetpoint, vgQuiescent)
      ensures history == []
    {
      SwitchToSafe();
      history := [];
    }

    method WriteReg(r: Regs)
      modifies this`regs, this`history
      ensures regs == r && history == old(history) + [r]
      ensures old(AllProtected()) && RxProtected(regs, vgQuiescent) ==> AllProtected()
    {
      regs := r;
      history := history + [r];
    }

    method WriteDac(channel: Dac, val: nat)
      modifies this`regs, this`history
      ensures history == old(history) + [regs]
      ensures regs == match channel
                      case PaEn => old(regs).(paEn := DacWord(val))
                      case VgSet => old(regs).(vgSet := DacWord(val))
                      case TxSw => old(regs).(txSw := DacWord(val))
                      case TxLnaDis => old(regs).(txLnaDis := DacWord(val))
      ensures old(AllProtected()) && RxProtected(regs, vgQuiescent) ==> AllProtected()
    {
      // the parameter is a uint16_t
      var data := DacWord(val % 0x1_0000);
      match channel {
        case PaEn => WriteReg(regs.(paEn := data));
        case VgSet => WriteReg(regs.(vgSet := data));
        case TxSw => WriteReg(regs.(txSw := data));
        case TxLnaDis => WriteReg(regs.(txLnaDis := data));
      }
    }

    method EnableDacs()
      modifies this`regs, this`history
      ensures regs == old(regs).(power := 0x7E00) && history == old(history) + [regs]
      ensures old(AllProtected()) && RxProtected(regs, vgQuiescent) ==> AllProtected()
    {
      WriteReg(regs.(power := 0x7E00));
    }

    method SetGpio(val: bv16)
      modifies this`regs, this`history
      ensures regs == old(regs).(gpio := Lines(val)) && history == old(history) + [regs]
      ensures old(AllProtected()) && RxProtected(regs, vgQuiescent) ==> AllProtected()
    {
      WriteReg(regs.(gpio := Lines(val)));
    }

    method ConfigGpio(gpios: bv16)
      modifies this`regs, this`history
      ensures regs == old(regs).(gpioConfig := Lines(gpios)) && history == old(history) + [regs]
      ensures old(AllProtected()) && RxProtected(regs, vgQuiescent) ==> AllProtected()
    {
      WriteReg(regs.(gpioConfig := Lines(gpios)));
    }

    method ConfigAdc(val: bv8)
      modifies this`regs, this`history
      ensures regs == old(regs).(adcGain := 0xFF00 & ((val as bv16) << 8)) && history == old(history) + [regs]
      ensures old(AllProtected()) && RxProtected(regs, vgQuiescent) ==> AllProtected()
    {
      WriteReg(regs.(adcGain := 0xFF00 & ((val as bv16) << 8)));
    }

    /** read_adc, which yields whatever the chip measures. */
    method ReadAdc(measurement: nat) returns (value: nat)
      modifies this`measured
      ensures value == measurement && measured == old(measured) + [regs]
    {
      value := measurement;
      measured := measured + [regs];
    }

    /** switch_to_rx. */
    method SwitchToRx(gain: bv8)
      requires Agrees() && AllProtected()
      modifies this`regs, this`history, this`mode, this`gain
      ensures Agrees() && AllProtected()
      ensures history == old(history) + RxWrites(old(regs), old(mode), gain, vgQuiescent)
      ensures mode == Rx && this.gain == gain
    {
      GainBits(gain);
      ModeBits(gain);
      ModeBits(this.gain);
      hide RxEnabled, TxEnabled, ReceiveWord, Lines, DacWord, AllProtected;
      if mode == Safe {
        WriteDac(PaEn, PA_EN_ON);
      }
      if mode != Rx {
        WriteDac(VgSet, vgQuiescent);
        WriteDac(TxSw, TX_SW_RX);
        WriteDac(TxLnaDis, TX_LNA_DIS_RX);
      }
      SetGpio(ReceiveWord(gain));
      this.gain := gain;
      mode := Rx;
    }

    /** switch_to_tx. */
    method SwitchToTx()
      requires Agrees() && AllProtected()
      modifies this`regs, this`history, this`mode
      ensures Agrees() && AllProtected()
      ensures history == old(history) + TxWrites(old(regs), old(mode), vgSetpoint)
      ensures mode == Tx && (old(mode) == Tx ==> history == old(history))
    {
      ModeBits(gain);
      hide RxEnabled, TxEnabled, ReceiveWord, Lines, DacWord, AllProtected;
      if mode == Tx {
        return;
      }
      if mode == Safe {
        WriteDac(PaEn, PA_EN_ON);
      }
      SetGpio(AFE_TRANSMIT);
      WriteDac(VgSet, vgSetpoint);
      WriteDac(TxSw, TX_SW_TX);
      WriteDac(TxLnaDis, TX_LNA_DIS_TX);
      mode := Tx;
    }

    /** switch_to_safe. It reaches the safe registers from any others. */
    method SwitchToSafe()
      modifies this`regs, this`history, this`mode
      ensures mode == Safe && RegsFor(regs, Safe, gain, vgSetpoint, vgQuiescent)
      ensures regs.gpioConfig == 0xFFF && regs.power == 0x7E00
      ensures history == old(history) + SafeWrites(old(regs))
      ensures old(Agrees() && AllProtected()) ==> Agrees() && AllProtected()
      ensures old(!RxEnabled(regs.gpio)) ==>
                forall i :: |old(history)| <= i < |history| ==> !RxEnabled(history[i].gpio)
      ensures old(RxIsOff()) ==> RxIsOff()
    {
      ModeBits(gain);
      hide RxEnabled, TxEnabled, ReceiveWord, Lines, DacWord, AllProtected;
      WriteDac(PaEn, PA_EN_OFF);
      WriteDac(VgSet, VGSET_SAFE);
      WriteDac(TxSw, TX_SW_RX);
      WriteDac(TxLnaDis, TX_LNA_DIS_RX);
      EnableDacs();
      SetGpio(AFE_SAFE);
      ConfigGpio(AFE_ENABLES);
      mode := Safe;
    }
  }
}
