/** calibrate_power_amplifier of main.cpp: the gate voltage of a power amplifier is lowered count by
    count until the amplifier draws 100 mA. All measurements are arbitrary. */
module Calibration {
  import opened Arithmetic
  import opened Afe

  /** The supply has fallen more than 100 mV below its first reading; the difference is computed in
      uint32_t. */
  predicate Dropped(v29Bus: nat, now: nat) {
    Low32(v29Bus - 100) > now
  }

  /** With the supply at 100 mV or more that is what it says; below, any reading the chip can give
      counts as a drop. */
  lemma DroppedInNumbers(v29Bus: nat, now: nat)
    requires v29Bus < U32
    ensures v29Bus >= 100 ==> (Dropped(v29Bus, now) <==> now + 100 < v29Bus)
    ensures v29Bus < 100 ==> (Dropped(v29Bus, now) <==> now + 100 < U32 + v29Bus)
  {
  }

  predicate BusDrops(v29: nat -> nat, steps: nat) {
    exists k :: 1 <= k <= steps && Dropped(v29(0), v29(k))
  }

  /** How many counts the gate is lowered. */
  function Steps(current: nat -> nat, k: nat): nat
    decreases 184 - k
  {
    if k >= 184 || current(k) >= 100 then k else Steps(current, k + 1)
  }

  /** Up to the first reading of 100 mA, at most 184. */
  lemma {:induction false} StepsIsFirst(current: nat -> nat, k: nat)
    requires k <= 184
    ensures var n := Steps(current, k);
            && k <= n <= 184 && (n < 184 ==> current(n) >= 100)
            && forall i :: k <= i < n ==> current(i) < 100
    decreases 184 - k
  {
    if k < 184 && current(k) < 100 {
      StepsIsFirst(current, k + 1);
    }
  }

  /** The calibrated values: two counts above the one that drew 100 mA, or two above the start when
      none did; the idle value is ten counts, that is 100 mV, more negative. */
  predicate Calibrates(afe: AMC7891, steps: nat)
    reads afe`vgSetpoint, afe`vgQuiescent
  {
    && afe.vgSetpoint == (if steps < 184 then 390 - steps else 390)
    && 207 <= afe.vgSetpoint <= 390 && afe.vgQuiescent == afe.vgSetpoint + 10
  }

  /** The writes recorded in `h` since `start`: the gate voltage stays between the two limits and
      the switches are not touched. */
  ghost predicate GateWithin(start: seq<Regs>, h: seq<Regs>, gpio: bv16) {
    && start <= h
    && forall i :: |start| <= i < |h| ==> 204 <= h[i].vgSet <= 390 && h[i].gpio == gpio
  }

  /** The currents measured since `start`: n of them, with the amplifier enabled and the gate one
      count lower each time. */
  ghost predicate Probed(start: seq<Regs>, m: seq<Regs>, n: nat) {
    && |m| == |start| + n && start <= m
    && forall i :: |start| <= i < |m| ==> m[i].paEn == 1023 && m[i].vgSet == 388 - (i - |start|)
  }

  lemma ProbedOne(start: seq<Regs>, m: seq<Regs>, n: nat, r: Regs)
    requires Probed(start, m, n) && r.paEn == 1023 && r.vgSet == 388 - n
    ensures Probed(start, m + [r], n + 1)
  {
  }

  lemma NotProbed(start: seq<Regs>)
    ensures Probed(start, start, 0)
  {
  }

  lemma GateWithinOne(start: seq<Regs>, h: seq<Regs>, r: Regs)
    requires GateWithin(start, h, r.gpio) && 204 <= r.vgSet <= 390
    ensures GateWithin(start, h + [r], r.gpio)
  {
  }

  lemma NothingYet(start: seq<Regs>, gpio: bv16)
    ensures GateWithin(start, start, gpio)
  {
  }

  /** The starting point, and where the voltage has come up to -2000 mV. */
  lemma GateLimits(counts: nat)
    requires 204 <= counts <= 388
    ensures MvToCounts(-3800) == 388
    ensures CountsToMv(counts) > -2000 <==> counts == 204
  {
  }

  lemma StepsFrom(current: nat -> nat, k: nat)
    requires k < 184 && Steps(current, 0) == Steps(current, k)
    ensures current(k) < 100 ==> k < Steps(current, 0) == Steps(current, k + 1) <= 184
    ensures current(k) >= 100 ==> Steps(current, 0) == k
    ensures Steps(current, 184) == 184
  {
    StepsIsFirst(current, k + 1);
  }

  lemma NoDrop(v29: nat -> nat, steps: nat)
    requires forall i :: 1 <= i <= steps ==> !Dropped(v29(0), v29(i))
    ensures !BusDrops(v29, steps)
  {
  }

  lemma SomeDrop(v29: nat -> nat, k: nat, steps: nat)
    requires 1 <= k <= steps && Dropped(v29(0), v29(k))
    ensures BusDrops(v29, steps)
  {
  }

  /** `current(k)` is the drain current in mA at the k-th loop test and `v29(k)` the k-th supply
      reading in mV. `drop` is where the source shuts the board down. */
  method TuneGate(afe: AMC7891, current: nat -> nat, v29: nat -> nat) returns (drop: bool)
    modifies afe`regs, afe`history, afe`measured, afe`vgSetpoint, afe`vgQuiescent
    ensures drop <==> BusDrops(v29, Steps(current, 0))
    ensures !drop ==> Calibrates(afe, Steps(current, 0)) && afe.regs.paEn == PA_EN_OFF
    ensures GateWithin(old(afe.history), afe.history, old(afe.regs.gpio))
    ensures !drop ==>
              Probed(old(afe.measured), afe.measured, if Steps(current, 0) < 184 then Steps(current, 0) + 1 else 184)
    ensures afe.regs.gpio == old(afe.regs.gpio)
  {
    hide Probed, Steps, GateWithin, Dropped, BusDrops, CountsToMv, MvToCounts, DacWord;
    var v29Bus := v29(0);
    var counts := MvToCounts(-3800);
    GateLimits(388);
    ghost var start, gpio := afe.history, afe.regs.gpio;
    NothingYet(start, gpio);
    afe.WriteDac(VgSet, counts);
    GateWithinOne(start, start, afe.regs);
    ghost var h := afe.history;
    afe.WriteDac(PaEn, PA_EN_ON);
    GateWithinOne(start, h, afe.regs);
    StepsIsFirst(current, 0);
    counts, drop := LowerGate(afe, v29Bus, current, v29, start);
    if drop {
      return;
    }
    counts := counts + 2;
    h := afe.history;
    afe.WriteDac(VgSet, counts);
    GateWithinOne(start, h, afe.regs);
    h := afe.history;
    afe.WriteDac(PaEn, PA_EN_OFF);
    GateWithinOne(start, h, afe.regs);
    afe.vgSetpoint := counts;
    BackOffIsTenCounts(counts);
    afe.vgQuiescent := MvToCounts(CountsToMv(counts) - 100);
  }

  /** Its loop. */
  method LowerGate(afe: AMC7891, v29Bus: nat, current: nat -> nat, v29: nat -> nat, ghost start: seq<Regs>)
    returns (counts: nat, drop: bool)
    requires v29Bus == v29(0) && afe.regs.vgSet == 388 && GateWithin(start, afe.history, afe.regs.gpio)
    requires afe.regs.paEn == PA_EN_ON
    modifies afe`regs, afe`history, afe`measured
    ensures drop <==> BusDrops(v29, Steps(current, 0))
    ensures !drop ==> counts == if Steps(current, 0) < 184 then 388 - Steps(current, 0) else 388
    ensures GateWithin(start, afe.history, afe.regs.gpio) && afe.regs.gpio == old(afe.regs.gpio)
    ensures 204 <= afe.regs.vgSet <= 390
    ensures !drop ==>
              Probed(old(afe.measured), afe.measured, if Steps(current, 0) < 184 then Steps(current, 0) + 1 else 184)
  {
    hide Probed, Steps, GateWithin, Dropped, BusDrops, CountsToMv, MvToCounts, DacWord;
    counts, drop := 388, false;
    NotProbed(afe.measured);
    while true
      invariant Probed(old(afe.measured), afe.measured, 388 - counts) && afe.regs.paEn == PA_EN_ON
      invariant 204 < counts <= 388 && Steps(current, 0) == Steps(current, 388 - counts)
      invariant forall i :: 1 <= i <= 388 - counts ==> !Dropped(v29(0), v29(i))
      invariant GateWithin(start, afe.history, afe.regs.gpio) && afe.regs.gpio == old(afe.regs.gpio)
      invariant afe.regs.vgSet == counts
      decreases counts
    {
      StepsFrom(current, 388 - counts);
      ProbedOne(old(afe.measured), afe.measured, 388 - counts, afe.regs);
      var i := afe.ReadAdc(current(388 - counts));
      if i >= 100 {
        break;
      }
      counts := counts - 1;
      ghost var h := afe.history;
      afe.WriteDac(VgSet, counts);
      GateWithinOne(start, h, afe.regs);
      if Dropped(v29Bus, v29(388 - counts)) {
        SomeDrop(v29, 388 - counts, Steps(current, 0));
        drop := true;
        return;
      }
      GateLimits(counts);
      if CountsToMv(counts) > -2000 {
        NoDrop(v29, 184);
        counts := MvToCounts(-3800);
        return;
      }
    }
    StepsFrom(current, 388 - counts);
    NoDrop(v29, 388 - counts);
  }
}
