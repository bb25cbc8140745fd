/** The arithmetic of mbed-os/hal/mbed_ticker_api.c: extending a wrapping hardware counter into a
    64-bit microsecond clock, and turning a microsecond deadline back into a counter value.

    Machine words are modelled as `nat`, with every truncation of the C code written out as a `%`.
    Because the counter mask is 2^bits - 1, `x & bitmask` is `x % modulus`. */
module TickerClock {
  import opened Arithmetic

  const MICROS: nat := 1_000_000

  /** What a counter of the given modulus shows: `x & bitmask`. */
  function Wrap(x: int, modulus: nat): (r: nat)
    requires modulus > 0
    ensures r < modulus
  {
    x % modulus
  }

  /** The exact clock: whole microseconds in `ticks` ticks of a counter running at `f` Hz. */
  function Micros(ticks: nat, f: nat): nat
    requires f > 0
  {
    MICROS * ticks / f
  }

  /** Whole ticks in `us` microseconds. */
  function Ticks(us: nat, f: nat): nat {
    us * f / MICROS
  }

  /** The largest scheduling distance, 7/16 of a counter wrap. */
  function MaxDelta(bits: nat): nat
    requires 4 <= bits
  {
    7 * Pow2(bits - 4)
  }

  function MaxDeltaUs(maxDelta: nat, f: nat): nat
    requires f > 0
  {
    (maxDelta * MICROS + f - 1) / f
  }

  /** What the hardware tells `initialize`, after its fallbacks. */
  ghost predicate ValidInfo(f: nat, bits: nat) {
    0 < f < U32 && 4 <= bits <= 32
  }

  // ---------------------------------------------------------------- readings of the counter

  lemma SevenSixteenths(bits: nat)
    requires 4 <= bits <= 32
    ensures 16 * MaxDelta(bits) == 7 * Pow2(bits)
  {
    Pow2Split(bits);
  }

  lemma SmallWrap(x: nat, n: nat)
    requires n > 0
    ensures x < n ==> Wrap(x, n) == x
  {
    if x < n {
      DivUnique(x, n, 0, x);
    }
  }

  lemma LowThenWrap(x: int, n: nat, k: nat)
    requires n > 0 && U32 == n * k
    ensures Wrap(Low32(x), n) == Wrap(x, n)
  {
    ModMod(x, n, k);
  }

  lemma WrapSum(last: nat, delta: nat, n: nat)
    requires n > 0
    ensures Wrap(Wrap(last, n) + delta, n) == Wrap(last + delta, n)
  {
    ModAdd(last, delta, n);
  }

  lemma WrapPlus(x: nat, modulus: nat)
    requires modulus > 0
    ensures Wrap(x + modulus, modulus) == Wrap(x, modulus)
  {
    assert (x / modulus + 1) * modulus == x / modulus * modulus + modulus;
    DivUnique(x + modulus, modulus, x / modulus + 1, x % modulus);
  }

  lemma TickDistance(a: nat, b: nat, modulus: nat)
    requires modulus > 0 && a <= b < a + modulus
    ensures Wrap(Wrap(b, modulus) - Wrap(a, modulus), modulus) == b - a
  {
    ModDiff(a, b, modulus);
    DivUnique(b - a, modulus, 0, b - a);
  }

  lemma Rotation(last: nat, delta: nat, n: nat)
    requires delta < n
    ensures Wrap(last + delta, n) == Wrap(last, n) <==> delta == 0
  {
    TickDistance(last, last + delta, n);
    DivUnique(0, n, 0, 0);
  }

  /** Within 7/16 of a wrap, equal readings mean equal ticks. */
  lemma WithinWrap(last: nat, delta: nat, bits: nat)
    requires 4 <= bits <= 32 && delta <= MaxDelta(bits)
    ensures delta < Pow2(bits) && 0 < MaxDelta(bits)
    ensures Wrap(last + delta, Pow2(bits)) == Wrap(last, Pow2(bits)) <==> delta == 0
  {
    Pow2Split(bits);
    Rotation(last, delta, Pow2(bits));
  }

  lemma TickSum(last: nat, delta: nat, bits: nat)
    requires 4 <= bits <= 32
    ensures Wrap(Low32(Wrap(last, Pow2(bits)) + delta), Pow2(bits)) == Wrap(last + delta, Pow2(bits))
  {
    hide Pow2, Wrap;
    Pow2Split(bits);
    LowThenWrap(Wrap(last, Pow2(bits)) + delta, Pow2(bits), Pow2(32 - bits));
    WrapSum(last, delta, Pow2(bits));
  }

  lemma SplitWrap(x: nat, r: nat, modulus: nat)
    requires r < modulus
    ensures Wrap(x - Wrap(x, modulus) + r, modulus) == r
    ensures Wrap(x - Wrap(x, modulus) + modulus + r, modulus) == r
  {
    var q := x / modulus;
    assert x - x % modulus == q * modulus;
    assert (q + 1) * modulus == q * modulus + modulus;
    DivUnique(q * modulus + r, modulus, q, r);
    DivUnique((q + 1) * modulus + r, modulus, q + 1, r);
  }

  lemma MatchUnique(after: nat, x: nat, y: nat, modulus: nat)
    requires modulus > 0 && Wrap(x, modulus) == Wrap(y, modulus)
    requires after < x <= after + modulus && after < y <= after + modulus
    ensures x == y
  {
    var k := x / modulus - y / modulus;
    assert k * modulus == x - y by { assert k * modulus == x / modulus * modulus - y / modulus * modulus; }
    MulIsZero(k, modulus);
  }

  lemma ElapsedReadings(last: nat, now: nat, n: nat)
    requires n > 0 && last <= now
    ensures Wrap(Wrap(now, n) - Wrap(last, n), n) == Wrap(now - last, n)
    ensures last + Wrap(now - last, n) <= now && Wrap(last + Wrap(now - last, n), n) == Wrap(now, n)
    ensures Wrap(now, n) == Wrap(last, n) ==> Wrap(now - last, n) == 0
  {
    ModDiff(last, now, n);
    ModMultiple(last, now, n);
    DivUnique(0, n, 0, 0);
  }

  /** What the difference of two readings says about the true ticks between them. */
  lemma ElapsedTicks(last: nat, now: nat, bits: nat)
    requires last <= now && 4 <= bits <= 32
    ensures var n := Pow2(bits);
            && Wrap(Low32(Wrap(now, n) - Wrap(last, n)), n) == Wrap(now - last, n) < U32
            && last + Wrap(now - last, n) <= now && Wrap(last + Wrap(now - last, n), n) == Wrap(now, n)
            && (Wrap(now, n) == Wrap(last, n) ==> Wrap(now - last, n) == 0)
  {
    hide Pow2;
    Pow2Split(bits);
    LowThenWrap(Wrap(now, Pow2(bits)) - Wrap(last, Pow2(bits)), Pow2(bits), Pow2(32 - bits));
    ElapsedReadings(last, now, Pow2(bits));
  }

  // ---------------------------------------------------------------- 32-bit timestamps

  /** convert_timestamp: the low 32 bits come from `timestamp`, the high ones from `ref`, plus one
      when `timestamp` is behind the low word of `ref`. */
  function ConvertTimestamp(ref: nat, timestamp: nat): nat
    requires ref < U64 && timestamp < U32
  {
    var overflow := timestamp < ref % U32;
    var result := ref - ref % U32 + timestamp;
    if overflow then Low64(result + U32) else result
  }

  /** It is the one 64-bit time at or after `ref`, less than 2^32 us away, with those low bits. */
  lemma ConvertTimestampUnique(ref: nat, timestamp: nat, x: nat)
    requires ref + U32 <= U64 && timestamp < U32
    ensures ref <= x < ref + U32 && x % U32 == timestamp <==> x == ConvertTimestamp(ref, timestamp)
  {
  }

  /** A 64-bit value that changes from `before` to `after` between the two 32-bit loads. */
  function TornRead(before: nat, after: nat, lowFirst: bool): nat {
    if lowFirst then after - after % U32 + before % U32 else before - before % U32 + after % U32
  }

  /** Read like that, the time is one between the two exactly when the change did not carry into
      the high word. */
  lemma TornReadExact(before: nat, after: nat, lowFirst: bool)
    requires before <= after < before + U32
    ensures before <= TornRead(before, after, lowFirst) <= after <==> before / U32 == after / U32
  {
  }

  // ---------------------------------------------------------------- the drift-free clock

  /** The clock invariant: present time and remainder together are exactly the ticks counted. */
  ghost predicate Exact(f: nat, present: nat, remainder: nat, counted: nat) {
    0 < f && remainder < f && present * f + remainder == MICROS * counted
  }

  lemma StartExact(f: nat)
    requires f > 0
    ensures Exact(f, 0, 0, 0)
  {
  }

  /** No drift: the invariant pins the present time to the floor of the true time, and the
      remainder to what was cut off, however many updates led here. */
  lemma ExactIsFloor(f: nat, present: nat, remainder: nat, counted: nat)
    requires f > 0
    ensures Exact(f, present, remainder, counted)
            <==> present == Micros(counted, f) && remainder == MICROS * counted % f
  {
    if Exact(f, present, remainder, counted) {
      DivUnique(MICROS * counted, f, present, remainder);
    }
  }

  lemma MicrosMono(a: nat, b: nat, f: nat)
    requires a <= b && f > 0
    ensures Micros(a, f) <= Micros(b, f)
  {
    DivMono(MICROS * a, MICROS * b, f);
  }

  lemma StaysBelowU64(counted: nat, horizon: nat, f: nat)
    requires f > 0 && counted <= horizon && Micros(horizon, f) < U64
    ensures forall present: nat, rem: nat :: Exact(f, present, rem, counted) ==> present < U64
  {
    MicrosMono(counted, horizon, f);
    forall present: nat, rem: nat | Exact(f, present, rem, counted) ensures present < U64 {
      ExactIsFloor(f, present, rem, counted);
    }
  }

  function Carry(f: nat, us: nat, remainder: nat): (nat, nat) {
    if remainder >= f then (us + 1, remainder - f) else (us, remainder)
  }

  /** The three arms of update_present_time: the microseconds that `elapsed` ticks add, and the
      new remainder. */
  function ElapsedUs(f: nat, remainder: nat, elapsed: nat): (nat, nat)
    requires f > 0
  {
    if f == 1_000_000 then
      (elapsed, remainder)
    else if f == 32768 then
      var usXTicks := Low64(elapsed * 1_000_000);
      var us := usXTicks / 32768;
      Carry(f, us, remainder + (usXTicks - us * 32768))
    else
      var usXTicks := Low64(elapsed * 1_000_000);
      var us := usXTicks / f;
      assert us * f <= usXTicks;
      Carry(f, us, remainder + (usXTicks - us * f))
  }

  lemma CarryKeepsExact(f: nat, present: nat, remainder: nat, counted: nat, elapsed: nat)
    requires Exact(f, present, remainder, counted)
    ensures var us := MICROS * elapsed / f;
            && us * f <= MICROS * elapsed
            && var (us', rem) := Carry(f, us, remainder + (MICROS * elapsed - us * f));
               Exact(f, present + us', rem, counted + elapsed)
  {
    var us := MICROS * elapsed / f;
    assert MICROS * elapsed == us * f + MICROS * elapsed % f;
    assert (present + us) * f == present * f + us * f;
    assert (present + us + 1) * f == present * f + us * f + f;
  }

  /** All three arms keep the clock exact, for every frequency. */
  lemma ArmsKeepExact(f: nat, present: nat, remainder: nat, counted: nat, elapsed: nat)
    requires Exact(f, present, remainder, counted) && elapsed < U32
    ensures f > 0 && remainder < f
    ensures var (us, rem) := ElapsedUs(f, remainder, elapsed);
            Exact(f, present + us, rem, counted + elapsed)
  {
    if f != 1_000_000 {
      hide Low64, Carry, Exact;
      CarryKeepsExact(f, present, remainder, counted, elapsed);
    }
  }

  // ---------------------------------------------------------------- deadlines to ticks

  /** The scheduling distance of compute_tick, with the C truncations of its three arms. */
  function ComputeDelta(f: nat, maxDelta: nat, maxDeltaUs: nat, deltaUs: nat): nat
    requires f > 0
  {
    if deltaUs <= maxDeltaUs then
      if f == 1_000_000 then
        Min(Low32(deltaUs), maxDelta)
      else if f == 32768 then
        Min(Low32(Low64(deltaUs * 32768) / MICROS), maxDelta)
      else
        Min(Low32(Low64(deltaUs * f) / MICROS), maxDelta)
    else
      maxDelta
  }

  /** What the `max_delta_us` guard buys: below it nothing overflows, above it the clamp applies. */
  lemma GuardBounds(f: nat, m: nat, deltaUs: nat)
    requires 0 < f < U32 && m <= 0x7000_0000
    ensures deltaUs <= MaxDeltaUs(m, f) ==> deltaUs * f < U64 && Ticks(deltaUs, f) < U32
    ensures deltaUs > MaxDeltaUs(m, f) ==> m <= Ticks(deltaUs, f)
  {
    var mu := MaxDeltaUs(m, f);
    var n := m * MICROS + f - 1;
    assert n == mu * f + n % f;
    if deltaUs <= mu {
      MulMono(deltaUs, mu, f);
      assert deltaUs * f <= n < U64;
    } else {
      MulMono(mu + 1, deltaUs, f);
      assert (mu + 1) * f == mu * f + f;
      assert m * MICROS <= deltaUs * f;
    }
  }

  lemma ArmsAgree(f: nat, m: nat, mu: nat, deltaUs: nat)
    requires f > 0
    requires deltaUs <= mu ==> deltaUs * f < U64 && Ticks(deltaUs, f) < U32
    requires deltaUs > mu ==> m <= Ticks(deltaUs, f)
    ensures ComputeDelta(f, m, mu, deltaUs) == Min(Ticks(deltaUs, f), m)
  {
    var p := deltaUs * f;
    if deltaUs <= mu {
      assert p % U64 == p && (p / MICROS) % U32 == p / MICROS;
      if f == 1_000_000 {
        assert p / MICROS == deltaUs;
      }
    }
  }

  /** For every frequency and width, all arms compute floor(deltaUs * f / 10^6) clamped to the
      maximum; no 64- or 32-bit truncation ever bites. */
  lemma ComputeDeltaExact(f: nat, bits: nat, deltaUs: nat)
    requires ValidInfo(f, bits)
    ensures ComputeDelta(f, MaxDelta(bits), MaxDeltaUs(MaxDelta(bits), f), deltaUs)
            == Min(Ticks(deltaUs, f), MaxDelta(bits))
  {
    Pow2Split(bits);
    GuardBounds(f, MaxDelta(bits), deltaUs);
    ArmsAgree(f, MaxDelta(bits), MaxDeltaUs(MaxDelta(bits), f), deltaUs);
  }

  /** Never late, and less than one tick early. When the alarm is set `delta` ticks past the
      counted time, the microsecond clock at the alarm has not passed the deadline; and unless the
      distance was clamped, one tick later it has reached it. */
  lemma AlarmNeverLate(f: nat, present: nat, remainder: nat, counted: nat, deltaUs: nat, maxDelta: nat)
    requires Exact(f, present, remainder, counted)
    ensures var delta := Min(Ticks(deltaUs, f), maxDelta);
            && Micros(counted + delta, f) <= present + deltaUs
            && (Ticks(deltaUs, f) <= maxDelta ==> Micros(counted + delta + 1, f) >= present + deltaUs)
  {
    var delta := Min(Ticks(deltaUs, f), maxDelta);
    var x := MICROS * (counted + delta);
    assert MICROS * Ticks(deltaUs, f) <= deltaUs * f < MICROS * Ticks(deltaUs, f) + MICROS;
    assert x == present * f + remainder + MICROS * delta;
    assert (present + deltaUs) * f == present * f + deltaUs * f;
    assert x < (present + deltaUs) * f + f;
    var top := (present + deltaUs) * f + (f - 1);
    DivUnique(top, f, present + deltaUs, f - 1);
    DivMono(x, top, f);
    if Ticks(deltaUs, f) <= maxDelta {
      assert MICROS * (counted + delta + 1) == x + MICROS;
      DivUnique((present + deltaUs) * f, f, present + deltaUs, 0);
      DivMono((present + deltaUs) * f, x + MICROS, f);
    }
  }

  /** compute_tick: the counter value to match. */
  function MatchTick(f: nat, maxDelta: nat, maxDeltaUs: nat, tickLastRead: nat, deltaUs: nat, modulus: nat): nat
    requires f > 0 && modulus > 0
  {
    Wrap(Low32(tickLastRead + ComputeDelta(f, maxDelta, maxDeltaUs, deltaUs)), modulus)
  }

  /** The true tick it stands for, and how that relates to the deadline. */
  lemma MatchTickIs(f: nat, bits: nat, present: nat, remainder: nat, counted: nat, last: nat, timestamp: nat)
    returns (target: nat)
    requires ValidInfo(f, bits) && Exact(f, present, remainder, counted) && present <= timestamp
    ensures target == last + Min(Ticks(timestamp - present, f), MaxDelta(bits))
    ensures target <= last + MaxDelta(bits) && 0 < MaxDelta(bits) < Pow2(bits)
    ensures var m, n := MaxDelta(bits), Pow2(bits);
            var tick := MatchTick(f, m, MaxDeltaUs(m, f), Wrap(last, n), timestamp - present, n);
            tick == Wrap(target, n) && (tick == Wrap(last, n) <==> target == last)
    ensures Micros(counted + (target - last), f) <= timestamp
    ensures target < last + MaxDelta(bits) ==> timestamp <= Micros(counted + (target - last) + 1, f)
  {
    hide Wrap, Exact, Micros, Ticks, MaxDelta, MaxDeltaUs, Pow2, ComputeDelta;
    var m := MaxDelta(bits);
    var delta := Min(Ticks(timestamp - present, f), m);
    target := last + delta;
    ComputeDeltaExact(f, bits, timestamp - present);
    TickSum(last, delta, bits);
    WithinWrap(last, m, bits);
    WithinWrap(last, delta, bits);
    AlarmNeverLate(f, present, remainder, counted, timestamp - present, m);
  }

  // ---------------------------------------------------------------- the circular match test

  /** _ticker_match_interval_passed. */
  predicate MatchIntervalPassed(prev: nat, cur: nat, target: nat) {
    if target > prev then
      cur >= target || cur < prev
    else
      cur < prev && cur >= target
  }

  lemma CircularDistance(a: nat, b: nat, modulus: nat)
    requires a < modulus && b < modulus
    ensures Wrap(b - a, modulus) == if a <= b then b - a else b - a + modulus
  {
    if a <= b {
      DivUnique(b - a, modulus, 0, b - a);
    } else {
      var d := b - a + modulus;
      var k := (b - a) / modulus;
      assert b - a == k * modulus + (b - a) % modulus;
      assert (k + 1) * modulus == k * modulus + modulus;
      MulIsZero(k + 1, modulus);
    }
  }

  /** The test is exactly "match lies in (prev, cur] going round the counter". */
  lemma MatchIsCircular(prev: nat, cur: nat, target: nat, modulus: nat)
    requires prev < modulus && cur < modulus && target < modulus
    ensures MatchIntervalPassed(prev, cur, target)
            <==> 0 < Wrap(target - prev, modulus) <= Wrap(cur - prev, modulus)
  {
    CircularDistance(prev, cur, modulus);
    CircularDistance(prev, target, modulus);
  }

  /** On true tick counts: the counter readings of three instants `last <= now` and
      `last < alarm <= last + modulus` pass the test exactly when the alarm has been reached,
      provided no whole wrap went by since `last`. */
  lemma MatchOnTicks(last: nat, now: nat, alarm: nat, modulus: nat)
    requires 0 < modulus && last <= now < last + modulus && last < alarm < last + modulus
    ensures MatchIntervalPassed(Wrap(last, modulus), Wrap(now, modulus), Wrap(alarm, modulus)) <==> alarm <= now
  {
    MatchIsCircular(Wrap(last, modulus), Wrap(now, modulus), Wrap(alarm, modulus), modulus);
    TickDistance(last, now, modulus);
    TickDistance(last, alarm, modulus);
  }

  // ---------------------------------------------------------------- the alarm

  /** The first tick after `after` whose counter reading is `reading`. */
  ghost function NextMatch(after: nat, reading: nat, modulus: nat): int
    requires reading < modulus
  {
    var start := after - Wrap(after, modulus);
    if Wrap(after, modulus) < reading then start + reading else start + modulus + reading
  }

  lemma NextMatchIs(after: nat, reading: nat, modulus: nat)
    requires reading < modulus
    ensures after < NextMatch(after, reading, modulus) <= after + modulus
    ensures Wrap(NextMatch(after, reading, modulus), modulus) == reading
  {
    hide Wrap;
    SplitWrap(after, reading, modulus);
  }

  /** The branch of schedule_interrupt for an empty queue does not look at the counter again. Its
      alarm comes at the intended tick exactly when the register is written before that tick;
      written later, it comes a whole wrap after. */
  lemma IdleAlarm(last: nat, delta: nat, armedAt: nat, modulus: nat)
    requires delta < modulus && last <= armedAt < last + delta + modulus
    ensures var alarm := NextMatch(armedAt, Wrap(last + delta, modulus), modulus);
            && (alarm == last + delta <==> armedAt < last + delta)
            && (armedAt >= last + delta ==> alarm == last + delta + modulus)
  {
    hide Wrap, NextMatch;
    NextMatchIs(armedAt, Wrap(last + delta, modulus), modulus);
    var alarm := NextMatch(armedAt, Wrap(last + delta, modulus), modulus);
    WrapPlus(last + delta, modulus);
    if armedAt < last + delta {
      MatchUnique(armedAt, alarm, last + delta, modulus);
    } else {
      MatchUnique(armedAt, alarm, last + delta + modulus, modulus);
    }
  }

  /** schedule_interrupt without an event: the counter value to match. */
  function IdleTick(maxDelta: nat, tickLastRead: nat, modulus: nat): nat
    requires modulus > 0
  {
    Wrap(Low32(tickLastRead + maxDelta), modulus)
  }

  /** What scheduling leaves behind: an interrupt is pending, or the alarm is still to come, at
      most `maxDelta` ticks after the last tick counted. */
  ghost predicate Armed(pending: bool, now: nat, alarm: nat, last: nat, maxDelta: nat) {
    pending || (now < alarm && last < alarm <= last + maxDelta)
  }
}
