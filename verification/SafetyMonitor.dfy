/** The supervision in main.cpp: the monitor with a soft lower limit, and the round robin over the
    safety checks. */
module SafetyMonitor {
  import opened Arithmetic

  // ---------------------------------------------------------------- soft lower limit

  datatype Limits = Limits(lowerHard: int, lowerTol: int, upperHard: int, repeatTol: nat)

  predicate Hard(l: Limits, value: int) {
    l.lowerHard > value || l.upperHard < value
  }

  predicate Low(l: Limits, value: int) {
    l.lowerTol > value
  }

  class SoftBottomTolerance {
    const limits: Limits
    var violations: nat

    constructor (limits: Limits)
      ensures this.limits == limits && violations == 0
    {
      this.limits := limits;
      violations := 0;
    }

    /** go_safe_and_reset_tolerance. True when it shuts the board down. */
    method Check(value: int) returns (tripped: bool)
      modifies this
      ensures (tripped, violations) == CheckStep(limits, old(violations), value)
    {
      if limits.lowerHard > value || limits.upperHard < value {
        return true;
      }
      if limits.lowerTol > value {
        if violations >= limits.repeatTol {
          return true;
        }
        violations := violations + 1;
        return false;
      } else {
        violations := 0;
        return false;
      }
    }
  }

  function CheckStep(l: Limits, violations: nat, value: int): (bool, nat) {
    if Hard(l, value) then (true, violations)
    else if !Low(l, value) then (false, 0)
    else if violations >= l.repeatTol then (true, violations)
    else (false, violations + 1)
  }

  /** The monitor over a series of samples; it stops at the first trip. */
  datatype Monitor = Running(violations: nat) | Tripped(at: nat)

  function Watch(l: Limits, samples: seq<int>): Monitor {
    if samples == [] then Running(0)
    else
      match Watch(l, samples[..|samples| - 1])
      case Tripped(k) => Tripped(k)
      case Running(v) =>
        var (trip, v') := CheckStep(l, v, samples[|samples| - 1]);
        if trip then Tripped(|samples| - 1) else Running(v')
  }

  /** What should trip it: a sample outside the hard limits, or the last of repeatTol + 1
      consecutive samples below the soft one. */
  predicate Violation(l: Limits, samples: seq<int>, k: nat)
    requires k < |samples|
  {
    || samples[k] < l.lowerHard || samples[k] > l.upperHard
    || (k >= l.repeatTol && forall i :: k - l.repeatTol <= i <= k ==> samples[i] < l.lowerTol)
  }

  /** How many samples at the end are below the soft limit. */
  function Streak(l: Limits, samples: seq<int>): nat {
    if samples == [] || !Low(l, samples[|samples| - 1]) then 0
    else 1 + Streak(l, samples[..|samples| - 1])
  }

  lemma {:induction false} StreakIs(l: Limits, samples: seq<int>)
    ensures Streak(l, samples) <= |samples|
    ensures forall i :: |samples| - Streak(l, samples) <= i < |samples| ==> Low(l, samples[i])
    ensures Streak(l, samples) < |samples| ==> !Low(l, samples[|samples| - 1 - Streak(l, samples)])
  {
    if samples != [] && Low(l, samples[|samples| - 1]) {
      StreakIs(l, samples[..|samples| - 1]);
    }
  }

  /** For every series of samples the counter trips at exactly the first violation. */
  lemma {:induction false} TripsAtFirstViolation(l: Limits, samples: seq<int>)
    ensures match Watch(l, samples)
            case Running(v) => v == Streak(l, samples) && forall k :: 0 <= k < |samples| ==> !Violation(l, samples, k)
            case Tripped(k) => k < |samples| && Violation(l, samples, k)
                               && forall j :: 0 <= j < k ==> !Violation(l, samples, j)
  {
    if samples != [] {
      var n := |samples| - 1;
      var before := samples[..n];
      TripsAtFirstViolation(l, before);
      ViolationPrefix(l, samples);
      if Watch(l, before).Running? {
        StreakIs(l, before);
        LastViolation(l, samples);
      }
    }
  }

  lemma ViolationPrefix(l: Limits, samples: seq<int>)
    requires samples != []
    ensures forall k :: 0 <= k < |samples| - 1 ==>
              (Violation(l, samples, k) <==> Violation(l, samples[..|samples| - 1], k))
  {
    var before := samples[..|samples| - 1];
    assert forall i :: 0 <= i < |before| ==> before[i] == samples[i];
  }

  /** The last sample is a violation exactly when it is hard or the streak before it is full. */
  lemma LastViolation(l: Limits, samples: seq<int>)
    requires samples != []
    ensures var n := |samples| - 1;
            Violation(l, samples, n) <==>
              Hard(l, samples[n]) || (Low(l, samples[n]) && Streak(l, samples[..n]) >= l.repeatTol)
  {
    var n := |samples| - 1;
    var before := samples[..n];
    var s := Streak(l, before);
    StreakIs(l, before);
    assert forall i :: 0 <= i < n ==> before[i] == samples[i];
    if s < l.repeatTol && n >= l.repeatTol {
      assert !Low(l, samples[n - 1 - s]);
    }
  }

  // ---------------------------------------------------------------- the round robin

  /** The checks of safety_check are numbered 0 to 21. */
  const CHECKS: nat := 22

  /** The next item. A disabled one does not match any case of the switch, so it takes the default,
      which starts over. */
  function NextItem(disabled: set<nat>, item: nat): nat {
    if item in disabled || item >= CHECKS then 0 else item + 1
  }

  function ItemAt(disabled: set<nat>, turn: nat): nat {
    if turn == 0 then 0 else NextItem(disabled, ItemAt(disabled, turn - 1))
  }

  /** The first item that starts over. */
  function FirstStop(disabled: set<nat>, from: nat): nat
    decreases CHECKS - from
  {
    if from >= CHECKS || from in disabled then from else FirstStop(disabled, from + 1)
  }

  lemma {:induction false} FirstStopIs(disabled: set<nat>, from: nat)
    requires from <= CHECKS
    ensures var d := FirstStop(disabled, from);
            && from <= d <= CHECKS && (d < CHECKS ==> d in disabled)
            && forall i :: from <= i < d ==> i !in disabled
    decreases CHECKS - from
  {
    if from < CHECKS && from !in disabled {
      FirstStopIs(disabled, from + 1);
    }
  }

  lemma {:induction false} RoundRobin(disabled: set<nat>, turn: nat)
    ensures ItemAt(disabled, turn) == turn % (FirstStop(disabled, 0) + 1)
  {
    hide NextItem, FirstStop;
    var n := FirstStop(disabled, 0) + 1;
    if turn == 0 {
      DivUnique(0, n, 0, 0);
    } else {
      RoundRobin(disabled, turn - 1);
      NextResidue(turn - 1, n);
      NextIs(disabled, ItemAt(disabled, turn - 1));
    }
  }

  lemma NextIs(disabled: set<nat>, item: nat)
    requires item <= FirstStop(disabled, 0)
    ensures NextItem(disabled, item) == if item == FirstStop(disabled, 0) then 0 else item + 1
  {
    FirstStopIs(disabled, 0);
  }

  lemma NextResidue(x: nat, n: nat)
    requires n > 0
    ensures (x + 1) % n == if x % n + 1 == n then 0 else x % n + 1
  {
    var q, r := x / n, x % n;
    assert x == q * n + r;
    assert (q + 1) * n == q * n + n;
    if r + 1 == n {
      DivUnique(x + 1, n, q + 1, 0);
    } else {
      DivUnique(x + 1, n, q, r + 1);
    }
  }

  /** A check is ever performed exactly when neither it nor any check before it is disabled:
      disabling one check silently disables all the later ones. */
  lemma PerformedExactly(disabled: set<nat>, check: nat)
    requires check < CHECKS
    ensures (exists turn :: ItemAt(disabled, turn) == check && check !in disabled)
            <==> forall i :: 0 <= i <= check ==> i !in disabled
  {
    var d := FirstStop(disabled, 0);
    FirstStopIs(disabled, 0);
    if check < d {
      RoundRobin(disabled, check);
      DivUnique(check, d + 1, 0, check);
      assert ItemAt(disabled, check) == check;
    } else {
      forall turn ensures !(ItemAt(disabled, turn) == check && check !in disabled) {
        RoundRobin(disabled, turn);
      }
    }
  }

  /** On board 012, whose check 12 is disabled, the checks 13 to 21 never run. */
  lemma Board012(check: nat, turn: nat)
    requires 12 < check < CHECKS
    ensures ItemAt({12}, turn) != check
  {
    PerformedExactly({12}, check);
    assert 12 in {12};
  }
}
