/** The bunk-feasibility engine: how many classes remain until the end of
    the semester, how many of them a student may skip and still finish at or
    above a target attendance percentage, and what a given number of skips
    would leave them with. Percentages are exact reals. */
module BunkCalculator {
  import opened Calendar

  // ---------------------------------------------------------------------
  // Calendar projection: calculateRemainingClasses
  // ---------------------------------------------------------------------

  /** Weekday names, indexed by Weekday (Sunday first); the timetable is
      keyed by these names. */
  const Week: seq<string> := ["Sun", "Mon", "Tue", "Wed", "Thu", "Fri", "Sat"]

  /** `timetable[name] || 0`: the number of classes on the named weekday,
      0 when the timetable has no entry for it. */
  function ClassesOn(timetable: map<string, int>, name: string): (classes: int)
    ensures name !in timetable ==> classes == 0
    ensures (forall k :: k in timetable ==> timetable[k] >= 0) ==> classes >= 0
  {
    if name in timetable then timetable[name] else 0
  }

  /** A day on which no class is held whatever the timetable says: a Sunday,
      a second or fourth Saturday, or a listed holiday. */
  predicate IsExcluded(d: Day, holidays: seq<Day>): (excluded: bool)
    ensures excluded <==> Weekday(d) == Sunday
                          || (Weekday(d) == Saturday && WeekdayOccurrence(DayOfMonth(d)) in {2, 4})
                          || d in holidays
  {
    SecondOrFourthSaturdayIsNthOccurrence(d);
    Weekday(d) == Sunday || IsSecondOrFourthSaturday(d) || IsHoliday(d, holidays)
  }

  /** What one day adds to the remaining classes. */
  function Contribution(timetable: map<string, int>, holidays: seq<Day>, d: Day): (classes: int)
    ensures classes != 0 ==> 1 <= Weekday(d) <= 6 && d !in holidays && !IsSecondOrFourthSaturday(d)
    ensures (forall k :: k in timetable ==> timetable[k] >= 0) ==> classes >= 0
  {
    if IsExcluded(d, holidays) then 0 else ClassesOn(timetable, Week[Weekday(d)])
  }

  /** The classes held from day `from` through day `end`, both inclusive. */
  function Remaining(timetable: map<string, int>, holidays: seq<Day>, from: Day, end: Day): int
    decreases end - from
  {
    if from > end then 0
    else Contribution(timetable, holidays, from) + Remaining(timetable, holidays, from + 1, end)
  }

  /** calculateRemainingClasses, with the current day and hour passed in:
      walks from the start date up to, not including, the day after the
      semester end, adding the timetable's count for every day that is not
      a Sunday, a second or fourth Saturday or a holiday. */
  method CalculateRemainingClasses(timetable: map<string, int>, semesterEnd: Day,
                                   holidays: seq<Day>, today: Day, hour: int)
    returns (remainingClasses: int, startDate: Day)
    ensures hour >= 17 ==> startDate == NextDate(today)
    ensures hour < 17 ==> startDate == today
    ensures remainingClasses == Remaining(timetable, holidays, startDate, semesterEnd)
    ensures startDate > semesterEnd ==> remainingClasses == 0
  {
    startDate := today;
    if hour >= 17 {
      startDate := NextDate(startDate);
    }
    var temp := startDate;
    var end := NextDate(semesterEnd);
    var remaining := 0;
    while temp < end
      invariant remaining + Remaining(timetable, holidays, temp, semesterEnd)
                == Remaining(timetable, holidays, startDate, semesterEnd)
      decreases end - temp
    {
      var name := Week[Weekday(temp)];
      if name != "Sun" && !(name == "Sat" && IsSecondOrFourthSaturday(temp))
         && !IsHoliday(temp, holidays)
      {
        remaining := remaining + ClassesOn(timetable, name);
      }
      temp := NextDate(temp);
    }
    remainingClasses := remaining;
  }

  /** Every day from `from` through `end`, in order. */
  function DaysBetween(from: Day, end: Day): (days: seq<Day>)
    ensures |days| == if from <= end then end - from + 1 else 0
    ensures forall i :: 0 <= i < |days| ==> days[i] == from + i
    decreases end - from
  {
    if from > end then [] else [from] + DaysBetween(from + 1, end)
  }

  /** The days of `days` on which classes are held. */
  function Instructional(days: seq<Day>, holidays: seq<Day>): (kept: seq<Day>)
    ensures forall d :: d in kept <==> d in days && !IsExcluded(d, holidays)
    ensures |kept| <= |days|
  {
    if days == [] then []
    else if IsExcluded(days[0], holidays) then Instructional(days[1..], holidays)
    else [days[0]] + Instructional(days[1..], holidays)
  }

  /** The timetable's classes summed over `days`, each day counted by its
      weekday. */
  function TimetableSum(timetable: map<string, int>, days: seq<Day>): int
  {
    if days == [] then 0
    else ClassesOn(timetable, Week[Weekday(days[0])]) + TimetableSum(timetable, days[1..])
  }

  /** An excluded day adds nothing, whatever its timetable entry; every other
      day adds its weekday's timetable entry. */
  lemma ExcludedDayContributesZero(timetable: map<string, int>, holidays: seq<Day>, d: Day)
    ensures Weekday(d) == Sunday ==> Contribution(timetable, holidays, d) == 0
    ensures IsSecondOrFourthSaturday(d) ==> Contribution(timetable, holidays, d) == 0
    ensures d in holidays ==> Contribution(timetable, holidays, d) == 0
    ensures !IsExcluded(d, holidays) ==>
              Contribution(timetable, holidays, d) == ClassesOn(timetable, Week[Weekday(d)])
  {
  }

  /** The remaining classes are the timetable summed over the instructional
      days from `from` through `end`. */
  lemma {:induction false} RemainingIsFilteredSum(timetable: map<string, int>, holidays: seq<Day>,
                                                  from: Day, end: Day)
    ensures Remaining(timetable, holidays, from, end)
            == TimetableSum(timetable, Instructional(DaysBetween(from, end), holidays))
    decreases end - from
  {
    if from <= end {
      var rest := DaysBetween(from + 1, end);
      assert DaysBetween(from, end) == [from] + rest;
      assert ([from] + rest)[1..] == rest;
      RemainingIsFilteredSum(timetable, holidays, from + 1, end);
      if !IsExcluded(from, holidays) {
        var kept := Instructional(rest, holidays);
        assert ([from] + kept)[1..] == kept;
      }
    }
  }

  /** Projecting over consecutive stretches adds up: the classes from `from`
      through `end` are those through `mid` plus those after it. */
  lemma {:induction false} RemainingSplits(timetable: map<string, int>, holidays: seq<Day>,
                                           from: Day, mid: Day, end: Day)
    requires from - 1 <= mid <= end
    ensures Remaining(timetable, holidays, from, end)
            == Remaining(timetable, holidays, from, mid) + Remaining(timetable, holidays, mid + 1, end)
    decreases mid - from
  {
    if from <= mid {
      RemainingSplits(timetable, holidays, from + 1, mid, end);
    }
  }

  /** Holidays outside the projected stretch have no effect. */
  lemma {:induction false} HolidaysOutsideIgnored(timetable: map<string, int>, holidays: seq<Day>,
                                                  others: seq<Day>, from: Day, end: Day)
    requires forall d :: from <= d <= end ==> (d in holidays <==> d in others)
    ensures Remaining(timetable, holidays, from, end) == Remaining(timetable, others, from, end)
    decreases end - from
  {
    if from <= end {
      HolidaysOutsideIgnored(timetable, holidays, others, from + 1, end);
    }
  }

  /** With no negative timetable entry, more holidays never mean more
      classes, and the count is never negative. */
  lemma {:induction false} MoreHolidaysFewerClasses(timetable: map<string, int>, holidays: seq<Day>,
                                                    more: seq<Day>, from: Day, end: Day)
    requires forall name :: name in timetable ==> timetable[name] >= 0
    requires forall d :: d in holidays ==> d in more
    ensures 0 <= Remaining(timetable, more, from, end) <= Remaining(timetable, holidays, from, end)
    decreases end - from
  {
    if from <= end {
      MoreHolidaysFewerClasses(timetable, holidays, more, from + 1, end);
    }
  }

  /** One class on each of Monday to Saturday and none on Sunday, projected
      over Monday 2025-11-24 (day 20416) to Friday 2025-11-28, with no
      holidays: five classes remain. */
  lemma ExampleWorkingWeek()
    ensures var timetable := map["Sun" := 0, "Mon" := 1, "Tue" := 1, "Wed" := 1,
                                 "Thu" := 1, "Fri" := 1, "Sat" := 1];
            Remaining(timetable, [], 20416, 20420) == 5
  {
  }

  // ---------------------------------------------------------------------
  // Feasibility: calculateBunksAndReachability
  // ---------------------------------------------------------------------

  /** `(attended / total) * 100` */
  function Percent(attended: int, total: int): real
    requires total > 0
  {
    (attended as real / total as real) * 100.0
  }

  /** The final percentage after skipping `b` of the `r` remaining classes and
      attending the rest, with `a` of `t` attended so far. */
  function FinalPercent(a: int, t: int, r: int, b: int): real
    requires t + r > 0
  {
    Percent(a + (r - b), t + r)
  }

  /** Skipping `b` classes still ends at or above the target `p`. */
  predicate Meets(a: int, t: int, r: int, p: real, b: int)
    requires t + r > 0
  {
    FinalPercent(a, t, r, b) >= p
  }

  /** The best case: every remaining class attended. */
  function MaxPossible(a: int, t: int, r: int): (best: real)
    requires t + r > 0
    ensures best == FinalPercent(a, t, r, 0)
    ensures forall b :: 0 <= b ==> FinalPercent(a, t, r, b) <= best
  {
    Percent(a + r, t + r)
  }

  /** The largest `b` in 0..hi that meets the target, 0 if none does. */
  function LargestMeetingUpTo(a: int, t: int, r: int, p: real, hi: int): (best: int)
    requires t + r > 0
    ensures 0 <= best && (hi >= 0 ==> best <= hi)
    ensures best == 0 || Meets(a, t, r, p, best)
    ensures forall b :: best < b <= hi ==> !Meets(a, t, r, p, b)
    decreases hi
  {
    if hi < 0 then 0
    else if Meets(a, t, r, p, hi) then hi
    else LargestMeetingUpTo(a, t, r, p, hi - 1)
  }

  /** The search result before the safety margin. */
  function RawBunkable(a: int, t: int, r: int, p: real): int
    requires t + r > 0
  {
    LargestMeetingUpTo(a, t, r, p, r)
  }

  /** The safety margin: from 5 on, two fewer. */
  function SafetyMargin(raw: int): (bunkable: int)
    ensures raw >= 0 ==> 0 <= bunkable <= raw
    ensures raw >= 5 ==> bunkable == raw - 2
    ensures bunkable == raw <==> raw < 5
  {
    if raw >= 5 then raw - 2 else raw
  }

  /** The result of calculateBunksAndReachability; maxPossibleAttendance is
      the exact value that the source rounds to two decimals. */
  datatype Feasibility = Feasibility(bunkable: int, reachable: bool, maxPossibleAttendance: real)

  /** calculateBunksAndReachability: try every skip count from 0 to the
      remaining classes, keep the last one that still meets the target, take
      the safety margin off, and report whether the best case meets the
      target. */
  method CalculateBunksAndReachability(pastAttended: int, pastTotal: int,
                                       remainingClasses: int, targetPercent: real)
    returns (result: Feasibility)
    requires pastTotal + remainingClasses > 0
    ensures result.bunkable
            == SafetyMargin(RawBunkable(pastAttended, pastTotal, remainingClasses, targetPercent))
    ensures result.maxPossibleAttendance == MaxPossible(pastAttended, pastTotal, remainingClasses)
    ensures result.reachable <==> result.maxPossibleAttendance >= targetPercent
    ensures 0 <= result.bunkable && (remainingClasses >= 0 ==> result.bunkable <= remainingClasses)
  {
    var bunkable := 0;
    var b := 0;
    while b <= remainingClasses
      invariant 0 <= b <= Max(0, remainingClasses + 1)
      invariant bunkable == LargestMeetingUpTo(pastAttended, pastTotal, remainingClasses,
                                               targetPercent, b - 1)
    {
      var newAtt := pastAttended + (remainingClasses - b);
      var newTotal := pastTotal + remainingClasses;
      var percent := (newAtt as real / newTotal as real) * 100.0;
      if percent >= targetPercent {
        bunkable := b;
      }
      b := b + 1;
    }
    if bunkable >= 5 {
      bunkable := bunkable - 2;
    }
    var maxPossible := ((pastAttended + remainingClasses) as real
                        / (pastTotal + remainingClasses) as real) * 100.0;
    result := Feasibility(bunkable, maxPossible >= targetPercent, maxPossible);
  }

  /** Monotonicity, the fact that justifies the search: skipping more never
      raises the final percentage. */
  lemma FinalPercentNonIncreasing(a: int, t: int, r: int, b1: int, b2: int)
    requires t + r > 0
    requires b1 <= b2
    ensures FinalPercent(a, t, r, b2) <= FinalPercent(a, t, r, b1)
  {
  }

  /** Meeting the target compared without division: `100 * (a + r - b) >= p * (t + r)`. */
  lemma MeetsIffCrossMultiplied(a: int, t: int, r: int, p: real, b: int)
    requires t + r > 0
    ensures Meets(a, t, r, p, b) <==> 100.0 * (a + r - b) as real >= p * (t + r) as real
  {
  }

  /** Skipping fewer classes than a count that meets the target meets it too. */
  lemma MeetsDownwardClosed(a: int, t: int, r: int, p: real, b1: int, b2: int)
    requires t + r > 0
    requires b1 <= b2 && Meets(a, t, r, p, b2)
    ensures Meets(a, t, r, p, b1)
  {
  }

  /** The search finds the largest skip count in 0..r that meets the target,
      and every smaller count meets it too; when none does, it gives 0. */
  lemma RawBunkableIsLargest(a: int, t: int, r: int, p: real)
    requires t + r > 0
    ensures var raw := RawBunkable(a, t, r, p);
            0 <= raw && (r >= 0 ==> raw <= r)
            && (forall b :: raw < b <= r ==> !Meets(a, t, r, p, b))
            && (Meets(a, t, r, p, raw) ==> forall b :: 0 <= b <= raw ==> Meets(a, t, r, p, b))
            && (!Meets(a, t, r, p, raw) ==> raw == 0 && forall b :: 0 <= b <= r ==> !Meets(a, t, r, p, b))
  {
  }

  /** The search agrees with the closed form `b <= a + r - p * (t + r) / 100`:
      the raw result is the largest whole number within that budget, capped
      at r, or 0 when the budget is negative. */
  lemma RawBunkableClosedForm(a: int, t: int, r: int, p: real)
    requires t + r > 0
    ensures var budget := (a + r) as real - p * (t + r) as real / 100.0;
            RawBunkable(a, t, r, p)
            == if r < 0 || budget < 0.0 then 0 else Min(r, budget.Floor)
  {
    var budget := (a + r) as real - p * (t + r) as real / 100.0;
    forall b ensures Meets(a, t, r, p, b) <==> b as real <= budget {
      MeetsIffCrossMultiplied(a, t, r, p, b);
    }
    var raw := RawBunkable(a, t, r, p);
    if r >= 0 && budget >= 0.0 {
      var c := Min(r, budget.Floor);
      assert Meets(a, t, r, p, c);
      assert Meets(a, t, r, p, raw) ==> raw <= c;
    }
  }

  /** The target is reachable exactly when skipping nothing meets it. */
  lemma ReachableIffNoSkipMeets(a: int, t: int, r: int, p: real)
    requires t + r > 0
    ensures MaxPossible(a, t, r) >= p <==> Meets(a, t, r, p, 0)
  {
  }

  /** An unreachable target leaves nothing to skip. */
  lemma UnreachableMeansNoBunks(a: int, t: int, r: int, p: real)
    requires t + r > 0
    requires MaxPossible(a, t, r) < p
    ensures RawBunkable(a, t, r, p) == 0
    ensures SafetyMargin(RawBunkable(a, t, r, p)) == 0
  {
    var raw := RawBunkable(a, t, r, p);
    if raw != 0 {
      MeetsDownwardClosed(a, t, r, p, 0, raw);
    }
  }

  /** Following the advice is safe: when the target is reachable, skipping
      the returned number of classes still ends at or above it. */
  lemma BunkableIsSafe(a: int, t: int, r: int, p: real)
    requires t + r > 0
    requires MaxPossible(a, t, r) >= p
    ensures Meets(a, t, r, p, SafetyMargin(RawBunkable(a, t, r, p)))
  {
  }

  /** With nothing left to attend, nothing can be skipped and the best case is
      the current percentage. */
  lemma NoRemainingClasses(a: int, t: int, p: real)
    requires t > 0
    ensures RawBunkable(a, t, 0, p) == 0 && SafetyMargin(RawBunkable(a, t, 0, p)) == 0
    ensures MaxPossible(a, t, 0) == Percent(a, t)
  {
  }

  /** 60 of 80 attended (75%), 5 classes left, target 75%: the best case is
      6500/85 = 1300/17 (76.47%), reachable, and exactly one class may be
      skipped (100 * 64 / 85 is 75.29%, 100 * 63 / 85 is 74.12%). */
  lemma ExampleSeventyFivePercent()
    ensures MaxPossible(60, 80, 5) == 1300.0 / 17.0
    ensures MaxPossible(60, 80, 5) >= 75.0
    ensures RawBunkable(60, 80, 5, 75.0) == 1
    ensures SafetyMargin(RawBunkable(60, 80, 5, 75.0)) == 1
  {
  }

  /** The margin's threshold: a raw result of 5 becomes 3, one of 4 stays 4. */
  lemma SafetyMarginThreshold()
    ensures SafetyMargin(5) == 3 && SafetyMargin(4) == 4
  {
  }

  // ---------------------------------------------------------------------
  // Simulation: simulateBunk
  // ---------------------------------------------------------------------

  /** simulateBunk: the final percentage if `count` of the remaining classes
      are skipped; skipping more than remain attends none of them. */
  function SimulateBunk(pastAttended: int, pastTotal: int, remainingClasses: int, count: int): (pct: real)
    requires pastTotal + remainingClasses > 0
    ensures count <= remainingClasses ==>
              pct == FinalPercent(pastAttended, pastTotal, remainingClasses, count)
    ensures remainingClasses <= count ==>
              pct == Percent(pastAttended, pastTotal + remainingClasses)
  {
    var attended := pastAttended + Max(0, remainingClasses - count);
    var total := pastTotal + remainingClasses;
    (attended as real / total as real) * 100.0
  }

  /** Skipping the given number of classes, for a count within 0..r, is what
      the search evaluated for that count. */
  lemma SimulationMatchesSearch(a: int, t: int, r: int, count: int)
    requires t + r > 0
    requires 0 <= count <= r
    ensures SimulateBunk(a, t, r, count) == FinalPercent(a, t, r, count)
  {
  }

  /** A simulation of a non-negative number of skips never beats attending
      everything. */
  lemma SimulationNeverExceedsBest(a: int, t: int, r: int, count: int)
    requires t + r > 0 && r >= 0 && count >= 0
    ensures SimulateBunk(a, t, r, count) <= MaxPossible(a, t, r)
  {
    var skipped := if count <= r then count else r;
    assert SimulateBunk(a, t, r, count) == FinalPercent(a, t, r, skipped);
  }

  /** Skipping the returned number of classes simulates to at least a
      reachable target. */
  lemma SimulatedAdviceMeetsTarget(a: int, t: int, r: int, p: real)
    requires t + r > 0 && r >= 0
    requires MaxPossible(a, t, r) >= p
    ensures SimulateBunk(a, t, r, SafetyMargin(RawBunkable(a, t, r, p))) >= p
  {
  }

  /** Skipping more never raises the simulated percentage, and from r on it no
      longer changes. */
  lemma SimulationMonotone(a: int, t: int, r: int, c1: int, c2: int)
    requires t + r > 0
    requires c1 <= c2
    ensures SimulateBunk(a, t, r, c2) <= SimulateBunk(a, t, r, c1)
    ensures r <= c1 ==> SimulateBunk(a, t, r, c2) == SimulateBunk(a, t, r, c1)
  {
    var n := (t + r) as real;
    var x1 := (a + Max(0, r - c1)) as real;
    var x2 := (a + Max(0, r - c2)) as real;
    assert x1 / n - x2 / n == (x1 - x2) / n;
  }

  /** Same snapshot, skipping 2: 100 * 63 / 85 = 1260/17 (74.12%). */
  lemma ExampleSimulation()
    ensures SimulateBunk(60, 80, 5, 2) == 1260.0 / 17.0
  {
  }

  function Max(x: int, y: int): int
  {
    if x >= y then x else y
  }

  function Min(x: int, y: int): int
  {
    if x <= y then x else y
  }
}
