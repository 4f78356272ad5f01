/**
 * The report composer of `reports` (core/views.py): it partitions a user's
 * habits that are not deleted into ongoing and completed ones, analyses the
 * ongoing ones (completion rate and highest streak), totals their days,
 * picks one of four summary tiers and collects the milestone badges.
 *
 * The habit table is given as a sequence of rows in the order the database
 * returns them, each row holding a habit and its entries in date order.
 */
module Reports {
  import opened Models
  import opened Rates
  import opened Streaks

  /** One element of habit_data */
  datatype HabitData = HabitData(name: string, completionRate: real, isCompleted: bool, highestStreak: nat)

  /** The four summary messages; their text is presentation and is not modelled */
  datatype Tier = ZeroState | TopTier | MidTier | Encouragement

  datatype Badge =
    | TenDaysConsistent
    | ThirtyDayChampion
    | WeekLongWarrior
    | HabitFinisher(count: nat)
    | PerfectHabitMaster
    | NearPerfectAchiever
    | ThreeQuarterTitan
    | HalfwayHero
    | FirstSteps

  datatype Report = Report(
    habitData: seq<HabitData>,
    totalHabits: nat,
    ongoingHabits: nat,
    completedHabits: nat,
    totalCompletedDays: nat,
    totalPossibleDays: nat,
    overallRate: real,
    summary: Tier,
    milestones: seq<Badge>)

  predicate IsLive(user: UserId, r: HabitRow)
  {
    r.habit.user == user && !r.habit.isDeleted
  }

  predicate IsOngoing(user: UserId, r: HabitRow)
  {
    IsLive(user, r) && !r.habit.isCompleted
  }

  predicate IsFinished(user: UserId, r: HabitRow)
  {
    IsLive(user, r) && r.habit.isCompleted
  }

  /** Habit.objects.filter(user=user, is_deleted=False) */
  function Live(user: UserId, rows: seq<HabitRow>): (live: seq<HabitRow>)
    ensures |live| <= |rows|
    ensures forall r :: r in live <==> r in rows && IsLive(user, r)
    ensures forall r :: multiset(live)[r] == if IsLive(user, r) then multiset(rows)[r] else 0
  {
    if rows == [] then []
    else
      assert rows == rows[..|rows| - 1] + [rows[|rows| - 1]];
      Live(user, rows[..|rows| - 1]) + (if IsLive(user, rows[|rows| - 1]) then [rows[|rows| - 1]] else [])
  }

  /** the same filter with is_completed=False */
  function Ongoing(user: UserId, rows: seq<HabitRow>): (ongoing: seq<HabitRow>)
    ensures |ongoing| <= |rows|
    ensures forall r :: r in ongoing <==> r in rows && IsOngoing(user, r)
    ensures forall r :: multiset(ongoing)[r] == if IsOngoing(user, r) then multiset(rows)[r] else 0
  {
    if rows == [] then []
    else
      assert rows == rows[..|rows| - 1] + [rows[|rows| - 1]];
      Ongoing(user, rows[..|rows| - 1]) + (if IsOngoing(user, rows[|rows| - 1]) then [rows[|rows| - 1]] else [])
  }

  /** the same filter with is_completed=True */
  function Finished(user: UserId, rows: seq<HabitRow>): (finished: seq<HabitRow>)
    ensures |finished| <= |rows|
    ensures forall r :: r in finished <==> r in rows && IsFinished(user, r)
    ensures forall r :: multiset(finished)[r] == if IsFinished(user, r) then multiset(rows)[r] else 0
  {
    if rows == [] then []
    else
      assert rows == rows[..|rows| - 1] + [rows[|rows| - 1]];
      Finished(user, rows[..|rows| - 1]) + (if IsFinished(user, rows[|rows| - 1]) then [rows[|rows| - 1]] else [])
  }

  /**
   * The analysis of one habit: its name and completion flag, a rate that is
   * a percentage, and a highest streak no larger than its completed days.
   */
  function Stats(r: HabitRow): (d: HabitData)
    ensures d.name == r.habit.name && d.isCompleted == r.habit.isCompleted
    ensures 0.0 <= d.completionRate <= 100.0
    ensures d.highestStreak <= CompletedCount(r.entries)
  {
    StreaksAccountForCompletedEntries(r.entries);
    HabitData(r.habit.name, CompletionRate(r.entries), r.habit.isCompleted, HighestStreak(r.entries))
  }

  function HabitDataOf(rows: seq<HabitRow>): (data: seq<HabitData>)
    ensures |data| == |rows|
    ensures forall i :: 0 <= i < |rows| ==> data[i] == Stats(rows[i])
  {
    if rows == [] then []
    else HabitDataOf(rows[..|rows| - 1]) + [Stats(rows[|rows| - 1])]
  }

  /** Sum of completed_days */
  function DaysCompleted(rows: seq<HabitRow>): (n: nat)
    ensures n == 0 <==> forall i :: 0 <= i < |rows| ==> CompletedCount(rows[i].entries) == 0
  {
    if rows == [] then 0
    else DaysCompleted(rows[..|rows| - 1]) + CompletedCount(rows[|rows| - 1].entries)
  }

  /** Sum of total_days */
  function DaysPossible(rows: seq<HabitRow>): (n: nat)
    ensures n == 0 <==> forall i :: 0 <= i < |rows| ==> rows[i].entries == []
  {
    if rows == [] then 0
    else DaysPossible(rows[..|rows| - 1]) + |rows[|rows| - 1].entries|
  }

  lemma {:induction false} CompletedWithinPossible(rows: seq<HabitRow>)
    ensures DaysCompleted(rows) <= DaysPossible(rows)
  {
    if rows != [] {
      CompletedWithinPossible(rows[..|rows| - 1]);
    }
  }

  /** Every habit that is not deleted is either ongoing or completed */
  lemma {:induction false} PartitionCounts(user: UserId, rows: seq<HabitRow>)
    ensures |Ongoing(user, rows)| + |Finished(user, rows)| == |Live(user, rows)|
  {
    if rows != [] {
      PartitionCounts(user, rows[..|rows| - 1]);
    }
  }

  /** The summary tier chosen by thresholds on the overall rate; 75 and 50 are inclusive */
  function SummaryTier(totalHabits: nat, overall: real): (t: Tier)
    ensures t == ZeroState <==> totalHabits == 0
    ensures t == TopTier <==> totalHabits > 0 && overall >= 75.0
    ensures t == MidTier <==> totalHabits > 0 && 50.0 <= overall < 75.0
    ensures t == Encouragement <==> totalHabits > 0 && overall < 50.0
  {
    if totalHabits == 0 then ZeroState
    else if overall >= 75.0 then TopTier
    else if overall >= 50.0 then MidTier
    else Encouragement
  }

  predicate AnyStreakAtLeast(data: seq<HabitData>, n: nat)
  {
    exists i :: 0 <= i < |data| && data[i].highestStreak >= n
  }

  predicate AnyRateAtLeast(data: seq<HabitData>, t: real)
  {
    exists i :: 0 <= i < |data| && data[i].completionRate >= t
  }

  /** Position of each badge in the fixed order in which they are evaluated */
  function Rank(b: Badge): nat
  {
    match b
    case TenDaysConsistent => 0
    case ThirtyDayChampion => 1
    case WeekLongWarrior => 2
    case HabitFinisher(_) => 3
    case PerfectHabitMaster => 4
    case NearPerfectAchiever => 5
    case ThreeQuarterTitan => 6
    case HalfwayHero => 7
    case FirstSteps => 8
  }

  predicate InFixedOrder(ms: seq<Badge>)
  {
    forall i, j :: 0 <= i < j < |ms| ==> Rank(ms[i]) < Rank(ms[j])
  }

  /** The threshold each badge stands for; the fallback badge is not earned by a threshold */
  predicate Earned(b: Badge, completedHabits: nat, completedDays: nat, data: seq<HabitData>)
  {
    match b
    case TenDaysConsistent => completedDays >= 10
    case ThirtyDayChampion => completedDays >= 30
    case WeekLongWarrior => AnyStreakAtLeast(data, 7)
    case HabitFinisher(c) => completedHabits >= 1 && c == completedHabits
    case PerfectHabitMaster => AnyRateAtLeast(data, 100.0)
    case NearPerfectAchiever => AnyRateAtLeast(data, 90.0)
    case ThreeQuarterTitan => AnyRateAtLeast(data, 75.0)
    case HalfwayHero => AnyRateAtLeast(data, 50.0)
    case FirstSteps => false
  }

  predicate AnyEarned(completedHabits: nat, completedDays: nat, data: seq<HabitData>)
  {
    || completedDays >= 10
    || completedDays >= 30
    || AnyStreakAtLeast(data, 7)
    || completedHabits >= 1
    || AnyRateAtLeast(data, 100.0)
    || AnyRateAtLeast(data, 90.0)
    || AnyRateAtLeast(data, 75.0)
    || AnyRateAtLeast(data, 50.0)
  }

  /** Append b when its threshold c is met */
  function AddIf(ms: seq<Badge>, c: bool, b: Badge): (r: seq<Badge>)
    requires InFixedOrder(ms)
    requires forall x :: x in ms ==> Rank(x) < Rank(b)
    ensures forall x :: x in r <==> x in ms || (c && x == b)
    ensures forall x :: x in r ==> Rank(x) <= Rank(b)
    ensures InFixedOrder(r)
  {
    if c then ms + [b] else ms
  }

  /** The badges whose thresholds are met, each checked on its own, in the fixed order */
  function EarnedBadges(completedHabits: nat, completedDays: nat, data: seq<HabitData>): (ms: seq<Badge>)
    ensures InFixedOrder(ms)
    ensures forall x :: x in ms ==> Rank(x) < Rank(FirstSteps)
  {
    var s1 := AddIf([], completedDays >= 10, TenDaysConsistent);
    var s2 := AddIf(s1, completedDays >= 30, ThirtyDayChampion);
    var s3 := AddIf(s2, AnyStreakAtLeast(data, 7), WeekLongWarrior);
    var s4 := AddIf(s3, completedHabits >= 1, HabitFinisher(completedHabits));
    var s5 := AddIf(s4, AnyRateAtLeast(data, 100.0), PerfectHabitMaster);
    var s6 := AddIf(s5, AnyRateAtLeast(data, 90.0), NearPerfectAchiever);
    var s7 := AddIf(s6, AnyRateAtLeast(data, 75.0), ThreeQuarterTitan);
    AddIf(s7, AnyRateAtLeast(data, 50.0), HalfwayHero)
  }

  /** A badge is collected exactly when its own threshold is met */
  lemma EarnedBadgeMember(completedHabits: nat, completedDays: nat, data: seq<HabitData>, b: Badge)
    ensures b in EarnedBadges(completedHabits, completedDays, data) <==> Earned(b, completedHabits, completedDays, data)
  {
    match b
    case TenDaysConsistent =>
    case ThirtyDayChampion =>
    case WeekLongWarrior =>
    case HabitFinisher(c) =>
    case PerfectHabitMaster =>
    case NearPerfectAchiever =>
    case ThreeQuarterTitan =>
    case HalfwayHero =>
    case FirstSteps =>
  }

  /** Nothing is collected exactly when no threshold is met */
  lemma EarnedBadgesEmpty(completedHabits: nat, completedDays: nat, data: seq<HabitData>)
    ensures EarnedBadges(completedHabits, completedDays, data) == [] <==> !AnyEarned(completedHabits, completedDays, data)
  {
    var ms := EarnedBadges(completedHabits, completedDays, data);
    EarnedBadgeMember(completedHabits, completedDays, data, TenDaysConsistent);
    EarnedBadgeMember(completedHabits, completedDays, data, ThirtyDayChampion);
    EarnedBadgeMember(completedHabits, completedDays, data, WeekLongWarrior);
    EarnedBadgeMember(completedHabits, completedDays, data, HabitFinisher(completedHabits));
    EarnedBadgeMember(completedHabits, completedDays, data, PerfectHabitMaster);
    EarnedBadgeMember(completedHabits, completedDays, data, NearPerfectAchiever);
    EarnedBadgeMember(completedHabits, completedDays, data, ThreeQuarterTitan);
    EarnedBadgeMember(completedHabits, completedDays, data, HalfwayHero);
    if ms != [] {
      EarnedBadgeMember(completedHabits, completedDays, data, ms[0]);
    }
  }

  /**
   * The milestone list: nothing when there are no habits; otherwise the
   * earned badges, or "First Steps" alone when none was earned.
   */
  function MilestonesFor(totalHabits: nat, completedHabits: nat, completedDays: nat, data: seq<HabitData>): (ms: seq<Badge>)
    ensures ms == [] <==> totalHabits == 0
    ensures forall b :: b in ms && b != FirstSteps <==> totalHabits > 0 && Earned(b, completedHabits, completedDays, data)
    ensures FirstSteps in ms <==> totalHabits > 0 && !AnyEarned(completedHabits, completedDays, data)
    ensures FirstSteps in ms ==> ms == [FirstSteps]
    ensures InFixedOrder(ms)
    ensures totalHabits > 0 && AnyRateAtLeast(data, 100.0) ==>
              PerfectHabitMaster in ms && NearPerfectAchiever in ms && ThreeQuarterTitan in ms && HalfwayHero in ms
  {
    if totalHabits == 0 then []
    else
      var earned := EarnedBadges(completedHabits, completedDays, data);
      EarnedBadgesEmpty(completedHabits, completedDays, data);
      assert forall b :: b in earned <==> Earned(b, completedHabits, completedDays, data) by {
        forall b ensures b in earned <==> Earned(b, completedHabits, completedDays, data) {
          EarnedBadgeMember(completedHabits, completedDays, data, b);
        }
      }
      if earned == [] then [FirstSteps] else earned
  }

  /** The milestones block of `reports`: appends badge by badge */
  method CollectMilestones(totalHabits: nat, completedHabits: nat, completedDays: nat, data: seq<HabitData>)
    returns (ms: seq<Badge>)
    ensures ms == MilestonesFor(totalHabits, completedHabits, completedDays, data)
  {
    ms := [];
    if totalHabits > 0 {
      if completedDays >= 10 {
        ms := ms + [TenDaysConsistent];
      }
      if completedDays >= 30 {
        ms := ms + [ThirtyDayChampion];
      }
      if AnyStreakAtLeast(data, 7) {
        ms := ms + [WeekLongWarrior];
      }
      if completedHabits >= 1 {
        ms := ms + [HabitFinisher(completedHabits)];
      }
      if AnyRateAtLeast(data, 100.0) {
        ms := ms + [PerfectHabitMaster];
      }
      if AnyRateAtLeast(data, 90.0) {
        ms := ms + [NearPerfectAchiever];
      }
      if AnyRateAtLeast(data, 75.0) {
        ms := ms + [ThreeQuarterTitan];
      }
      if AnyRateAtLeast(data, 50.0) {
        ms := ms + [HalfwayHero];
      }
      if ms == [] {
        ms := ms + [FirstSteps];
      }
    }
  }

  /** What `reports` computes from the habit table */
  function ReportOf(user: UserId, rows: seq<HabitRow>): (r: Report)
    ensures |r.habitData| == r.ongoingHabits <= r.totalHabits
    ensures r.totalPossibleDays == 0 ==> r.overallRate == 0.0
  {
    PartitionCounts(user, rows);
    var ongoing := Ongoing(user, rows);
    var total := |Live(user, rows)|;
    var finished := |Finished(user, rows)|;
    var data := HabitDataOf(ongoing);
    var completedDays := DaysCompleted(ongoing);
    var possibleDays := DaysPossible(ongoing);
    var overall := Percent(completedDays, possibleDays);
    Report(data, total, |ongoing|, finished, completedDays, possibleDays, overall,
           SummaryTier(total, overall), MilestonesFor(total, finished, completedDays, data))
  }

  /** The loop of `reports` over the ongoing habits: per-habit analysis and running totals */
  method AnalyseHabits(ongoing: seq<HabitRow>) returns (data: seq<HabitData>, completedDays: nat, possibleDays: nat)
    ensures data == HabitDataOf(ongoing)
    ensures completedDays == DaysCompleted(ongoing)
    ensures possibleDays == DaysPossible(ongoing)
  {
    data, completedDays, possibleDays := [], 0, 0;
    for n := 0 to |ongoing|
      invariant data == HabitDataOf(ongoing[..n])
      invariant completedDays == DaysCompleted(ongoing[..n])
      invariant possibleDays == DaysPossible(ongoing[..n])
    {
      var habit := ongoing[n];
      var totalDays := |habit.entries|;
      var doneDays := CompletedCount(habit.entries);
      var rate := Percent(doneDays, totalDays);
      var streaks, highest := AnalyseStreaks(habit.entries);
      data := data + [HabitData(habit.habit.name, rate, habit.habit.isCompleted, highest)];
      completedDays := completedDays + doneDays;
      possibleDays := possibleDays + totalDays;
      AnalysisStep(ongoing, n);
    }
    assert ongoing[..|ongoing|] == ongoing;
  }

  /** Analysing one more habit extends the records and the two totals by that habit's */
  lemma AnalysisStep(ongoing: seq<HabitRow>, n: nat)
    requires n < |ongoing|
    ensures HabitDataOf(ongoing[..n + 1]) == HabitDataOf(ongoing[..n]) + [Stats(ongoing[n])]
    ensures DaysCompleted(ongoing[..n + 1]) == DaysCompleted(ongoing[..n]) + CompletedCount(ongoing[n].entries)
    ensures DaysPossible(ongoing[..n + 1]) == DaysPossible(ongoing[..n]) + |ongoing[n].entries|
  {
    assert ongoing[..n + 1][..n] == ongoing[..n];
  }

  /** The `reports` view: analysis of the ongoing habits, then summary and milestones */
  method Reports(user: UserId, rows: seq<HabitRow>) returns (report: Report)
    ensures report == ReportOf(user, rows)
  {
    var ongoing := Ongoing(user, rows);
    var totalHabits := |Live(user, rows)|;
    var data, completedDays, possibleDays := AnalyseHabits(ongoing);
    var overall := Percent(completedDays, possibleDays);
    var finished := |Finished(user, rows)|;
    var milestones := CollectMilestones(totalHabits, finished, completedDays, data);
    report := Report(data, totalHabits, |ongoing|, finished, completedDays, possibleDays, overall,
                     SummaryTier(totalHabits, overall), milestones);
  }

  /**
   * The aggregates of a report agree with each other: one record per ongoing
   * habit, ongoing plus completed is all habits, completed days never exceed
   * possible days, the overall rate is a percentage (0 with no days), and the
   * zero-state summary and the empty milestone list go with having no habits.
   */
  lemma {:induction false} ReportConsistent(user: UserId, rows: seq<HabitRow>)
    ensures var r := ReportOf(user, rows);
      && |r.habitData| == r.ongoingHabits
      && (forall i :: 0 <= i < |r.habitData| ==> r.habitData[i] == Stats(Ongoing(user, rows)[i]))
      && r.ongoingHabits + r.completedHabits == r.totalHabits
      && r.totalCompletedDays <= r.totalPossibleDays
      && (r.totalPossibleDays == 0 ==> r.overallRate == 0.0)
      && 0.0 <= r.overallRate <= 100.0
      && (r.summary == ZeroState <==> r.totalHabits == 0)
      && (r.milestones == [] <==> r.totalHabits == 0)
  {
    PartitionCounts(user, rows);
    CompletedWithinPossible(Ongoing(user, rows));
  }

  /** With no habits: the zero-state summary and no badges at all */
  lemma NoHabitsReport(user: UserId, rows: seq<HabitRow>)
    requires forall r :: r in rows ==> !IsLive(user, r)
    ensures ReportOf(user, rows).summary == ZeroState
    ensures ReportOf(user, rows).milestones == []
  {
    NoneLive(user, rows);
  }

  lemma {:induction false} NoneLive(user: UserId, rows: seq<HabitRow>)
    requires forall r :: r in rows ==> !IsLive(user, r)
    ensures Live(user, rows) == []
  {
    if rows != [] {
      var prefix := rows[..|rows| - 1];
      assert forall r :: r in prefix ==> r in rows;
      NoneLive(user, prefix);
      assert rows[|rows| - 1] in rows;
    }
  }
}
