/**
 * The streak analyser of `reports` (core/views.py): one pass over a habit's
 * entries in date order with a running counter. A date gap of more than one
 * day, or an entry that is not completed, closes the current run; a closed run
 * is recorded when it is positive, and the highest recorded run is the
 * habit's highest streak (0 when none was recorded).
 *
 * The pass is specified as a left fold (ScanAll) and proved to compute the
 * longest run of completed entries with no date gap inside it (IsRun).
 */
module Streaks {
  import opened Models
  import opened Rates

  /** The state of the pass after some prefix: recorded runs, running counter, last date seen */
  datatype Scan = Scan(streaks: seq<nat>, temp: nat, prev: Option<Date>)

  /** Record the running counter when it is positive */
  function Close(streaks: seq<nat>, temp: nat): seq<nat>
  {
    if temp > 0 then streaks + [temp] else streaks
  }

  /**
   * One iteration of the pass: the entry's date becomes the last date seen;
   * the counter is positive exactly after a completed entry and grows by at
   * most one.
   */
  function Step(st: Scan, e: HabitEntry): (r: Scan)
    ensures r.prev == Some(e.date)
    ensures r.temp > 0 <==> e.completed
    ensures r.temp <= st.temp + 1
  {
    var afterGap :=
      if st.prev.Some? && e.date - st.prev.value > 1 then Scan(Close(st.streaks, st.temp), 0, st.prev)
      else st;
    if e.completed then Scan(afterGap.streaks, afterGap.temp + 1, Some(e.date))
    else Scan(Close(afterGap.streaks, afterGap.temp), 0, Some(e.date))
  }

  /**
   * The state after passing over all of entries: the last date seen is the
   * last entry's, and the counter never exceeds the number of entries.
   */
  function ScanAll(entries: seq<HabitEntry>): (st: Scan)
    ensures st.prev == if entries == [] then None else Some(entries[|entries| - 1].date)
    ensures st.temp <= |entries|
  {
    if entries == [] then Scan([], 0, None)
    else Step(ScanAll(entries[..|entries| - 1]), entries[|entries| - 1])
  }

  /** The recorded runs once the pass has closed its last run; only positive runs are recorded */
  function Streaks(entries: seq<HabitEntry>): (s: seq<nat>)
    ensures forall i :: 0 <= i < |s| ==> s[i] > 0
  {
    var st := ScanAll(entries);
    ScanFacts(entries);
    CloseKeepsPositive(st.streaks, st.temp);
    Close(st.streaks, st.temp)
  }

  /** Largest element, 0 for the empty sequence (max(streaks) if streaks else 0) */
  function MaxOf(s: seq<nat>): nat
  {
    if s == [] then 0
    else
      var m := MaxOf(s[..|s| - 1]);
      if m < s[|s| - 1] then s[|s| - 1] else m
  }

  function Sum(s: seq<nat>): nat
  {
    if s == [] then 0 else Sum(s[..|s| - 1]) + s[|s| - 1]
  }

  /** The highest recorded run: no run exceeds it, and it is one of them, or 0 when none was recorded */
  function HighestStreak(entries: seq<HabitEntry>): (m: nat)
    ensures forall i :: 0 <= i < |Streaks(entries)| ==> Streaks(entries)[i] <= m
    ensures Streaks(entries) == [] ==> m == 0
    ensures Streaks(entries) != [] ==> m in Streaks(entries)
  {
    MaxOfBounds(Streaks(entries));
    MaxOf(Streaks(entries))
  }

  lemma {:induction false} MaxOfBounds(s: seq<nat>)
    ensures forall i :: 0 <= i < |s| ==> s[i] <= MaxOf(s)
    ensures s != [] ==> MaxOf(s) in s
  {
    if s != [] {
      MaxOfBounds(s[..|s| - 1]);
      assert forall i :: 0 <= i < |s| - 1 ==> s[i] == s[..|s| - 1][i];
    }
  }

  /**
   * entries[i..j] is a run: non-empty, every entry completed, and no two
   * neighbours more than one day apart.
   */
  ghost predicate IsRun(entries: seq<HabitEntry>, i: int, j: int)
  {
    && 0 <= i < j <= |entries|
    && (forall k :: i <= k < j ==> entries[k].completed)
    && (forall k :: i < k < j ==> entries[k].date - entries[k - 1].date <= 1)
  }

  /** Length of the longest run that ends with the last entry */
  function Tail(entries: seq<HabitEntry>): nat
  {
    if entries == [] || !entries[|entries| - 1].completed then 0
    else if |entries| > 1 && entries[|entries| - 1].date - entries[|entries| - 2].date > 1 then 1
    else Tail(entries[..|entries| - 1]) + 1
  }

  /** Longest run ending anywhere in entries */
  function MaxTail(entries: seq<HabitEntry>): nat
  {
    if entries == [] then 0
    else
      var m := MaxTail(entries[..|entries| - 1]);
      if m < Tail(entries) then Tail(entries) else m
  }

  /**
   * The loop of `reports`, run over one habit's entries: returns the recorded
   * runs and the highest streak.
   */
  method AnalyseStreaks(entries: seq<HabitEntry>) returns (streaks: seq<nat>, highest: nat)
    ensures streaks == Streaks(entries)
    ensures highest == HighestStreak(entries)
  {
    streaks := [];
    var temp: nat := 0;
    var prevDate: Option<Date> := None;
    var n := 0;
    while n < |entries|
      invariant 0 <= n <= |entries|
      invariant ScanAll(entries[..n]) == Scan(streaks, temp, prevDate)
    {
      var entry := entries[n];
      if prevDate.Some? && entry.date - prevDate.value > 1 {
        if temp > 0 {
          streaks := streaks + [temp];
        }
        temp := 0;
      }
      if entry.completed {
        temp := temp + 1;
      } else if temp > 0 {
        streaks := streaks + [temp];
        temp := 0;
      }
      prevDate := Some(entry.date);
      assert entries[..n + 1][..n] == entries[..n];
      n := n + 1;
    }
    assert entries[..n] == entries;
    if temp > 0 {
      streaks := streaks + [temp];
    }
    highest := MaxOf(streaks);
  }

  lemma {:induction false} MaxOfClose(s: seq<nat>, t: nat)
    ensures MaxOf(Close(s, t)) == if MaxOf(s) < t then t else MaxOf(s)
    ensures Sum(Close(s, t)) == Sum(s) + t
  {
    if t > 0 {
      assert (s + [t])[..|s|] == s;
    }
  }

  lemma {:induction false} CloseKeepsPositive(s: seq<nat>, t: nat)
    requires forall i :: 0 <= i < |s| ==> s[i] > 0
    ensures forall i :: 0 <= i < |Close(s, t)| ==> Close(s, t)[i] > 0
  {
  }

  /** The date of the last entry, if any: what the pass remembers as prevDate */
  function LastDate(entries: seq<HabitEntry>): Option<Date>
  {
    if entries == [] then None else Some(entries[|entries| - 1].date)
  }

  /** The counter after one more step is the run ending at the new entry */
  lemma {:induction false} StepTail(entries: seq<HabitEntry>, st: Scan)
    requires entries != []
    requires st.temp == Tail(entries[..|entries| - 1]) && st.prev == LastDate(entries[..|entries| - 1])
    ensures Step(st, entries[|entries| - 1]).temp == Tail(entries)
    ensures Step(st, entries[|entries| - 1]).prev == LastDate(entries)
  {
    var prefix := entries[..|entries| - 1];
    assert prefix != [] ==> prefix[|prefix| - 1] == entries[|entries| - 2];
  }

  /** One more step keeps the recorded runs positive and the completed entries accounted for */
  lemma {:induction false} StepSum(entries: seq<HabitEntry>, st: Scan)
    requires entries != []
    requires forall i :: 0 <= i < |st.streaks| ==> st.streaks[i] > 0
    requires Sum(st.streaks) + st.temp == CompletedCount(entries[..|entries| - 1])
    ensures var r := Step(st, entries[|entries| - 1]);
      && (forall i :: 0 <= i < |r.streaks| ==> r.streaks[i] > 0)
      && Sum(r.streaks) + r.temp == CompletedCount(entries)
  {
    var e := entries[|entries| - 1];
    var before := CompletedCount(entries[..|entries| - 1]);
    assert CompletedCount(entries) == before + (if e.completed then 1 else 0);
    var gap := st.prev.Some? && e.date - st.prev.value > 1;
    var afterGap := if gap then Scan(Close(st.streaks, st.temp), 0, st.prev) else st;
    MaxOfClose(st.streaks, st.temp);
    CloseKeepsPositive(st.streaks, st.temp);
    assert Sum(afterGap.streaks) + afterGap.temp == before;
    var r := Step(st, e);
    if e.completed {
      assert r == Scan(afterGap.streaks, afterGap.temp + 1, Some(e.date));
    } else {
      assert r == Scan(Close(afterGap.streaks, afterGap.temp), 0, Some(e.date));
      MaxOfClose(afterGap.streaks, afterGap.temp);
      CloseKeepsPositive(afterGap.streaks, afterGap.temp);
    }
  }

  /** One more step keeps the largest of the runs and the counter equal to the longest run so far */
  lemma {:induction false} StepMax(entries: seq<HabitEntry>, st: Scan)
    requires entries != []
    requires (if MaxOf(st.streaks) < st.temp then st.temp else MaxOf(st.streaks)) == MaxTail(entries[..|entries| - 1])
    requires Step(st, entries[|entries| - 1]).temp == Tail(entries)
    ensures var r := Step(st, entries[|entries| - 1]);
      (if MaxOf(r.streaks) < r.temp then r.temp else MaxOf(r.streaks)) == MaxTail(entries)
  {
    var e := entries[|entries| - 1];
    var gap := st.prev.Some? && e.date - st.prev.value > 1;
    var afterGap := if gap then Scan(Close(st.streaks, st.temp), 0, st.prev) else st;
    MaxOfClose(st.streaks, st.temp);
    MaxOfClose(afterGap.streaks, afterGap.temp);
  }

  /**
   * What the pass keeps after each prefix: the counter is the run ending at
   * the last entry, the last date is remembered, recorded runs are positive,
   * recorded runs plus the counter account for every completed entry, and the
   * largest of them is the longest run so far.
   */
  lemma {:induction false} ScanFacts(entries: seq<HabitEntry>)
    ensures var st := ScanAll(entries);
      && st.temp == Tail(entries)
      && st.prev == LastDate(entries)
      && (forall i :: 0 <= i < |st.streaks| ==> st.streaks[i] > 0)
      && Sum(st.streaks) + st.temp == CompletedCount(entries)
      && (if MaxOf(st.streaks) < st.temp then st.temp else MaxOf(st.streaks)) == MaxTail(entries)
  {
    if entries != [] {
      var prefix := entries[..|entries| - 1];
      ScanFacts(prefix);
      var st := ScanAll(prefix);
      StepTail(entries, st);
      StepSum(entries, st);
      StepMax(entries, st);
    }
  }

  lemma {:induction false} HighestIsMaxTail(entries: seq<HabitEntry>)
    ensures HighestStreak(entries) == MaxTail(entries)
  {
    ScanFacts(entries);
    var st := ScanAll(entries);
    MaxOfClose(st.streaks, st.temp);
  }

  lemma {:induction false} IsRunPrefix(entries: seq<HabitEntry>, n: nat, i: int, j: int)
    requires n <= |entries| && j <= n
    ensures IsRun(entries[..n], i, j) <==> IsRun(entries, i, j)
  {
  }

  /** Tail is the longest run ending at the last entry */
  lemma {:induction false} TailIsRun(entries: seq<HabitEntry>)
    ensures Tail(entries) <= |entries|
    ensures Tail(entries) > 0 ==> IsRun(entries, |entries| - Tail(entries), |entries|)
    ensures forall i :: IsRun(entries, i, |entries|) ==> |entries| - i <= Tail(entries)
  {
    if entries != [] {
      var n := |entries|;
      var prefix := entries[..n - 1];
      TailIsRun(prefix);
      forall i | IsRun(entries, i, n)
        ensures n - i <= Tail(entries)
      {
        if i < n - 1 {
          IsRunPrefix(entries, n - 1, i, n - 1);
          assert prefix[n - 2] == entries[n - 2];
        }
      }
      if Tail(entries) > 1 {
        IsRunPrefix(entries, n - 1, n - 1 - Tail(prefix), n - 1);
      }
    }
  }

  lemma {:induction false} MaxTailBounds(entries: seq<HabitEntry>)
    ensures forall j :: 0 <= j <= |entries| ==> Tail(entries[..j]) <= MaxTail(entries)
    ensures exists j :: 0 <= j <= |entries| && Tail(entries[..j]) == MaxTail(entries)
  {
    if entries == [] {
      assert Tail(entries[..0]) == 0;
    } else {
      var n := |entries|;
      var prefix := entries[..n - 1];
      MaxTailBounds(prefix);
      forall j | 0 <= j <= n
        ensures Tail(entries[..j]) <= MaxTail(entries)
      {
        if j < n {
          assert prefix[..j] == entries[..j];
        } else {
          assert entries[..j] == entries;
        }
      }
      var j :| 0 <= j <= n - 1 && Tail(prefix[..j]) == MaxTail(prefix);
      assert prefix[..j] == entries[..j];
      assert entries[..n] == entries;
    }
  }

  /**
   * The highest streak is the length of the longest run: every run is at
   * most that long, and when it is positive some run is exactly that long.
   */
  lemma {:induction false} HighestStreakIsLongestRun(entries: seq<HabitEntry>)
    ensures forall i, j :: IsRun(entries, i, j) ==> j - i <= HighestStreak(entries)
    ensures HighestStreak(entries) > 0 ==>
              exists i, j :: IsRun(entries, i, j) && j - i == HighestStreak(entries)
  {
    HighestIsMaxTail(entries);
    MaxTailBounds(entries);
    forall i, j | IsRun(entries, i, j)
      ensures j - i <= HighestStreak(entries)
    {
      IsRunPrefix(entries, j, i, j);
      TailIsRun(entries[..j]);
    }
    if HighestStreak(entries) > 0 {
      var j :| 0 <= j <= |entries| && Tail(entries[..j]) == MaxTail(entries);
      TailIsRun(entries[..j]);
      IsRunPrefix(entries, j, j - Tail(entries[..j]), j);
    }
  }

  lemma {:induction false} MaxOfAtMostSum(s: seq<nat>)
    ensures MaxOf(s) <= Sum(s)
  {
    if s != [] {
      MaxOfAtMostSum(s[..|s| - 1]);
    }
  }

  /**
   * Every recorded run is positive, together the runs cover exactly the
   * completed entries, so the highest streak never exceeds the number of
   * completed entries; it is 0 exactly when no entry is completed.
   */
  lemma {:induction false} StreaksAccountForCompletedEntries(entries: seq<HabitEntry>)
    ensures forall i :: 0 <= i < |Streaks(entries)| ==> Streaks(entries)[i] > 0
    ensures Sum(Streaks(entries)) == CompletedCount(entries)
    ensures HighestStreak(entries) <= CompletedCount(entries)
    ensures HighestStreak(entries) == 0 <==> CompletedCount(entries) == 0
  {
    ScanFacts(entries);
    var st := ScanAll(entries);
    MaxOfClose(st.streaks, st.temp);
    CloseKeepsPositive(st.streaks, st.temp);
    MaxOfAtMostSum(Streaks(entries));
    if CompletedCount(entries) > 0 {
      var k :| 0 <= k < |entries| && entries[k].completed;
      HighestStreakIsLongestRun(entries);
      assert IsRun(entries, k, k + 1);
    }
  }

  /** Entries on consecutive days */
  predicate Consecutive(entries: seq<HabitEntry>)
  {
    forall k :: 0 < k < |entries| ==> entries[k].date == entries[k - 1].date + 1
  }

  /**
   * When every entry is completed and the dates are consecutive the pass
   * records one run, as long as the list.
   */
  lemma {:induction false} UnbrokenEntriesFormOneStreak(entries: seq<HabitEntry>)
    requires forall k :: 0 <= k < |entries| ==> entries[k].completed
    requires Consecutive(entries)
    ensures Streaks(entries) == if entries == [] then [] else [|entries|]
    ensures HighestStreak(entries) == |entries|
  {
    ScanAllUnbroken(entries);
    if entries != [] {
      assert [|entries|][..0] == [];
      assert MaxOf([|entries|]) == |entries|;
    }
  }

  lemma {:induction false} ScanAllUnbroken(entries: seq<HabitEntry>)
    requires forall k :: 0 <= k < |entries| ==> entries[k].completed
    requires Consecutive(entries)
    ensures ScanAll(entries).streaks == [] && ScanAll(entries).temp == |entries|
    ensures ScanAll(entries).prev == if entries == [] then None else Some(entries[|entries| - 1].date)
  {
    if entries != [] {
      var prefix := entries[..|entries| - 1];
      ScanAllUnbroken(prefix);
      assert prefix != [] ==> prefix[|prefix| - 1] == entries[|entries| - 2];
    }
  }

  /**
   * Days 1 and 2 completed, day 3 missing, days 4 and 5 completed: the
   * missing day splits them into two runs of 2.
   */
  lemma GapSplitsStreaks()
    ensures Streaks([HabitEntry(1, true), HabitEntry(2, true), HabitEntry(4, true), HabitEntry(5, true)]) == [2, 2]
    ensures HighestStreak([HabitEntry(1, true), HabitEntry(2, true), HabitEntry(4, true), HabitEntry(5, true)]) == 2
  {
    var s := [HabitEntry(1, true), HabitEntry(2, true), HabitEntry(4, true), HabitEntry(5, true)];
    assert s[..1][..0] == [];
    assert s[..2][..1] == s[..1];
    assert s[..3][..2] == s[..2];
    assert s[..4] == s && s[..3] == s[..4][..3];
    assert ScanAll(s[..1]) == Scan([], 1, Some(1));
    assert ScanAll(s[..2]) == Scan([], 2, Some(2));
    assert ScanAll(s[..3]) == Scan([2], 1, Some(4));
    assert ScanAll(s) == Scan([2], 2, Some(5));
    assert [2] + [2] == [2, 2];
    assert [2, 2][..1] == [2];
  }
}
