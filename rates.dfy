/**
 * Completion rates (core/views.py, the rate expressions of `reports` and
 * `habits`): the share of a habit's entries that are completed, as a
 * percentage, and 0 when there is nothing to divide by. Rates are exact
 * rationals here; the source's floating-point division and rounding to one
 * decimal are not modelled.
 */
module Rates {
  import opened Models

  /** Number of completed entries among rows */
  function CompletedCount(rows: seq<HabitEntry>): (n: nat)
    ensures n <= |rows|
    ensures n == |rows| <==> forall i :: 0 <= i < |rows| ==> rows[i].completed
    ensures n == 0 <==> forall i :: 0 <= i < |rows| ==> !rows[i].completed
  {
    if rows == [] then 0
    else CompletedCount(rows[..|rows| - 1]) + (if rows[|rows| - 1].completed then 1 else 0)
  }

  /** part / whole * 100, and 0 when whole is 0 */
  function Percent(part: nat, whole: nat): (r: real)
    ensures 0.0 <= r
    ensures whole == 0 ==> r == 0.0
    ensures part <= whole ==> r <= 100.0
    ensures whole > 0 ==> (r == 0.0 <==> part == 0) && (r == 100.0 <==> part == whole)
  {
    if whole > 0 then PercentBounds(part, whole); part as real / whole as real * 100.0 else 0.0
  }

  lemma PercentBounds(part: nat, whole: nat)
    requires whole > 0
    ensures part as real / whole as real * 100.0 * whole as real == part as real * 100.0
    ensures part <= whole ==> part as real / whole as real * 100.0 <= 100.0
  {
    var q := part as real / whole as real;
    assert q * whole as real == part as real;
    if part <= whole {
      assert q <= 1.0;
    }
  }

  /**
   * Comparing a rate with a whole-number threshold t is comparing
   * part * 100 with t * whole.
   */
  lemma PercentAtLeast(part: nat, whole: nat, t: nat)
    requires whole > 0
    ensures Percent(part, whole) >= t as real <==> part * 100 >= t * whole
  {
    var r := Percent(part, whole);
    PercentBounds(part, whole);
    assert r * whole as real == (part * 100) as real;
    if r >= t as real {
      assert r * whole as real >= t as real * whole as real;
    } else {
      assert r * whole as real < t as real * whole as real;
    }
  }

  /** The completion rate of one habit: its completed entries over all its entries */
  function CompletionRate(rows: seq<HabitEntry>): (r: real)
    ensures 0.0 <= r <= 100.0
    ensures rows == [] ==> r == 0.0
    ensures rows != [] ==> (r == 100.0 <==> forall i :: 0 <= i < |rows| ==> rows[i].completed)
    ensures r == 0.0 <==> forall i :: 0 <= i < |rows| ==> !rows[i].completed
  {
    Percent(CompletedCount(rows), |rows|)
  }

  /** A habit with 10 of its 20 entries completed stands at 50% */
  lemma HalfCompleted(rows: seq<HabitEntry>)
    requires |rows| == 20 && CompletedCount(rows) == 10
    ensures CompletionRate(rows) == 50.0
  {
    PercentBounds(10, 20);
  }
}
