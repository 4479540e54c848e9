/** Exact integer versions of the two pieces of arithmetic the approval
    handler performs on numbers: the inclusive day count of a leave request
    and the rounded attendance percentage of a balance record. */
module LeaveArith {

  /** Milliseconds in one day: subtracting two dates yields milliseconds. */
  const MsPerDay: int := 1000 * 60 * 60 * 24

  /** Integer division that truncates toward zero, as `parseInt` does when
      it is applied to a non-integral quotient. Dafny's own `/` is Euclidean,
      so negative dividends are handled separately. */
  function TruncDiv(a: int, d: int): (q: int)
    requires d > 0
    ensures 0 <= a ==> 0 <= q && q * d <= a < q * d + d
    ensures a < 0 ==> q <= 0 && q * d - d < a <= q * d
  {
    if a >= 0 then a / d else -((-a) / d)
  }

  /** `parseInt((end - start) / day + 1)`: the quotient plus one is
      `(end - start + day) / day`, which is then truncated toward zero. */
  function LeaveDays(startDate: int, endDate: int): (days: int)
    ensures startDate <= endDate ==> days >= 1 && days == (endDate - startDate) / MsPerDay + 1
    ensures -MsPerDay < endDate - startDate < 0 ==> days == 0
    ensures endDate - startDate <= -MsPerDay ==>
              days <= 0 && days == -((startDate - endDate - MsPerDay) / MsPerDay)
  {
    TruncDiv(endDate - startDate + MsPerDay, MsPerDay)
  }

  /** `Math.round(a / t)`: the integer nearest to the rational a/t, a tie
      going to the larger integer (also for negative quotients). */
  function RoundHalfUp(a: int, t: int): (r: int)
    requires t > 0
    ensures 2 * t * r - t <= 2 * a < 2 * t * r + t
  {
    (2 * a + t) / (2 * t)
  }

  /** `Math.round((totalWorkingDays - usedLeave) * 100 / totalWorkingDays)`. */
  function AttendancePerc(totalWorkingDays: int, usedLeave: int): (perc: int)
    requires totalWorkingDays > 0
    ensures 2 * totalWorkingDays * perc - totalWorkingDays
            <= 200 * (totalWorkingDays - usedLeave)
            < 2 * totalWorkingDays * perc + totalWorkingDays
    ensures 0 <= usedLeave <= totalWorkingDays ==> 0 <= perc <= 100
  {
    var perc := RoundHalfUp((totalWorkingDays - usedLeave) * 100, totalWorkingDays);
    PercBounds(totalWorkingDays, usedLeave, perc);
    perc
  }

  /** A rounded percentage of a share between 0 and 1 lies between 0 and 100. */
  lemma PercBounds(t: int, u: int, p: int)
    requires t > 0
    requires 2 * t * p - t <= 200 * (t - u) < 2 * t * p + t
    ensures 0 <= u <= t ==> 0 <= p <= 100
  {
  }

  /** Multiplying by a positive factor keeps the order. */
  lemma MulMonotone(t: int, x: int, y: int)
    requires t > 0 && x <= y
    ensures t * x <= t * y
  {
  }

  /** The rounding condition determines the rounded value: any integer that
      lies within one half of a/t, ties upward, is `RoundHalfUp(a, t)`. */
  lemma RoundHalfUpUnique(a: int, t: int, r: int)
    requires t > 0
    requires 2 * t * r - t <= 2 * a < 2 * t * r + t
    ensures r == RoundHalfUp(a, t)
  {
    var q := RoundHalfUp(a, t);
    if r < q {
      MulMonotone(2 * t, r + 1, q);
      assert false;
    } else if q < r {
      MulMonotone(2 * t, q + 1, r);
      assert false;
    }
  }

  /** A request spanning exactly k whole days counts k + 1 days, whatever
      the sign of k. */
  lemma LeaveDaysWholeDays(startDate: int, k: int)
    ensures LeaveDays(startDate, startDate + k * MsPerDay) == k + 1
  {
  }
}
