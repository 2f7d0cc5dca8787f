/** The split of a number of remaining seconds into days, hours, minutes and
    seconds that the countdown shows on every tick. */
module TimeLeftSplit {

  const SecondsPerMinute: int := 60
  const SecondsPerHour: int := 60 * 60
  const SecondsPerDay: int := 24 * 60 * 60

  /** The four fields the countdown displays. */
  datatype TimeLeft = TimeLeft(days: int, hours: int, minutes: int, seconds: int)

  /** All four fields zero: the initial display, and the display once finished. */
  const Zero: TimeLeft := TimeLeft(0, 0, 0, 0)

  /** Every field is non-negative and each sub-day field stays below its unit. */
  predicate InRange(t: TimeLeft) {
    0 <= t.days &&
    0 <= t.hours < 24 &&
    0 <= t.minutes < 60 &&
    0 <= t.seconds < 60
  }

  /** The number of seconds the four fields stand for. */
  function TotalSeconds(t: TimeLeft): int {
    t.days * SecondsPerDay + t.hours * SecondsPerHour + t.minutes * SecondsPerMinute + t.seconds
  }

  /** The split done on a positive total. On non-negative operands Math.floor of a
      quotient and the remainder operator agree with Dafny's `/` and `%`. */
  function Decompose(total: nat): (r: TimeLeft)
    ensures InRange(r)
    ensures r.days <= total
  {
    TimeLeft(
      total / SecondsPerDay,
      (total % SecondsPerDay) / SecondsPerHour,
      (total % SecondsPerHour) / SecondsPerMinute,
      total % SecondsPerMinute)
  }

  /** Quotient and remainder are the only pair that satisfies the division equation. */
  lemma DivModUnique(n: int, k: int, q: int, r: int)
    requires 0 < k && 0 <= r < k && n == q * k + r
    ensures n / k == q && n % k == r
  {
    var q', r' := n / k, n % k;
    assert n == q' * k + r';
    if q' < q {
      MulAtLeast(q - q', k);
    } else if q < q' {
      MulAtLeast(q' - q, k);
    }
  }

  /** A positive multiple of a non-negative number is at least that number. */
  lemma MulAtLeast(a: int, k: int)
    requires a >= 1 && k >= 0
    ensures a * k >= k
  {
  }

  /** The four fields add back up to the total they were split from. */
  lemma DecomposeReconstructs(total: nat)
    ensures TotalSeconds(Decompose(total)) == total
  {
    var t := Decompose(total);
    var dayRest := total % SecondsPerDay;
    DivModUnique(total, SecondsPerDay, t.days, dayRest);
    var hourRest := dayRest % SecondsPerHour;
    assert dayRest == t.hours * SecondsPerHour + hourRest;
    DivModUnique(total, SecondsPerHour, t.days * 24 + t.hours, hourRest);
    assert hourRest == total % SecondsPerHour;
    DivModUnique(total, SecondsPerMinute, (t.days * 24 + t.hours) * 60 + t.minutes, hourRest % SecondsPerMinute);
    assert hourRest % SecondsPerMinute == t.seconds;
  }

  /** A value with in-range fields is the split of the total it stands for, and
      of no other total. */
  lemma DecomposeUnique(t: TimeLeft, total: nat)
    requires InRange(t)
    ensures Decompose(total) == t <==> TotalSeconds(t) == total
  {
    if TotalSeconds(t) == total {
      var dayRest := t.hours * SecondsPerHour + t.minutes * SecondsPerMinute + t.seconds;
      DivModUnique(total, SecondsPerDay, t.days, dayRest);
      DivModUnique(dayRest, SecondsPerHour, t.hours, t.minutes * SecondsPerMinute + t.seconds);
      DivModUnique(total, SecondsPerHour, t.days * 24 + t.hours, t.minutes * SecondsPerMinute + t.seconds);
      DivModUnique(t.minutes * SecondsPerMinute + t.seconds, SecondsPerMinute, t.minutes, t.seconds);
      DivModUnique(total, SecondsPerMinute, (t.days * 24 + t.hours) * 60 + t.minutes, t.seconds);
    } else {
      DecomposeReconstructs(total);
    }
  }

  /** Two totals with the same split are the same total. */
  lemma DecomposeInjective(t1: nat, t2: nat)
    ensures Decompose(t1) == Decompose(t2) <==> t1 == t2
  {
    DecomposeReconstructs(t1);
    DecomposeReconstructs(t2);
  }

  /** Lexicographic order on (days, hours, minutes, seconds). */
  predicate LexLess(a: TimeLeft, b: TimeLeft) {
    a.days < b.days ||
    (a.days == b.days && (a.hours < b.hours ||
    (a.hours == b.hours && (a.minutes < b.minutes ||
    (a.minutes == b.minutes && a.seconds < b.seconds)))))
  }

  /** On in-range values the lexicographic order is the order of the totals. */
  lemma LexLessIffFewerSeconds(a: TimeLeft, b: TimeLeft)
    requires InRange(a) && InRange(b)
    ensures LexLess(a, b) <==> TotalSeconds(a) < TotalSeconds(b)
  {
  }

  /** The split preserves and reflects the order of totals: a larger remaining
      time always shows as a lexicographically larger display. */
  lemma DecomposeOrder(t1: nat, t2: nat)
    ensures LexLess(Decompose(t1), Decompose(t2)) <==> t1 < t2
  {
    DecomposeReconstructs(t1);
    DecomposeReconstructs(t2);
    LexLessIffFewerSeconds(Decompose(t1), Decompose(t2));
  }

  /** What a display of remaining time shows one second later: the seconds go
      down by one, borrowing from minutes, hours and days. */
  function Decrement(t: TimeLeft): (r: TimeLeft)
    requires InRange(t) && t != Zero
    ensures InRange(r) && TotalSeconds(r) == TotalSeconds(t) - 1
    ensures LexLess(r, t)
  {
    if t.seconds > 0 then t.(seconds := t.seconds - 1)
    else if t.minutes > 0 then t.(minutes := t.minutes - 1, seconds := 59)
    else if t.hours > 0 then t.(hours := t.hours - 1, minutes := 59, seconds := 59)
    else TimeLeft(t.days - 1, 23, 59, 59)
  }

  /** One second less remaining shows as the previous display with one second
      borrowed, so consecutive ticks never skip or repeat a display. */
  lemma DecomposeStep(total: nat)
    requires total > 0
    ensures Decompose(total) != Zero
    ensures Decompose(total - 1) == Decrement(Decompose(total))
  {
    DecomposeReconstructs(total);
    var d := Decrement(Decompose(total));
    DecomposeUnique(d, total - 1);
  }

  /** The boundary values: one second, one minute, one hour and one day before the target. */
  lemma DecomposeBoundaries()
    ensures Decompose(1) == TimeLeft(0, 0, 0, 1)
    ensures Decompose(60) == TimeLeft(0, 0, 1, 0)
    ensures Decompose(3600) == TimeLeft(0, 1, 0, 0)
    ensures Decompose(86400) == TimeLeft(1, 0, 0, 0)
    ensures Decompose(86399) == TimeLeft(0, 23, 59, 59)
  {
  }
}
