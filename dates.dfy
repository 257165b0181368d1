/**
 * Civil dates, as the planner uses them: whole days with no time of day and no zone.
 * A date is its day number; the month structure of the calendar is a `Calendar` value.
 */
module Dates {

  /** A civil date as a day number: day 0 is 1970-01-01. */
  type Date = int

  /** Day of the week with 0 = Sunday ... 6 = Saturday; 1970-01-01 was a Thursday. */
  function Weekday(d: Date): (w: int)
    ensures 0 <= w < 7
    ensures d == 0 ==> w == 4
  {
    (d + 4) % 7
  }

  /** The weekday advances by one each day and wraps from Saturday to Sunday. */
  lemma WeekdayNext(d: Date)
    ensures Weekday(d + 1) == (Weekday(d) + 1) % 7
    ensures Weekday(d + 7) == Weekday(d)
  {
  }

  function DigitChar(n: nat): (c: char)
    requires n < 10
    ensures '0' <= c <= '9'
  {
    (48 + n) as char
  }

  /** Decimal digits of a natural number, most significant first, without leading zeros. */
  function NatDigits(n: nat): (s: string)
    ensures |s| >= 1
    ensures (n < 10) == (|s| == 1)
    ensures forall i :: 0 <= i < |s| ==> '0' <= s[i] <= '9'
    decreases n
  {
    if n < 10 then [DigitChar(n)] else NatDigits(n / 10) + [DigitChar(n % 10)]
  }

  lemma {:induction false} NatDigitsInjective(a: nat, b: nat)
    requires NatDigits(a) == NatDigits(b)
    ensures a == b
    decreases a
  {
    if a >= 10 && b >= 10 {
      var sa, sb := NatDigits(a), NatDigits(b);
      assert sa[..|sa| - 1] == NatDigits(a / 10);
      assert sb[..|sb| - 1] == NatDigits(b / 10);
      NatDigitsInjective(a / 10, b / 10);
      assert DigitChar(a % 10) == sa[|sa| - 1] == sb[|sb| - 1] == DigitChar(b % 10);
    }
  }

  /**
   * The text form of a date. The application renders dates as `yyyy-MM-dd` (for skipped
   * dates) and `yyyyMMdd` (inside instance ids); the model renders the day number in
   * decimal. All the model relies on is that the rendering is injective.
   */
  function Render(d: Date): (s: string)
    ensures |s| >= 1
  {
    if d < 0 then "-" + NatDigits(-d) else NatDigits(d)
  }

  /** Two dates render alike only when they are the same date. */
  lemma RenderInjective(d1: Date, d2: Date)
    requires Render(d1) == Render(d2)
    ensures d1 == d2
  {
    var s1, s2 := Render(d1), Render(d2);
    assert d1 < 0 ==> s1[0] == '-';
    assert d2 < 0 ==> s2[0] == '-';
    if d1 < 0 && d2 < 0 {
      assert s1[1..] == NatDigits(-d1) && s2[1..] == NatDigits(-d2);
      NatDigitsInjective(-d1, -d2);
    } else if d1 >= 0 && d2 >= 0 {
      NatDigitsInjective(d1, d2);
    }
  }

  /**
   * The month structure of the calendar: `monthStart(m)` is the first day of month number m
   * (months counted from January 1970), and `monthOf(d)` is the month a day falls in.
   */
  datatype Calendar = Calendar(monthStart: int -> Date, monthOf: Date -> int)

  /** Months start in increasing order and every day lies in the month `monthOf` names. */
  ghost predicate ValidCalendar(c: Calendar)
  {
    && (forall m1, m2 :: m1 < m2 ==> c.monthStart(m1) < c.monthStart(m2))
    && (forall d :: c.monthStart(c.monthOf(d)) <= d < c.monthStart(c.monthOf(d) + 1))
  }

  /** Month starts never go backwards. */
  lemma MonthStartMonotone(c: Calendar, m1: int, m2: int)
    requires ValidCalendar(c)
    ensures m1 <= m2 ==> c.monthStart(m1) <= c.monthStart(m2)
  {
    if m1 < m2 { assert c.monthStart(m1) < c.monthStart(m2); }
  }

  /** A day between the start of month m and the start of the next one lies in month m. */
  lemma MonthOfUnique(c: Calendar, d: Date, m: int)
    requires ValidCalendar(c)
    requires c.monthStart(m) <= d < c.monthStart(m + 1)
    ensures c.monthOf(d) == m
  {
    var k := c.monthOf(d);
    MonthStartMonotone(c, k + 1, m);
    MonthStartMonotone(c, m + 1, k);
  }

  /** Later days never fall in earlier months. */
  lemma MonthOfMonotone(c: Calendar, d1: Date, d2: Date)
    requires ValidCalendar(c)
    requires d1 <= d2
    ensures c.monthOf(d1) <= c.monthOf(d2)
  {
    MonthStartMonotone(c, c.monthOf(d2) + 1, c.monthOf(d1));
  }

  /** A day in an earlier month is an earlier day. */
  lemma MonthOfOrder(c: Calendar, d1: Date, d2: Date)
    requires ValidCalendar(c)
    requires c.monthOf(d1) < c.monthOf(d2)
    ensures d1 < d2
  {
    MonthStartMonotone(c, c.monthOf(d1) + 1, c.monthOf(d2));
  }

  /** First day of the month of d (date-fns `startOfMonth`). */
  function StartOfMonth(c: Calendar, d: Date): (r: Date)
    requires ValidCalendar(c)
    ensures r <= d && c.monthOf(r) == c.monthOf(d)
  {
    var m := c.monthOf(d);
    MonthOfUnique(c, c.monthStart(m), m);
    c.monthStart(m)
  }

  /** Last day of the month of d (date-fns `endOfMonth`, taken at day granularity). */
  function EndOfMonth(c: Calendar, d: Date): (r: Date)
    requires ValidCalendar(c)
    ensures d <= r && c.monthOf(r) == c.monthOf(d)
    ensures c.monthOf(r + 1) == c.monthOf(d) + 1
  {
    var m := c.monthOf(d);
    assert c.monthStart(m + 1) < c.monthStart(m + 2);
    MonthOfUnique(c, c.monthStart(m + 1) - 1, m);
    MonthOfUnique(c, c.monthStart(m + 1), m + 1);
    c.monthStart(m + 1) - 1
  }

  /**
   * date-fns `addMonths`: the same day of the month n months later, clamped to the last
   * day of the target month when that month is shorter.
   */
  function AddMonths(c: Calendar, d: Date, n: int): (r: Date)
    requires ValidCalendar(c)
    ensures c.monthOf(r) == c.monthOf(d) + n
    ensures r - StartOfMonth(c, r) == if d - StartOfMonth(c, d) < c.monthStart(c.monthOf(r) + 1) - StartOfMonth(c, r)
                                      then d - StartOfMonth(c, d)
                                      else c.monthStart(c.monthOf(r) + 1) - StartOfMonth(c, r) - 1
    ensures n >= 1 ==> r > d
  {
    var m := c.monthOf(d);
    var dom := d - c.monthStart(m);
    var t := m + n;
    var len := c.monthStart(t + 1) - c.monthStart(t);
    assert c.monthStart(t) < c.monthStart(t + 1);
    var r := c.monthStart(t) + (if dom < len then dom else len - 1);
    MonthOfUnique(c, r, t);
    MonthStartMonotone(c, m + 1, t);
    r
  }
}
