/**
 * The activity lists a monthly report is built from: the activities overlapping the month
 * of a given date, and those overlapping the month after it.
 */
module Report {
  import opened Dates
  import opened Types
  import opened Seqs

  /** Milliseconds in a day: the comparisons are made between instants, not days. */
  const DayMs: int := 86_400_000

  /** The first instant of a day (`parseISO` of a date-only string, `startOfMonth`). */
  function Midnight(d: Date): int
  {
    d * DayMs
  }

  /** The last instant of a day (`endOfMonth` is 23:59:59.999 on the month's last day). */
  function LastInstant(d: Date): int
  {
    d * DayMs + DayMs - 1
  }

  /** The filter's test: start in the range, end in the range, or the activity spans it. */
  predicate Overlaps(a: Activity, rangeStart: int, rangeEnd: int)
  {
    var start, end := Midnight(a.startDate), Midnight(a.endDate);
    || (start >= rangeStart && start <= rangeEnd)
    || (end >= rangeStart && end <= rangeEnd)
    || (start <= rangeStart && end >= rangeEnd)
  }

  /** `filterActivities`: the overlapping activities, in their original order. */
  function FilterActivities(acts: seq<Activity>, rangeStart: int, rangeEnd: int): (r: seq<Activity>)
    ensures forall x :: x in r <==> x in acts && Overlaps(x, rangeStart, rangeEnd)
    ensures |r| <= |acts|
  {
    if acts == [] then []
    else
      var init, last := acts[..|acts| - 1], acts[|acts| - 1];
      assert acts == init + [last];
      FilterActivities(init, rangeStart, rangeEnd) + (if Overlaps(last, rangeStart, rangeEnd) then [last] else [])
  }

  /** Filtering a concatenation filters each part and keeps them in order. */
  lemma {:induction false} FilterAppend(a: seq<Activity>, b: seq<Activity>, rangeStart: int, rangeEnd: int)
    ensures FilterActivities(a + b, rangeStart, rangeEnd)
         == FilterActivities(a, rangeStart, rangeEnd) + FilterActivities(b, rangeStart, rangeEnd)
    decreases |b|
  {
    if b == [] {
      assert a + b == a;
    } else {
      var init, last := b[..|b| - 1], b[|b| - 1];
      FilterAppend(a, init, rangeStart, rangeEnd);
      AppendInit(a, b);
      var keep := if Overlaps(last, rangeStart, rangeEnd) then [last] else [];
      assert FilterActivities(a + b, rangeStart, rangeEnd) == FilterActivities(a + init, rangeStart, rangeEnd) + keep;
      assert FilterActivities(b, rangeStart, rangeEnd) == FilterActivities(init, rangeStart, rangeEnd) + keep;
      AppendAssoc(FilterActivities(a, rangeStart, rangeEnd), FilterActivities(init, rangeStart, rangeEnd), keep);
    }
  }

  /** Each overlapping activity is kept as often as it occurs, every other one never. */
  lemma {:induction false} FilterCounts(acts: seq<Activity>, rangeStart: int, rangeEnd: int, x: Activity)
    ensures multiset(FilterActivities(acts, rangeStart, rangeEnd))[x]
         == if Overlaps(x, rangeStart, rangeEnd) then multiset(acts)[x] else 0
  {
    if acts != [] {
      var init, last := acts[..|acts| - 1], acts[|acts| - 1];
      assert acts == init + [last];
      FilterCounts(init, rangeStart, rangeEnd, x);
    }
  }

  /**
   * For a well-formed activity and a range of whole days, the three-clause test says
   * exactly that the activity's days and the range's days intersect.
   */
  lemma OverlapIsIntersection(a: Activity, first: Date, last: Date)
    requires a.startDate <= a.endDate && first <= last
    ensures Overlaps(a, Midnight(first), LastInstant(last)) <==> a.startDate <= last && first <= a.endDate
  {
    MidnightOrder(a.startDate, first);
    MidnightOrder(a.endDate, first);
    LastInstantOrder(a.startDate, last);
    LastInstantOrder(a.endDate, last);
  }

  lemma MidnightOrder(d: Date, e: Date)
    ensures Midnight(d) >= Midnight(e) <==> d >= e
  {
    if d < e {
      assert Midnight(e) - Midnight(d) == (e - d) * DayMs;
    } else {
      assert Midnight(d) - Midnight(e) == (d - e) * DayMs;
    }
  }

  lemma LastInstantOrder(d: Date, e: Date)
    ensures Midnight(d) <= LastInstant(e) <==> d <= e
    ensures Midnight(d) >= LastInstant(e) <==> d > e
  {
    if d <= e {
      assert LastInstant(e) - Midnight(d) == (e - d) * DayMs + DayMs - 1;
    } else {
      assert Midnight(d) - LastInstant(e) == (d - e - 1) * DayMs + 1;
    }
  }

  /** The activity has a day in calendar month m. */
  predicate TouchesMonth(c: Calendar, a: Activity, m: int)
  {
    exists d :: a.startDate <= d <= a.endDate && c.monthOf(d) == m
  }

  /** The first and last day of the month of `monthDate`, and of the month after it. */
  function ReportRanges(c: Calendar, monthDate: Date): (r: (Date, Date, Date, Date))
    requires ValidCalendar(c)
    ensures forall d :: r.0 <= d <= r.1 <==> c.monthOf(d) == c.monthOf(monthDate)
    ensures forall d :: r.2 <= d <= r.3 <==> c.monthOf(d) == c.monthOf(monthDate) + 1
    ensures r.2 == r.1 + 1
  {
    var next := AddMonths(c, monthDate, 1);
    var r := (StartOfMonth(c, monthDate), EndOfMonth(c, monthDate), StartOfMonth(c, next), EndOfMonth(c, next));
    MonthDays(c, r.0, r.1, c.monthOf(monthDate));
    MonthDays(c, r.2, r.3, c.monthOf(monthDate) + 1);
    MonthOfUnique(c, r.1 + 1, c.monthOf(monthDate) + 1);
    r
  }

  /** The days between a month's first and last day are exactly the days of that month. */
  lemma MonthDays(c: Calendar, first: Date, last: Date, m: int)
    requires ValidCalendar(c)
    requires c.monthOf(first) == m && c.monthOf(last) == m
    requires first == c.monthStart(m) && c.monthOf(last + 1) == m + 1
    ensures forall d :: first <= d <= last <==> c.monthOf(d) == m
  {
    forall d
      ensures first <= d <= last <==> c.monthOf(d) == m
    {
      if c.monthOf(d) == m {
        assert c.monthStart(m) <= d < c.monthStart(m + 1);
        assert c.monthStart(m + 1) <= last + 1;
      } else if first <= d <= last {
        MonthOfMonotone(c, first, d);
        MonthOfMonotone(c, d, last);
      }
    }
  }

  /** The report's two lists: this month's activities and next month's. */
  function MonthLists(c: Calendar, acts: seq<Activity>, monthDate: Date): (r: (seq<Activity>, seq<Activity>))
    requires ValidCalendar(c)
    ensures forall x :: x in r.0 && x.startDate <= x.endDate <==>
      x in acts && x.startDate <= x.endDate && TouchesMonth(c, x, c.monthOf(monthDate))
    ensures forall x :: x in r.1 && x.startDate <= x.endDate <==>
      x in acts && x.startDate <= x.endDate && TouchesMonth(c, x, c.monthOf(monthDate) + 1)
  {
    var ranges := ReportRanges(c, monthDate);
    var current := FilterActivities(acts, Midnight(ranges.0), LastInstant(ranges.1));
    var next := FilterActivities(acts, Midnight(ranges.2), LastInstant(ranges.3));
    FilterMonth(c, acts, ranges.0, ranges.1, c.monthOf(monthDate));
    FilterMonth(c, acts, ranges.2, ranges.3, c.monthOf(monthDate) + 1);
    (current, next)
  }

  /** Filtering on a month's day range keeps the well-formed activities that touch the month. */
  lemma FilterMonth(c: Calendar, acts: seq<Activity>, first: Date, last: Date, m: int)
    requires forall d :: first <= d <= last <==> c.monthOf(d) == m
    requires first <= last
    ensures forall x :: x in FilterActivities(acts, Midnight(first), LastInstant(last)) && x.startDate <= x.endDate <==>
      x in acts && x.startDate <= x.endDate && TouchesMonth(c, x, m)
  {
    forall x: Activity | x.startDate <= x.endDate
      ensures Overlaps(x, Midnight(first), LastInstant(last)) <==> TouchesMonth(c, x, m)
    {
      OverlapIsIntersection(x, first, last);
      TouchesRange(c, x, first, last, m);
    }
  }

  /** An activity touches a month exactly when its days meet the month's day range. */
  lemma TouchesRange(c: Calendar, a: Activity, first: Date, last: Date, m: int)
    requires a.startDate <= a.endDate && first <= last
    requires forall d :: first <= d <= last <==> c.monthOf(d) == m
    ensures TouchesMonth(c, a, m) <==> a.startDate <= last && first <= a.endDate
  {
    if a.startDate <= last && first <= a.endDate {
      var d := if a.startDate <= first then first else a.startDate;
      assert first <= d <= last;
      assert c.monthOf(d) == m;
    }
    if TouchesMonth(c, a, m) {
      var d :| a.startDate <= d <= a.endDate && c.monthOf(d) == m;
      assert first <= d <= last;
    }
  }
}
