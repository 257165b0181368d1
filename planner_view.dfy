/**
 * The planner list: the visible activities sorted by start date and grouped into one
 * section per calendar month, sections in order of first appearance.
 */
module PlannerView {
  import opened Dates
  import opened Types
  import opened Seqs

  predicate SortedByStart(s: seq<Activity>)
  {
    forall i, j :: 0 <= i < j < |s| ==> s[i].startDate <= s[j].startDate
  }

  /** Where a stable insertion puts x: after every element that does not start later than it. */
  function Position(s: seq<Activity>, x: Activity): (p: nat)
    requires SortedByStart(s)
    ensures p <= |s|
    ensures forall k :: 0 <= k < p ==> s[k].startDate <= x.startDate
    ensures forall k :: p <= k < |s| ==> s[k].startDate > x.startDate
  {
    if s == [] || s[|s| - 1].startDate <= x.startDate then |s|
    else Position(s[..|s| - 1], x)
  }

  /** Inserts x into a sorted list at its stable position. */
  function Insert(s: seq<Activity>, x: Activity): (r: seq<Activity>)
    requires SortedByStart(s)
    ensures SortedByStart(r)
    ensures multiset(r) == multiset(s) + multiset{x}
    ensures |r| == |s| + 1
  {
    var p := Position(s, x);
    assert s == s[..p] + s[p..];
    PlaceSorted(s[..p], s[p..], x);
    s[..p] + [x] + s[p..]
  }

  /** x fits between a sorted prefix no later than it and a suffix strictly later than it. */
  lemma PlaceSorted(front: seq<Activity>, back: seq<Activity>, x: Activity)
    requires SortedByStart(front + back)
    requires forall k :: 0 <= k < |front| ==> front[k].startDate <= x.startDate
    requires forall k :: 0 <= k < |back| ==> back[k].startDate > x.startDate
    ensures SortedByStart(front + [x] + back)
  {
    var s, r := front + back, front + [x] + back;
    forall i, j | 0 <= i < j < |r| ensures r[i].startDate <= r[j].startDate {
      if j < |front| {
        assert r[i] == s[i] && r[j] == s[j];
      } else if i > |front| {
        assert r[i] == s[i - 1] && r[j] == s[j - 1];
      } else if i == |front| {
        assert r[j] == back[j - |front| - 1];
      } else if j == |front| {
        assert r[i] == front[i];
      } else {
        assert r[i] == front[i] && r[j] == back[j - |front| - 1];
      }
    }
  }

  /**
   * `[...activities].sort(compareAsc on startDate)`: a stable sort, modelled as insertion
   * of each element, left to right, after its equals.
   */
  function SortByStart(s: seq<Activity>): (r: seq<Activity>)
    ensures SortedByStart(r)
    ensures multiset(r) == multiset(s)
    ensures |r| == |s|
  {
    if s == [] then []
    else
      assert s == s[..|s| - 1] + [s[|s| - 1]];
      Insert(SortByStart(s[..|s| - 1]), s[|s| - 1])
  }

  /** The activities starting on day d, in order. */
  function StartingOn(s: seq<Activity>, d: Date): seq<Activity>
  {
    if s == [] then []
    else StartingOn(s[..|s| - 1], d) + (if s[|s| - 1].startDate == d then [s[|s| - 1]] else [])
  }

  /** Selecting the activities of a day distributes over concatenation. */
  lemma {:induction false} StartingOnAppend(a: seq<Activity>, b: seq<Activity>, d: Date)
    ensures StartingOn(a + b, d) == StartingOn(a, d) + StartingOn(b, d)
    decreases |b|
  {
    if b == [] {
      assert a + b == a;
    } else {
      StartingOnAppend(a, b[..|b| - 1], d);
      assert (a + b)[..|a + b| - 1] == a + b[..|b| - 1];
    }
  }

  /** No activity of a list starting later than d starts on d. */
  lemma {:induction false} StartingOnLater(s: seq<Activity>, d: Date)
    requires forall k :: 0 <= k < |s| ==> s[k].startDate > d
    ensures StartingOn(s, d) == []
  {
    if s != [] {
      StartingOnLater(s[..|s| - 1], d);
    }
  }

  /** Insertion places the element after every activity with the same start. */
  lemma {:induction false} InsertStartingOn(s: seq<Activity>, x: Activity, d: Date)
    requires SortedByStart(s)
    ensures StartingOn(Insert(s, x), d) == StartingOn(s, d) + (if x.startDate == d then [x] else [])
  {
    var p := Position(s, x);
    assert s == s[..p] + s[p..];
    StartingOnBetween(s[..p], s[p..], x, d);
  }

  /** The sort is stable: the activities starting on any one day keep their input order. */
  lemma {:induction false} SortStable(s: seq<Activity>, d: Date)
    ensures StartingOn(SortByStart(s), d) == StartingOn(s, d)
    decreases |s|
  {
    if s != [] {
      var init, x := s[..|s| - 1], s[|s| - 1];
      SortStable(init, d);
      InsertStartingOn(SortByStart(init), x, d);
    }
  }

  /** An element placed before a tail of strictly later activities comes last among its day's. */
  lemma StartingOnBetween(front: seq<Activity>, back: seq<Activity>, x: Activity, d: Date)
    requires forall k :: 0 <= k < |back| ==> back[k].startDate > x.startDate
    ensures StartingOn(front + [x] + back, d) == StartingOn(front + back, d) + (if x.startDate == d then [x] else [])
  {
    StartingOnAppend(front + [x], back, d);
    StartingOnAppend(front, back, d);
    assert StartingOn(front + [x], d) == StartingOn(front, d) + (if x.startDate == d then [x] else []) by {
      assert (front + [x])[..|front|] == front;
    }
    if x.startDate == d {
      StartingOnLater(back, d);
    }
  }

  /** The month sections of s, in order of first appearance (`Object.entries` order). */
  function MonthsOf(c: Calendar, s: seq<Activity>): (ms: seq<int>)
    ensures forall i, j :: 0 <= i < j < |ms| ==> ms[i] != ms[j]
    ensures s != [] ==> ms != []
  {
    if s == [] then []
    else
      var ms := MonthsOf(c, s[..|s| - 1]);
      var m := c.monthOf(s[|s| - 1].startDate);
      if m in ms then ms else ms + [m]
  }

  /** A month has a section exactly when some activity starts in it. */
  lemma {:induction false} MonthsOfMembers(c: Calendar, s: seq<Activity>)
    ensures forall m :: m in MonthsOf(c, s) <==> exists k :: 0 <= k < |s| && c.monthOf(s[k].startDate) == m
  {
    if s != [] {
      var init := s[..|s| - 1];
      MonthsOfMembers(c, init);
      assert forall k :: 0 <= k < |init| ==> init[k] == s[k];
    }
  }

  /** The section of month m: the activities starting in it, in order. */
  function InMonth(c: Calendar, s: seq<Activity>, m: int): seq<Activity>
  {
    if s == [] then []
    else InMonth(c, s[..|s| - 1], m) + (if c.monthOf(s[|s| - 1].startDate) == m then [s[|s| - 1]] else [])
  }

  /** A month's section holds exactly the activities starting in that month. */
  lemma {:induction false} InMonthMembers(c: Calendar, s: seq<Activity>, m: int)
    ensures forall y :: y in InMonth(c, s, m) <==> y in s && c.monthOf(y.startDate) == m
  {
    if s != [] {
      var init := s[..|s| - 1];
      InMonthMembers(c, init, m);
      assert s == init + [s[|s| - 1]];
    }
  }

  /** A month without a section has an empty list. */
  lemma {:induction false} InMonthEmpty(c: Calendar, s: seq<Activity>, m: int)
    requires m !in MonthsOf(c, s)
    ensures InMonth(c, s, m) == []
  {
    if s != [] {
      InMonthEmpty(c, s[..|s| - 1], m);
    }
  }

  /** Sorting, then grouping the sorted copy. */
  method Sections(c: Calendar, activities: seq<Activity>) returns (months: seq<int>, groups: map<int, seq<Activity>>)
    ensures months == MonthsOf(c, SortByStart(activities))
    ensures forall m :: m in groups <==> m in months
    ensures forall m :: m in groups ==> groups[m] == InMonth(c, SortByStart(activities), m)
    ensures months == [] <==> activities == []
  {
    var sorted := SortByStart(activities);
    months, groups := GroupByMonth(c, sorted);
  }

  /**
   * The `forEach` that fills the month dictionary: the month keys in insertion order and
   * each month's list.
   */
  method GroupByMonth(c: Calendar, sorted: seq<Activity>) returns (months: seq<int>, groups: map<int, seq<Activity>>)
    ensures months == MonthsOf(c, sorted)
    ensures forall m :: m in groups <==> m in months
    ensures forall m :: m in groups ==> groups[m] == InMonth(c, sorted, m)
  {
    months, groups := [], map[];
    for i := 0 to |sorted|
      invariant months == MonthsOf(c, sorted[..i])
      invariant forall m :: m in groups <==> m in months
      invariant forall m :: m in groups ==> groups[m] == InMonth(c, sorted[..i], m)
    {
      var a := sorted[i];
      TakeSnoc(sorted, i);
      GroupStep(c, sorted[..i], a, months, groups);
      var key := c.monthOf(a.startDate);
      var bucket := if key in groups then groups[key] else [];
      if key !in groups {
        months := months + [key];
      }
      groups := groups[key := bucket + [a]];
    }
    assert sorted[..|sorted|] == sorted;
  }

  /** One step of the grouping loop: appending `a` to its month's list keeps the loop's invariant. */
  lemma GroupStep(c: Calendar, prefix: seq<Activity>, a: Activity, months: seq<int>, groups: map<int, seq<Activity>>)
    requires months == MonthsOf(c, prefix)
    requires forall m :: m in groups <==> m in months
    requires forall m :: m in groups ==> groups[m] == InMonth(c, prefix, m)
    ensures var key := c.monthOf(a.startDate);
      var months' := if key in groups then months else months + [key];
      var groups' := groups[key := (if key in groups then groups[key] else []) + [a]];
      && months' == MonthsOf(c, prefix + [a])
      && (forall m :: m in groups' <==> m in months')
      && (forall m :: m in groups' ==> groups'[m] == InMonth(c, prefix + [a], m))
  {
    var key := c.monthOf(a.startDate);
    MonthsOfSnoc(c, prefix, a);
    forall m | m in groups && m != key ensures InMonth(c, prefix + [a], m) == InMonth(c, prefix, m) {
      InMonthSnoc(c, prefix, a, m);
    }
    InMonthSnoc(c, prefix, a, key);
    if key !in groups {
      InMonthEmpty(c, prefix, key);
    }
  }

  /** Appending an activity adds its month as the last section unless it already has one. */
  lemma MonthsOfSnoc(c: Calendar, t: seq<Activity>, x: Activity)
    ensures MonthsOf(c, t + [x]) == if c.monthOf(x.startDate) in MonthsOf(c, t) then MonthsOf(c, t)
                                    else MonthsOf(c, t) + [c.monthOf(x.startDate)]
  {
    assert (t + [x])[..|t|] == t;
  }

  /** The sections listed one after another. */
  function Flatten(c: Calendar, s: seq<Activity>, ms: seq<int>): seq<Activity>
  {
    if ms == [] then [] else Flatten(c, s, ms[..|ms| - 1]) + InMonth(c, s, ms[|ms| - 1])
  }

  predicate Increasing(ms: seq<int>)
  {
    forall i, j :: 0 <= i < j < |ms| ==> ms[i] < ms[j]
  }

  lemma {:induction false} FlattenFrame(c: Calendar, s: seq<Activity>, t: seq<Activity>, ms: seq<int>)
    requires forall i :: 0 <= i < |ms| ==> InMonth(c, s, ms[i]) == InMonth(c, t, ms[i])
    ensures Flatten(c, s, ms) == Flatten(c, t, ms)
  {
    if ms != [] {
      FlattenFrame(c, s, t, ms[..|ms| - 1]);
    }
  }

  /** In a sorted list every section so far is no later than the month of a later activity. */
  lemma {:induction false} MonthsBelow(c: Calendar, t: seq<Activity>, x: Activity)
    requires ValidCalendar(c) && forall k :: 0 <= k < |t| ==> t[k].startDate <= x.startDate
    ensures forall i :: 0 <= i < |MonthsOf(c, t)| ==> MonthsOf(c, t)[i] <= c.monthOf(x.startDate)
  {
    var ms := MonthsOf(c, t);
    MonthsOfMembers(c, t);
    forall i | 0 <= i < |ms| ensures ms[i] <= c.monthOf(x.startDate) {
      assert ms[i] in ms;
      var k :| 0 <= k < |t| && c.monthOf(t[k].startDate) == ms[i];
      MonthOfMonotone(c, t[k].startDate, x.startDate);
    }
  }

  /** Appending an activity to t leaves the section of any other month as it is. */
  lemma InMonthSnoc(c: Calendar, t: seq<Activity>, x: Activity, m: int)
    ensures InMonth(c, t + [x], m) == InMonth(c, t, m) + (if c.monthOf(x.startDate) == m then [x] else [])
  {
    assert (t + [x])[..|t|] == t;
  }

  /** Appending an activity of the last section extends that section. */
  lemma {:induction false} FlattenSameMonth(c: Calendar, t: seq<Activity>, x: Activity, ms: seq<int>)
    requires Flatten(c, t, ms) == t
    requires |ms| > 0 && ms[|ms| - 1] == c.monthOf(x.startDate)
    requires forall i :: 0 <= i < |ms| - 1 ==> ms[i] != ms[|ms| - 1]
    ensures Flatten(c, t + [x], ms) == t + [x]
  {
    var s := t + [x];
    var init, m := ms[..|ms| - 1], ms[|ms| - 1];
    forall i | 0 <= i < |init| ensures InMonth(c, s, init[i]) == InMonth(c, t, init[i]) {
      InMonthSnoc(c, t, x, init[i]);
    }
    FlattenFrame(c, s, t, init);
    InMonthSnoc(c, t, x, m);
    assert Flatten(c, s, ms) == Flatten(c, t, init) + (InMonth(c, t, m) + [x]);
    assert Flatten(c, t, ms) == Flatten(c, t, init) + InMonth(c, t, m);
  }

  /** Appending an activity of a month not seen yet opens a new last section. */
  lemma {:induction false} FlattenNewMonth(c: Calendar, t: seq<Activity>, x: Activity, ms: seq<int>)
    requires Flatten(c, t, ms) == t
    requires c.monthOf(x.startDate) !in ms && InMonth(c, t, c.monthOf(x.startDate)) == []
    ensures Flatten(c, t + [x], ms + [c.monthOf(x.startDate)]) == t + [x]
  {
    var s, m := t + [x], c.monthOf(x.startDate);
    forall i | 0 <= i < |ms| ensures InMonth(c, s, ms[i]) == InMonth(c, t, ms[i]) {
      assert ms[i] in ms;
      InMonthSnoc(c, t, x, ms[i]);
    }
    FlattenFrame(c, s, t, ms);
    InMonthSnoc(c, t, x, m);
    assert (ms + [m])[..|ms|] == ms;
    assert Flatten(c, s, ms + [m]) == Flatten(c, s, ms) + InMonth(c, s, m);
  }

  /** One more activity, no earlier than the others, keeps the sections ordered and complete. */
  lemma {:induction false} SectionsSnoc(c: Calendar, t: seq<Activity>, x: Activity)
    requires ValidCalendar(c) && forall k :: 0 <= k < |t| ==> t[k].startDate <= x.startDate
    requires Increasing(MonthsOf(c, t)) && Flatten(c, t, MonthsOf(c, t)) == t
    ensures Increasing(MonthsOf(c, t + [x]))
    ensures Flatten(c, t + [x], MonthsOf(c, t + [x])) == t + [x]
  {
    var s := t + [x];
    assert s[..|s| - 1] == t;
    var m := c.monthOf(x.startDate);
    var ms := MonthsOf(c, t);
    MonthsBelow(c, t, x);
    if m in ms {
      FlattenSameMonth(c, t, x, ms);
    } else {
      InMonthEmpty(c, t, m);
      FlattenNewMonth(c, t, x, ms);
    }
  }

  /**
   * For a sorted list the sections come in increasing month order and, read one after
   * another, give back the list itself: every activity is shown once, in its own month.
   */
  lemma {:induction false} SectionsPartition(c: Calendar, s: seq<Activity>)
    requires ValidCalendar(c) && SortedByStart(s)
    ensures Increasing(MonthsOf(c, s))
    ensures Flatten(c, s, MonthsOf(c, s)) == s
  {
    if s != [] {
      var t, x := s[..|s| - 1], s[|s| - 1];
      SectionsPartition(c, t);
      SectionsSnoc(c, t, x);
      assert t + [x] == s;
    }
  }
}
