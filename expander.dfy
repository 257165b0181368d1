/**
 * The recurrence expander: turns the stored activities into the activities the calendar
 * shows, one instance per occurrence of every repeating template.
 */
module Expander {
  import opened Seqs
  import opened Wrappers
  import opened Dates
  import opened Types

  /**
   * The step of a rule as the model takes it: the rule's interval, or 1 when the interval
   * is below 1. The application only replaces 0 (see `SourceStepCount`).
   */
  function StepCount(r: RecurrenceConfig): (k: int)
    ensures k >= 1
    ensures r.interval >= 1 ==> k == r.interval
    ensures r.interval < 1 ==> k == 1
  {
    if r.interval >= 1 then r.interval else 1
  }

  /** The step as written in the application: `interval || 1` replaces only 0. */
  function SourceStepCount(r: RecurrenceConfig): int
  {
    if r.interval == 0 then 1 else r.interval
  }

  /** A weekly rule with a non-empty day list scans day by day and filters on the weekday. */
  predicate ByWeekday(r: RecurrenceConfig)
  {
    r.frequency == Weekly && r.daysOfWeek.Some? && |r.daysOfWeek.value| > 0
  }

  /** The next candidate start after `cur` under rule r (corrected step). */
  function NextStart(c: Calendar, r: RecurrenceConfig, cur: Date): (n: Date)
    requires ValidCalendar(c)
    requires r.frequency != NoRepeat
    ensures n > cur
    ensures r.frequency == Daily ==> n == cur + StepCount(r)
    ensures r.frequency == Weekly ==> n == if ByWeekday(r) then cur + 1 else cur + 7 * StepCount(r)
    ensures r.frequency == Monthly ==> c.monthOf(n) == c.monthOf(cur) + StepCount(r)
  {
    if r.frequency == Daily then cur + StepCount(r)
    else if r.frequency == Weekly then (if ByWeekday(r) then cur + 1 else cur + 7 * StepCount(r))
    else AddMonths(c, cur, StepCount(r))
  }

  /** The next candidate start as written in the application, for the rules with a step. */
  function SourceNextStart(c: Calendar, r: RecurrenceConfig, cur: Date): Date
    requires ValidCalendar(c)
    requires r.frequency == Daily || r.frequency == Monthly || (r.frequency == Weekly && !ByWeekday(r))
  {
    if r.frequency == Daily then cur + SourceStepCount(r)
    else if r.frequency == Weekly then cur + 7 * SourceStepCount(r)
    else AddMonths(c, cur, SourceStepCount(r))
  }

  /** The candidate start after k steps of the application's walk. */
  function SourceCandidate(c: Calendar, r: RecurrenceConfig, start: Date, k: nat): Date
    requires ValidCalendar(c)
    requires r.frequency == Daily || r.frequency == Monthly || (r.frequency == Weekly && !ByWeekday(r))
  {
    if k == 0 then start else SourceNextStart(c, r, SourceCandidate(c, r, start, k - 1))
  }

  /**
   * With a negative interval the application's walk never gets past its start, so when the
   * start is within the limit the loop `while (!isAfter(currentStart, limit))` never ends.
   */
  lemma {:induction false} NegativeIntervalNeverEnds(c: Calendar, r: RecurrenceConfig, start: Date, limit: Date, k: nat)
    requires ValidCalendar(c)
    requires r.frequency == Daily || r.frequency == Monthly || (r.frequency == Weekly && !ByWeekday(r))
    requires r.interval < 0
    requires start <= limit
    ensures SourceCandidate(c, r, start, k) <= start <= limit
  {
    if k > 0 {
      NegativeIntervalNeverEnds(c, r, start, limit, k - 1);
      SourceStepBack(c, r, SourceCandidate(c, r, start, k - 1));
    }
  }

  /** With a negative interval one step of the application's walk never moves forward. */
  lemma SourceStepBack(c: Calendar, r: RecurrenceConfig, cur: Date)
    requires ValidCalendar(c)
    requires r.frequency == Daily || r.frequency == Monthly || (r.frequency == Weekly && !ByWeekday(r))
    requires r.interval < 0
    ensures SourceNextStart(c, r, cur) < cur
  {
    if r.frequency == Monthly {
      var next := AddMonths(c, cur, SourceStepCount(r));
      assert c.monthOf(next) < c.monthOf(cur);
      MonthOfOrder(c, next, cur);
    }
  }

  /** Where the corrected and the written step agree: every interval that is not negative. */
  lemma StepCountAgrees(r: RecurrenceConfig)
    requires r.interval >= 0
    ensures StepCount(r) == SourceStepCount(r)
  {
  }

  /** The last day a template may start an occurrence on: its end of recurrence, else the horizon. */
  function Limit(r: RecurrenceConfig, horizon: Date): Date
  {
    if r.endRecurrence.Some? then r.endRecurrence.value else horizon
  }

  /** Whether the walk emits an instance on day d: not skipped, and on a chosen weekday if any. */
  predicate Emits(a: Activity, r: RecurrenceConfig, d: Date)
  {
    Render(d) !in a.skippedDates && (ByWeekday(r) ==> Weekday(d) in r.daysOfWeek.value)
  }

  /** The instance of template a that starts on day d. */
  function Instance(a: Activity, d: Date): Activity
  {
    a.(id := a.id + "-" + Render(d), startDate := d,
       endDate := d + (a.endDate - a.startDate), parentId := Some(a.id))
  }

  /** The instances the walk emits from candidate `cur` up to and including `limit`. */
  function Walk(c: Calendar, a: Activity, r: RecurrenceConfig, cur: Date, limit: Date): seq<Activity>
    requires ValidCalendar(c)
    requires r.frequency != NoRepeat
    decreases limit - cur
  {
    if cur > limit then []
    else (if Emits(a, r, cur) then [Instance(a, cur)] else []) + Walk(c, a, r, NextStart(c, r, cur), limit)
  }

  /** The k-th candidate start of a walk from cur; candidate 0 is cur itself. */
  function Candidate(c: Calendar, r: RecurrenceConfig, cur: Date, k: nat): (d: Date)
    requires ValidCalendar(c)
    requires r.frequency != NoRepeat
    ensures d >= cur + k
    decreases k
  {
    if k == 0 then cur else Candidate(c, r, NextStart(c, r, cur), k - 1)
  }

  /** What one stored activity contributes to the calendar. */
  function ExpandOne(c: Calendar, horizon: Date, a: Activity): seq<Activity>
    requires ValidCalendar(c)
  {
    if !Repeats(a) then [a]
    else Walk(c, a, a.recurrence.value, a.startDate, Limit(a.recurrence.value, horizon))
  }

  /** The contribution of each stored activity, in list order. */
  function Slots(c: Calendar, horizon: Date, acts: seq<Activity>): seq<seq<Activity>>
    requires ValidCalendar(c)
  {
    seq(|acts|, k requires 0 <= k < |acts| => ExpandOne(c, horizon, acts[k]))
  }

  /** The lists of ss one after the other. */
  function Flat(ss: seq<seq<Activity>>): seq<Activity>
  {
    if ss == [] then [] else Flat(ss[..|ss| - 1]) + ss[|ss| - 1]
  }

  /** What a list of stored activities contributes, template by template in list order. */
  function Expanded(c: Calendar, horizon: Date, acts: seq<Activity>): seq<Activity>
    requires ValidCalendar(c)
  {
    Flat(Slots(c, horizon, acts))
  }

  /** One more stored activity adds its own contribution at the end. */
  lemma ExpandedSnoc(c: Calendar, horizon: Date, acts: seq<Activity>, a: Activity)
    requires ValidCalendar(c)
    ensures Expanded(c, horizon, acts + [a]) == Expanded(c, horizon, acts) + ExpandOne(c, horizon, a)
  {
    var ss := Slots(c, horizon, acts + [a]);
    assert ss[..|acts|] == Slots(c, horizon, acts);
    assert ss[|acts|] == ExpandOne(c, horizon, a);
  }

  /**
   * The expander (`expandedActivities`): every activity without a repeating rule passes
   * through; every repeating template is replaced by the instances its walk emits.
   */
  method ExpandActivities(c: Calendar, horizon: Date, activities: seq<Activity>) returns (list: seq<Activity>)
    requires ValidCalendar(c)
    ensures list == Expanded(c, horizon, activities)
  {
    list := [];
    for i := 0 to |activities|
      invariant list == Expanded(c, horizon, activities[..i])
    {
      var a := activities[i];
      TakeSnoc(activities, i);
      ExpandedSnoc(c, horizon, activities[..i], a);
      if a.recurrence.None? || a.recurrence.value.frequency == NoRepeat {
        list := list + [a];
      } else {
        var r := a.recurrence.value;
        var limit := if r.endRecurrence.Some? then r.endRecurrence.value else horizon;
        var instances := WalkSeries(c, a, r, limit);
        list := list + instances;
      }
    }
    assert activities[..|activities|] == activities;
  }

  /**
   * The walk of one template: from its start, while the candidate day is not after the
   * limit, emit an instance unless the day is skipped or, for a weekly rule with days, falls
   * on another weekday; then step to the next candidate.
   */
  method WalkSeries(c: Calendar, a: Activity, r: RecurrenceConfig, limit: Date) returns (list: seq<Activity>)
    requires ValidCalendar(c)
    requires r.frequency != NoRepeat
    ensures list == Walk(c, a, r, a.startDate, limit)
  {
    list := [];
    var currentStart := a.startDate;
    while currentStart <= limit
      invariant list + Walk(c, a, r, currentStart, limit) == Walk(c, a, r, a.startDate, limit)
      decreases limit - currentStart
    {
      var emit := Decide(a, r, currentStart);
      WalkAdvance(c, a, r, currentStart, limit, list, emit);
      if emit {
        list := list + [Instance(a, currentStart)];
      }
      currentStart := NextStart(c, r, currentStart);
    }
  }

  /** Whether the walk emits an instance at `cur`: not a skipped date and, for a by-weekday rule, a chosen weekday. */
  method Decide(a: Activity, r: RecurrenceConfig, cur: Date) returns (emit: bool)
    ensures emit == Emits(a, r, cur)
  {
    var dateStr := Render(cur);
    emit := false;
    if dateStr !in a.skippedDates {
      if r.frequency == Weekly && r.daysOfWeek.Some? && |r.daysOfWeek.value| > 0 {
        emit := Weekday(cur) in r.daysOfWeek.value;
      } else {
        emit := true;
      }
    }
  }

  /** One step of the walk: the candidate's instance, if emitted, then the rest of the walk. */
  lemma WalkStep(c: Calendar, a: Activity, r: RecurrenceConfig, cur: Date, limit: Date)
    requires ValidCalendar(c)
    requires r.frequency != NoRepeat
    requires cur <= limit
    ensures Emits(a, r, cur) ==> Walk(c, a, r, cur, limit) == [Instance(a, cur)] + Walk(c, a, r, NextStart(c, r, cur), limit)
    ensures !Emits(a, r, cur) ==> Walk(c, a, r, cur, limit) == Walk(c, a, r, NextStart(c, r, cur), limit)
  {
  }

  /** The walk's loop invariant survives one step: what is emitted now plus the rest is the walk from here. */
  lemma WalkAdvance(c: Calendar, a: Activity, r: RecurrenceConfig, cur: Date, limit: Date,
                    done: seq<Activity>, emit: bool)
    requires ValidCalendar(c)
    requires r.frequency != NoRepeat
    requires cur <= limit
    requires emit == Emits(a, r, cur)
    ensures (if emit then done + [Instance(a, cur)] else done) + Walk(c, a, r, NextStart(c, r, cur), limit)
         == done + Walk(c, a, r, cur, limit)
  {
    var rest := Walk(c, a, r, NextStart(c, r, cur), limit);
    if emit {
      assert Walk(c, a, r, cur, limit) == [Instance(a, cur)] + rest by { WalkStep(c, a, r, cur, limit); }
      assert done + [Instance(a, cur)] + rest == done + ([Instance(a, cur)] + rest);
    } else {
      assert Walk(c, a, r, cur, limit) == rest by { WalkStep(c, a, r, cur, limit); }
    }
  }

  /** The start dates of a list of activities. */
  function Starts(w: seq<Activity>): (ds: seq<Date>)
    ensures |ds| == |w|
    ensures forall k :: 0 <= k < |w| ==> ds[k] == w[k].startDate
  {
    if w == [] then [] else [w[0].startDate] + Starts(w[1..])
  }

  /** The dates of ds other than d, in order. */
  function Omit(ds: seq<Date>, d: Date): seq<Date>
  {
    if ds == [] then [] else (if ds[0] == d then [] else [ds[0]]) + Omit(ds[1..], d)
  }

  /** The dates of ds before d, in order. */
  function Before(ds: seq<Date>, d: Date): seq<Date>
  {
    if ds == [] then [] else (if ds[0] < d then [ds[0]] else []) + Before(ds[1..], d)
  }
}

/** What the expander promises: order, bounds, filters, instance shape and the effect of rule changes. */
module ExpanderFacts {
  import opened Wrappers
  import opened Dates
  import opened Types
  import opened Expander

  /** Expanding a concatenation expands each part in turn: input order is kept. */
  lemma {:induction false} ExpandedAppend(c: Calendar, horizon: Date, xs: seq<Activity>, ys: seq<Activity>)
    requires ValidCalendar(c)
    ensures Expanded(c, horizon, xs + ys) == Expanded(c, horizon, xs) + Expanded(c, horizon, ys)
  {
    var sx, sy := Slots(c, horizon, xs), Slots(c, horizon, ys);
    assert Slots(c, horizon, xs + ys) == sx + sy;
    FlatAppend(sx, sy);
  }

  /** Flattening a concatenation flattens each part in turn. */
  lemma {:induction false} FlatAppend(xs: seq<seq<Activity>>, ys: seq<seq<Activity>>)
    ensures Flat(xs + ys) == Flat(xs) + Flat(ys)
    decreases |ys|
  {
    if ys == [] {
      assert xs + ys == xs;
    } else {
      var zs, y := ys[..|ys| - 1], ys[|ys| - 1];
      assert (xs + ys)[..|xs + ys| - 1] == xs + zs;
      FlatAppend(xs, zs);
    }
  }

  /**
   * The output is made of one slot per stored activity, in input order; the slot of an
   * activity without a repeating rule is that activity alone, unchanged.
   */
  lemma ExpandedSlot(c: Calendar, horizon: Date, acts: seq<Activity>, i: nat)
    requires ValidCalendar(c)
    requires i < |acts|
    ensures Expanded(c, horizon, acts)
         == Expanded(c, horizon, acts[..i]) + ExpandOne(c, horizon, acts[i]) + Expanded(c, horizon, acts[i + 1..])
    ensures !Repeats(acts[i]) ==> ExpandOne(c, horizon, acts[i]) == [acts[i]]
  {
    assert acts == acts[..i] + [acts[i]] + acts[i + 1..];
    ExpandedAppend(c, horizon, acts[..i] + [acts[i]], acts[i + 1..]);
    ExpandedAppend(c, horizon, acts[..i], [acts[i]]);
    assert Expanded(c, horizon, [acts[i]]) == ExpandOne(c, horizon, acts[i]) by {
      ExpandedSnoc(c, horizon, [], acts[i]);
      assert [] + [acts[i]] == [acts[i]];
    }
  }

  /**
   * Every instance a walk emits starts within [cur, limit], is not skipped, falls on a
   * chosen weekday when the rule has days, and is the instance of the template for its
   * day; the instances come in strictly ascending order.
   */
  lemma WalkFacts(c: Calendar, a: Activity, r: RecurrenceConfig, cur: Date, limit: Date)
    requires ValidCalendar(c)
    requires r.frequency != NoRepeat
    ensures forall k :: 0 <= k < |Walk(c, a, r, cur, limit)| ==>
              var x := Walk(c, a, r, cur, limit)[k];
              cur <= x.startDate <= limit && Emits(a, r, x.startDate) && x == Instance(a, x.startDate)
    ensures forall j, k :: 0 <= j < k < |Walk(c, a, r, cur, limit)| ==>
              Walk(c, a, r, cur, limit)[j].startDate < Walk(c, a, r, cur, limit)[k].startDate
  {
    WalkMembers(c, a, r, cur, limit);
    WalkAscending(c, a, r, cur, limit);
  }

  /** x is an instance the walk may emit between lo and hi. */
  predicate WalkItem(a: Activity, r: RecurrenceConfig, lo: Date, hi: Date, x: Activity)
  {
    lo <= x.startDate <= hi && Emits(a, r, x.startDate) && x == Instance(a, x.startDate)
  }

  /** k - 1 steps and one more make k steps. */
  lemma StepsSucc(k: int, step: int)
    ensures (k - 1) * step + step == k * step
  {
  }

  /** The k-th candidate of a DAILY rule lies k steps of the interval after cur. */
  lemma {:induction false} CandidateDaily(c: Calendar, r: RecurrenceConfig, cur: Date, k: nat)
    requires ValidCalendar(c)
    requires r.frequency == Daily
    ensures Candidate(c, r, cur, k) == cur + k * StepCount(r)
    decreases k
  {
    if k > 0 {
      var step, n := StepCount(r), NextStart(c, r, cur);
      var m := Candidate(c, r, n, k - 1);
      assert m == n + (k - 1) * step by { CandidateDaily(c, r, n, k - 1); }
      assert Candidate(c, r, cur, k) == m;
      StepsSucc(k, step);
    }
  }

  /** The k-th candidate of a WEEKLY rule without days lies k steps of the interval, in weeks, after cur. */
  lemma {:induction false} CandidateWeekly(c: Calendar, r: RecurrenceConfig, cur: Date, k: nat)
    requires ValidCalendar(c)
    requires r.frequency == Weekly && !ByWeekday(r)
    ensures Candidate(c, r, cur, k) == cur + 7 * (k * StepCount(r))
    decreases k
  {
    if k > 0 {
      var step, n := StepCount(r), NextStart(c, r, cur);
      var m := Candidate(c, r, n, k - 1);
      assert m == n + 7 * ((k - 1) * step) by { CandidateWeekly(c, r, n, k - 1); }
      assert Candidate(c, r, cur, k) == m;
      StepsSucc(k, step);
    }
  }

  /** The k-th candidate of a WEEKLY rule with days is the k-th day after cur. */
  lemma {:induction false} CandidateByWeekday(c: Calendar, r: RecurrenceConfig, cur: Date, k: nat)
    requires ValidCalendar(c)
    requires ByWeekday(r)
    ensures Candidate(c, r, cur, k) == cur + k
    decreases k
  {
    if k > 0 {
      var n := NextStart(c, r, cur);
      CandidateByWeekday(c, r, n, k - 1);
      assert Candidate(c, r, cur, k) == Candidate(c, r, n, k - 1) == n + (k - 1);
      assert n == cur + 1;
    }
  }

  /** Every candidate within the limit that passes the emit test is emitted: the walk misses nothing. */
  lemma {:induction false} WalkComplete(c: Calendar, a: Activity, r: RecurrenceConfig, cur: Date, limit: Date, k: nat)
    requires ValidCalendar(c)
    requires r.frequency != NoRepeat
    requires Candidate(c, r, cur, k) <= limit
    requires Emits(a, r, Candidate(c, r, cur, k))
    ensures Instance(a, Candidate(c, r, cur, k)) in Walk(c, a, r, cur, limit)
    decreases k
  {
    var n := NextStart(c, r, cur);
    var rest := Walk(c, a, r, n, limit);
    var head: seq<Activity> := if Emits(a, r, cur) then [Instance(a, cur)] else [];
    assert cur <= limit;
    assert Walk(c, a, r, cur, limit) == head + rest by { WalkStep(c, a, r, cur, limit); }
    if k == 0 {
      assert Instance(a, cur) in head;
    } else {
      assert Instance(a, Candidate(c, r, cur, k)) in rest by {
        assert Candidate(c, r, cur, k) == Candidate(c, r, n, k - 1);
        WalkComplete(c, a, r, n, limit, k - 1);
      }
    }
  }

  /** For a DAILY rule, every day k intervals on from cur, up to the limit and not skipped, has its instance. */
  lemma DailyWalkComplete(c: Calendar, a: Activity, r: RecurrenceConfig, cur: Date, limit: Date, k: nat)
    requires ValidCalendar(c)
    requires r.frequency == Daily
    requires cur + k * StepCount(r) <= limit
    requires Emits(a, r, cur + k * StepCount(r))
    ensures Instance(a, cur + k * StepCount(r)) in Walk(c, a, r, cur, limit)
  {
    CandidateDaily(c, r, cur, k);
    WalkComplete(c, a, r, cur, limit, k);
  }

  /** For a WEEKLY rule without days, every day k intervals of weeks on from cur, up to the limit and not skipped, has its instance. */
  lemma WeeklyWalkComplete(c: Calendar, a: Activity, r: RecurrenceConfig, cur: Date, limit: Date, k: nat)
    requires ValidCalendar(c)
    requires r.frequency == Weekly && !ByWeekday(r)
    requires cur + 7 * (k * StepCount(r)) <= limit
    requires Emits(a, r, cur + 7 * (k * StepCount(r)))
    ensures Instance(a, cur + 7 * (k * StepCount(r))) in Walk(c, a, r, cur, limit)
  {
    CandidateWeekly(c, r, cur, k);
    WalkComplete(c, a, r, cur, limit, k);
  }

  /**
   * For a WEEKLY rule with days, every day from cur to the limit that is not skipped and
   * falls on a listed weekday has its instance in the walk.
   */
  lemma WeekdayWalkComplete(c: Calendar, a: Activity, r: RecurrenceConfig, cur: Date, limit: Date, d: Date)
    requires ValidCalendar(c)
    requires ByWeekday(r)
    requires cur <= d <= limit
    requires Emits(a, r, d)
    ensures Instance(a, d) in Walk(c, a, r, cur, limit)
  {
    CandidateByWeekday(c, r, cur, d - cur);
    WalkComplete(c, a, r, cur, limit, d - cur);
  }

  /** Every instance of a walk from cur lies in [cur, limit], is emitted and has its day's shape. */
  lemma {:induction false} WalkMembers(c: Calendar, a: Activity, r: RecurrenceConfig, cur: Date, limit: Date)
    requires ValidCalendar(c)
    requires r.frequency != NoRepeat
    ensures forall k :: 0 <= k < |Walk(c, a, r, cur, limit)| ==> WalkItem(a, r, cur, limit, Walk(c, a, r, cur, limit)[k])
    decreases limit - cur
  {
    if cur <= limit {
      var next := NextStart(c, r, cur);
      var w, rest := Walk(c, a, r, cur, limit), Walk(c, a, r, next, limit);
      var head := if Emits(a, r, cur) then [Instance(a, cur)] else [];
      assert w == head + rest by { WalkStep(c, a, r, cur, limit); }
      WalkMembers(c, a, r, next, limit);
      WalkItemsShift(a, r, cur, next, limit, head, rest);
    }
  }

  /** Prepending the candidate's own instance, if any, to items of a later walk keeps them walk items. */
  lemma WalkItemsShift(a: Activity, r: RecurrenceConfig, cur: Date, next: Date, limit: Date,
                       head: seq<Activity>, rest: seq<Activity>)
    requires cur <= limit && cur < next
    requires head == [] || (head == [Instance(a, cur)] && Emits(a, r, cur))
    requires forall k :: 0 <= k < |rest| ==> WalkItem(a, r, next, limit, rest[k])
    ensures forall k :: 0 <= k < |head + rest| ==> WalkItem(a, r, cur, limit, (head + rest)[k])
  {
    var w := head + rest;
    forall k | 0 <= k < |w|
      ensures WalkItem(a, r, cur, limit, w[k])
    {
      if k >= |head| {
        assert w[k] == rest[k - |head|];
        assert WalkItem(a, r, next, limit, rest[k - |head|]);
      }
    }
  }

  /** The instances of a walk come in strictly ascending order of start. */
  lemma {:induction false} WalkAscending(c: Calendar, a: Activity, r: RecurrenceConfig, cur: Date, limit: Date)
    requires ValidCalendar(c)
    requires r.frequency != NoRepeat
    ensures forall j, k :: 0 <= j < k < |Walk(c, a, r, cur, limit)| ==>
              Walk(c, a, r, cur, limit)[j].startDate < Walk(c, a, r, cur, limit)[k].startDate
    decreases limit - cur
  {
    if cur <= limit {
      var next := NextStart(c, r, cur);
      var w, rest := Walk(c, a, r, cur, limit), Walk(c, a, r, next, limit);
      var head := if Emits(a, r, cur) then [Instance(a, cur)] else [];
      assert w == head + rest by { WalkStep(c, a, r, cur, limit); }
      WalkMembers(c, a, r, next, limit);
      WalkAscending(c, a, r, next, limit);
      assert forall k :: 0 <= k < |rest| ==> next <= rest[k].startDate;
      AscendingShift(cur, next, head, rest);
    }
  }

  /** A head starting at cur before an ascending run starting no earlier than a later day stays ascending. */
  lemma AscendingShift(cur: Date, next: Date, head: seq<Activity>, rest: seq<Activity>)
    requires cur < next
    requires |head| <= 1 && forall k :: 0 <= k < |head| ==> head[k].startDate == cur
    requires forall k :: 0 <= k < |rest| ==> next <= rest[k].startDate
    requires forall j, k :: 0 <= j < k < |rest| ==> rest[j].startDate < rest[k].startDate
    ensures forall j, k :: 0 <= j < k < |head + rest| ==> (head + rest)[j].startDate < (head + rest)[k].startDate
  {
    var w := head + rest;
    forall j, k | 0 <= j < k < |w|
      ensures w[j].startDate < w[k].startDate
    {
      assert w[k] == rest[k - |head|];
      if j < |head| {
        assert w[j] == head[j];
      } else {
        assert w[j] == rest[j - |head|];
      }
    }
  }

  /**
   * The instances of a repeating template: each starts between the template's start and
   * its limit (inclusive), is not a skipped date, falls on a chosen weekday when the rule
   * is weekly with days, has id `<id>-<date>`, points back to the template, keeps the
   * template's duration and its other fields; they come in strictly ascending order of
   * start, so their ids are pairwise distinct.
   */
  lemma InstanceFacts(c: Calendar, horizon: Date, a: Activity)
    requires ValidCalendar(c)
    requires Repeats(a)
    ensures var r, w := a.recurrence.value, ExpandOne(c, horizon, a);
      && (forall k :: 0 <= k < |w| ==>
            && a.startDate <= w[k].startDate <= Limit(r, horizon)
            && Render(w[k].startDate) !in a.skippedDates
            && (ByWeekday(r) ==> Weekday(w[k].startDate) in r.daysOfWeek.value)
            && w[k].id == a.id + "-" + Render(w[k].startDate)
            && w[k].parentId == Some(a.id)
            && w[k].endDate - w[k].startDate == a.endDate - a.startDate
            && w[k].activityName == a.activityName && w[k].board == a.board
            && w[k].status == a.status && w[k].isLocked == a.isLocked
            && w[k].recurrence == a.recurrence && w[k].skippedDates == a.skippedDates)
      && (forall j, k :: 0 <= j < k < |w| ==> w[j].startDate < w[k].startDate && w[j].id != w[k].id)
  {
    var r, w := a.recurrence.value, ExpandOne(c, horizon, a);
    WalkFacts(c, a, r, a.startDate, Limit(r, horizon));
    forall j, k | 0 <= j < k < |w|
      ensures w[j].id != w[k].id
    {
      if w[j].id == w[k].id {
        var p := a.id + "-";
        assert w[j].id == p + Render(w[j].startDate) && w[k].id == p + Render(w[k].startDate);
        assert Render(w[j].startDate) == w[j].id[|p|..] == w[k].id[|p|..] == Render(w[k].startDate);
        RenderInjective(w[j].startDate, w[k].startDate);
      }
    }
  }

  /** Start dates distribute over concatenation. */
  lemma {:induction false} StartsAppend(x: seq<Activity>, y: seq<Activity>)
    ensures Starts(x + y) == Starts(x) + Starts(y)
  {
  }

  /**
   * Adding day d to the skip list of a template (and nothing else that the walk reads)
   * removes exactly the instance on d from its walk.
   */
  lemma {:induction false} WalkWithSkip(c: Calendar, a: Activity, b: Activity, r: RecurrenceConfig, cur: Date, limit: Date, d: Date)
    requires ValidCalendar(c)
    requires r.frequency != NoRepeat
    requires forall s :: s in b.skippedDates <==> (s in a.skippedDates || s == Render(d))
    ensures Starts(Walk(c, b, r, cur, limit)) == Omit(Starts(Walk(c, a, r, cur, limit)), d)
    decreases limit - cur
  {
    if cur <= limit {
      var next := NextStart(c, r, cur);
      WalkStep(c, a, r, cur, limit);
      WalkStep(c, b, r, cur, limit);
      WalkWithSkip(c, a, b, r, next, limit, d);
      var restA, restB := Walk(c, a, r, next, limit), Walk(c, b, r, next, limit);
      if Render(cur) == Render(d) {
        RenderInjective(cur, d);
      }
      assert Emits(b, r, cur) == (Emits(a, r, cur) && cur != d);
      if Emits(a, r, cur) {
        StartsAppend([Instance(a, cur)], restA);
        if Emits(b, r, cur) {
          StartsAppend([Instance(b, cur)], restB);
        }
        assert Omit([cur] + Starts(restA), d) == (if cur == d then [] else [cur]) + Omit(Starts(restA), d);
      }
    }
  }

  /** None of the dates in ds is before d. */
  lemma {:induction false} BeforeNone(ds: seq<Date>, d: Date)
    requires forall k :: 0 <= k < |ds| ==> ds[k] >= d
    ensures Before(ds, d) == []
  {
    if ds != [] {
      BeforeNone(ds[1..], d);
    }
  }

  /**
   * Ending a series on the day before d, where d is no later than the day after the old
   * limit, keeps exactly the instances of the old walk that start before d. Only the end
   * of the rule changes: `s` agrees with `r` on frequency, interval and days.
   */
  lemma {:induction false} WalkTruncated(c: Calendar, a: Activity, b: Activity, r: RecurrenceConfig, s: RecurrenceConfig,
                                         cur: Date, limit: Date, d: Date)
    requires ValidCalendar(c)
    requires r.frequency != NoRepeat
    requires s == r.(endRecurrence := s.endRecurrence)
    requires b.skippedDates == a.skippedDates
    requires d - 1 <= limit
    ensures Starts(Walk(c, b, s, cur, d - 1)) == Before(Starts(Walk(c, a, r, cur, limit)), d)
    decreases limit - cur
  {
    var restA := Walk(c, a, r, cur, limit);
    if cur > d - 1 {
      WalkMembers(c, a, r, cur, limit);
      var ds := Starts(restA);
      forall k | 0 <= k < |ds|
        ensures ds[k] >= d
      {
        assert WalkItem(a, r, cur, limit, restA[k]);
      }
      BeforeNone(ds, d);
      assert Walk(c, b, s, cur, d - 1) == [];
    } else {
      var next := NextStart(c, r, cur);
      assert NextStart(c, s, cur) == next;
      var tailA, tailB := Walk(c, a, r, next, limit), Walk(c, b, s, next, d - 1);
      WalkTruncated(c, a, b, r, s, next, limit, d);
      var e := Emits(a, r, cur);
      assert Emits(b, s, cur) == e;
      assert restA == (if e then [Instance(a, cur)] else []) + tailA by { WalkStep(c, a, r, cur, limit); }
      assert Walk(c, b, s, cur, d - 1) == (if e then [Instance(b, cur)] else []) + tailB by {
        WalkStep(c, b, s, cur, d - 1);
      }
      if e {
        StartsAppend([Instance(a, cur)], tailA);
        StartsAppend([Instance(b, cur)], tailB);
        assert Starts([Instance(a, cur)]) == [cur] == Starts([Instance(b, cur)]);
        BeforeCons(cur, Starts(tailA), d);
      } else {
        assert restA == tailA;
        assert Walk(c, b, s, cur, d - 1) == tailB;
      }
    }
  }

  /** A date before d stays at the head of the dates before d. */
  lemma BeforeCons(x: Date, ds: seq<Date>, d: Date)
    requires x < d
    ensures Before([x] + ds, d) == [x] + Before(ds, d)
  {
    assert ([x] + ds)[1..] == ds;
  }
}

/** The board and status filters applied to the expanded list before it is shown. */
module ActivityFilter {
  import opened Seqs
  import opened Wrappers
  import opened Types

  /** An activity passes when each filter is 'ALL' (None) or names the activity's value. */
  predicate Matches(a: Activity, boardFilter: Option<Board>, statusFilter: Option<Status>)
  {
    (boardFilter.None? || a.board == boardFilter.value) && (statusFilter.None? || a.status == statusFilter.value)
  }

  /** `filteredExpanded`: the activities of the list that pass both filters, in list order. */
  function Visible(list: seq<Activity>, boardFilter: Option<Board>, statusFilter: Option<Status>): (r: seq<Activity>)
    ensures |r| <= |list|
    ensures forall x :: x in r <==> x in list && Matches(x, boardFilter, statusFilter)
    ensures boardFilter.None? && statusFilter.None? ==> r == list
  {
    if list == [] then []
    else (if Matches(list[0], boardFilter, statusFilter) then [list[0]] else [])
         + Visible(list[1..], boardFilter, statusFilter)
  }

  /** Filtering a concatenation filters each part and keeps them in order. */
  lemma {:induction false} VisibleAppend(a: seq<Activity>, b: seq<Activity>,
                                         boardFilter: Option<Board>, statusFilter: Option<Status>)
    ensures Visible(a + b, boardFilter, statusFilter) == Visible(a, boardFilter, statusFilter) + Visible(b, boardFilter, statusFilter)
    decreases |a|
  {
    if a == [] {
      assert a + b == b;
    } else {
      ConsAppend(a, b);
      VisibleAppend(a[1..], b, boardFilter, statusFilter);
      var keep := if Matches(a[0], boardFilter, statusFilter) then [a[0]] else [];
      assert Visible(a + b, boardFilter, statusFilter) == keep + Visible(a[1..] + b, boardFilter, statusFilter);
      AppendAssoc(keep, Visible(a[1..], boardFilter, statusFilter), Visible(b, boardFilter, statusFilter));
    }
  }

  /** A matching activity is shown as often as it occurs in the list, any other one never. */
  lemma {:induction false} VisibleCounts(list: seq<Activity>, boardFilter: Option<Board>, statusFilter: Option<Status>,
                                         x: Activity)
    ensures multiset(Visible(list, boardFilter, statusFilter))[x]
         == if Matches(x, boardFilter, statusFilter) then multiset(list)[x] else 0
  {
    if list != [] {
      HeadTail(list);
      VisibleCounts(list[1..], boardFilter, statusFilter, x);
    }
  }
}
