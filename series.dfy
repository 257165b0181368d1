/**
 * The series mutator: how deleting, editing, creating and importing activities change the
 * list of stored records, and which records are sent to the backend store.
 */
module Series {
  import opened Wrappers
  import opened Dates
  import opened Types

  /** The id of the stored record an activity stands for: its template's, if it is an instance. */
  function TargetId(a: Activity): string
  {
    if a.parentId.Some? then a.parentId.value else a.id
  }

  predicate NoRepeatedEntries(s: seq<string>)
  {
    forall i, j :: 0 <= i < j < |s| ==> s[i] != s[j]
  }

  /** `[...new Set(s)]`: s without repeats, each entry kept at its first position. */
  function Dedup(s: seq<string>): (r: seq<string>)
    ensures forall x :: x in r <==> x in s
    ensures NoRepeatedEntries(r)
  {
    if s == [] then []
    else
      var p := Dedup(s[..|s| - 1]);
      assert forall x :: x in s <==> x in s[..|s| - 1] || x == s[|s| - 1] by {
        assert s == s[..|s| - 1] + [s[|s| - 1]];
      }
      if s[|s| - 1] in p then p else p + [s[|s| - 1]]
  }

  /** A list without repeats is its own deduplication. */
  lemma {:induction false} DedupKeeps(s: seq<string>)
    requires NoRepeatedEntries(s)
    ensures Dedup(s) == s
  {
    if s != [] {
      DedupKeeps(s[..|s| - 1]);
      assert s[|s| - 1] !in s[..|s| - 1];
      assert s[..|s| - 1] + [s[|s| - 1]] == s;
    }
  }

  /** The skip list after skipping day d: the set union of the old list and d. */
  function AddSkip(skipped: seq<string>, d: Date): (r: seq<string>)
    ensures forall x :: x in r <==> x in skipped || x == Render(d)
    ensures NoRepeatedEntries(r)
  {
    Dedup(skipped + [Render(d)])
  }

  /** Skipping the same day twice is the same as skipping it once. */
  lemma AddSkipTwice(skipped: seq<string>, d: Date)
    ensures AddSkip(AddSkip(skipped, d), d) == AddSkip(skipped, d)
  {
    var once := AddSkip(skipped, d);
    var p := Dedup(once);
    assert once + [Render(d)] == (once + [Render(d)])[..|once|] + [Render(d)];
    assert (once + [Render(d)])[..|once|] == once;
    DedupKeeps(once);
    assert Render(d) in p;
  }

  /** The template with the occurrence on day d skipped. */
  function SkipOccurrence(a: Activity, d: Date): Activity
  {
    a.(skippedDates := AddSkip(a.skippedDates, d))
  }

  /** The template with its series ended on the day before d (`subDays(splitDate, 1)`). */
  function EndBefore(a: Activity, d: Date): Activity
    requires a.recurrence.Some?
  {
    a.(recurrence := Some(a.recurrence.value.(endRecurrence := Some(d - 1))))
  }

  /** Every record with id t carries a recurrence (what `a.recurrence!` takes for granted). */
  predicate CanEnd(records: seq<Activity>, t: string)
  {
    forall i :: 0 <= i < |records| && records[i].id == t ==> records[i].recurrence.Some?
  }

  /** `map`: skip day d in every record whose id is t. */
  function SkipIn(records: seq<Activity>, t: string, d: Date): (r: seq<Activity>)
    ensures |r| == |records|
    ensures forall i :: 0 <= i < |r| ==> r[i] == if records[i].id == t then SkipOccurrence(records[i], d) else records[i]
  {
    seq(|records|, i requires 0 <= i < |records| =>
      if records[i].id == t then SkipOccurrence(records[i], d) else records[i])
  }

  /** `map`: end every record whose id is t on the day before d. */
  function EndIn(records: seq<Activity>, t: string, d: Date): (r: seq<Activity>)
    requires CanEnd(records, t)
    ensures |r| == |records|
    ensures forall i :: 0 <= i < |r| ==> r[i] == if records[i].id == t then EndBefore(records[i], d) else records[i]
  {
    seq(|records|, i requires 0 <= i < |records| =>
      if records[i].id == t then EndBefore(records[i], d) else records[i])
  }

  /** `map`: put x in place of every record whose id is t. */
  function ReplaceIn(records: seq<Activity>, t: string, x: Activity): (r: seq<Activity>)
    ensures |r| == |records|
    ensures forall i :: 0 <= i < |r| ==> r[i] == if records[i].id == t then x else records[i]
  {
    seq(|records|, i requires 0 <= i < |records| => if records[i].id == t then x else records[i])
  }

  /** `filter`: the records whose id is not t, in order. */
  function RemoveId(records: seq<Activity>, t: string): (r: seq<Activity>)
    ensures |r| <= |records|
    ensures forall x :: x in r <==> x in records && x.id != t
  {
    if records == [] then []
    else (if records[0].id == t then [] else [records[0]]) + RemoveId(records[1..], t)
  }

  /** A call made to the backend store. */
  datatype StoreCall = SaveCall(record: Activity) | DeleteCall(id: string)

  /** The saves made by a `map` that rewrites the records with id t: one per such record, in order. */
  function SavesOf(records: seq<Activity>, t: string): (r: seq<StoreCall>)
    ensures forall k :: 0 <= k < |r| ==> r[k].SaveCall? && r[k].record in records && r[k].record.id == t
  {
    if records == [] then []
    else (if records[0].id == t then [SaveCall(records[0])] else []) + SavesOf(records[1..], t)
  }

  /** The precondition of a delete: a FUTURE delete in a series needs its template to carry a rule. */
  predicate DeleteAllowed(records: seq<Activity>, act: Activity, mode: UpdateMode)
  {
    !act.isLocked && InSeries(act) && mode == Future ==> CanEnd(records, TargetId(act))
  }

  /** `handleDeleteActivity`: the stored records after deleting `act` with the given scope. */
  function AfterDelete(records: seq<Activity>, act: Activity, mode: UpdateMode): seq<Activity>
    requires DeleteAllowed(records, act, mode)
  {
    if act.isLocked then records
    else if !InSeries(act) then RemoveId(records, act.id)
    else
      match mode
      case All => RemoveId(records, TargetId(act))
      case Single => SkipIn(records, TargetId(act), act.startDate)
      case Future => EndIn(records, TargetId(act), act.startDate)
  }

  /** The backend calls `handleDeleteActivity` makes. */
  function DeleteCalls(records: seq<Activity>, act: Activity, mode: UpdateMode): seq<StoreCall>
    requires DeleteAllowed(records, act, mode)
  {
    if act.isLocked then []
    else if !InSeries(act) then [DeleteCall(act.id)]
    else if mode == All then [DeleteCall(TargetId(act))]
    else SavesOf(AfterDelete(records, act, mode), TargetId(act))
  }

  /** What the form submits: an activity without id, parent, or skip list. */
  datatype Draft = Draft(
    startDate: Date,
    endDate: Date,
    activityName: string,
    board: Board,
    status: Status,
    isLocked: bool,
    recurrence: Option<RecurrenceConfig>)

  /** The stored record made from a draft under the given id. */
  function Record(p: Draft, id: string): Activity
  {
    Activity(id, p.startDate, p.endDate, p.activityName, p.board, p.status, p.isLocked, p.recurrence, None, [])
  }

  /** The edit splits off one occurrence or the tail of its series (SINGLE or FUTURE on an instance). */
  predicate Splits(editing: Option<Activity>, mode: Option<UpdateMode>)
  {
    editing.Some? && editing.value.parentId.Some? && (mode == Some(Single) || mode == Some(Future))
  }

  /** The precondition of a submit: a FUTURE edit of an instance needs its template to carry a rule. */
  predicate SubmitAllowed(records: seq<Activity>, editing: Option<Activity>, mode: Option<UpdateMode>)
  {
    Splits(editing, mode) && mode == Some(Future) ==> CanEnd(records, editing.value.parentId.value)
  }

  /** The record a submit adds to the list, if any. */
  function NewRecord(p: Draft, editing: Option<Activity>, mode: Option<UpdateMode>, freshId: string): Activity
  {
    if Splits(editing, mode) && mode == Some(Single) then Record(p, freshId).(recurrence := None)
    else Record(p, freshId)
  }

  /**
   * `handleSubmitActivity`: the stored records after submitting draft p, editing the given
   * activity (None for a new activity) with the given scope; `freshId` is the generated id.
   */
  function AfterSubmit(records: seq<Activity>, p: Draft, editing: Option<Activity>, mode: Option<UpdateMode>,
                       freshId: string): seq<Activity>
    requires SubmitAllowed(records, editing, mode)
  {
    if editing.None? then records + [Record(p, freshId)]
    else if Splits(editing, mode) && mode == Some(Single) then
      SkipIn(records, editing.value.parentId.value, editing.value.startDate) + [NewRecord(p, editing, mode, freshId)]
    else if Splits(editing, mode) then
      EndIn(records, editing.value.parentId.value, editing.value.startDate) + [NewRecord(p, editing, mode, freshId)]
    else
      var t := TargetId(editing.value);
      ReplaceIn(records, t, Record(p, t))
  }

  /** The backend calls `handleSubmitActivity` makes. */
  function SubmitCalls(records: seq<Activity>, p: Draft, editing: Option<Activity>, mode: Option<UpdateMode>,
                       freshId: string): seq<StoreCall>
    requires SubmitAllowed(records, editing, mode)
  {
    if editing.None? then [SaveCall(Record(p, freshId))]
    else if Splits(editing, mode) then
      var after := AfterSubmit(records, p, editing, mode, freshId);
      SavesOf(after[..|records|], editing.value.parentId.value) + [SaveCall(NewRecord(p, editing, mode, freshId))]
    else [SaveCall(Record(p, TargetId(editing.value)))]
  }

  /** `handleBulkImport`: the drafts are appended, in order, under the generated ids. */
  function AfterImport(records: seq<Activity>, drafts: seq<Draft>, ids: seq<string>): seq<Activity>
    requires |ids| == |drafts|
  {
    records + seq(|drafts|, i requires 0 <= i < |drafts| => Record(drafts[i], ids[i]))
  }

  function ImportCalls(drafts: seq<Draft>, ids: seq<string>): seq<StoreCall>
    requires |ids| == |drafts|
  {
    seq(|drafts|, i requires 0 <= i < |drafts| => SaveCall(Record(drafts[i], ids[i])))
  }

  /** The ids of the records. */
  function Ids(records: seq<Activity>): (r: set<string>)
    ensures forall x :: x in r <==> exists i :: 0 <= i < |records| && records[i].id == x
  {
    set i | 0 <= i < |records| :: records[i].id
  }

  /** No two stored records share an id. */
  predicate UniqueIds(records: seq<Activity>)
  {
    forall i, j :: 0 <= i < j < |records| ==> records[i].id != records[j].id
  }

  /** No stored record is a derived instance. */
  predicate NoInstances(records: seq<Activity>)
  {
    forall i :: 0 <= i < |records| ==> records[i].parentId.None?
  }
}

/** What the mutator promises about the stored records and about re-expanding them. */
module SeriesFacts {
  import opened Wrappers
  import opened Dates
  import opened Types
  import opened Expander
  import opened ExpanderFacts
  import opened Series
  import opened Seqs

  /** Removing an id keeps the other records in order, so it keeps ids unique and instances out. */
  lemma {:induction false} RemoveIdKeeps(records: seq<Activity>, t: string)
    ensures UniqueIds(records) ==> UniqueIds(RemoveId(records, t))
    ensures NoInstances(records) ==> NoInstances(RemoveId(records, t))
  {
    if records != [] {
      RemoveIdKeeps(records[1..], t);
      var rest := RemoveId(records[1..], t);
      if UniqueIds(records) {
        assert UniqueIds(records[1..]);
        forall k | 0 <= k < |rest| ensures rest[k].id != records[0].id {
          assert rest[k] in records[1..];
        }
      }
      if NoInstances(records) {
        assert NoInstances(records[1..]);
      }
    }
  }

  /** When record k is the only one with id t, removing t removes that record and nothing else. */
  lemma {:induction false} RemoveIdExact(records: seq<Activity>, t: string, k: nat)
    requires k < |records| && records[k].id == t
    requires forall i :: 0 <= i < |records| && i != k ==> records[i].id != t
    ensures RemoveId(records, t) == records[..k] + records[k + 1..]
  {
    var tail := records[1..];
    if k == 0 {
      assert forall i :: 0 <= i < |tail| ==> tail[i].id != t by {
        forall i | 0 <= i < |tail| ensures tail[i].id != t {
          assert tail[i] == records[i + 1];
        }
      }
      RemoveIdAbsent(tail, t);
      assert RemoveId(records, t) == RemoveId(tail, t) == tail;
      DropFirst(records);
    } else {
      assert records[0].id != t;
      assert forall i :: 0 <= i < |tail| && i != k - 1 ==> tail[i].id != t by {
        forall i | 0 <= i < |tail| && i != k - 1 ensures tail[i].id != t {
          assert tail[i] == records[i + 1];
        }
      }
      RemoveIdExact(tail, t, k - 1);
      assert RemoveId(records, t) == [records[0]] + RemoveId(tail, t);
      assert RemoveId(tail, t) == tail[..k - 1] + tail[k..];
      DropAtCons(records, k);
    }
  }

  /** Removing an id no record carries changes nothing. */
  lemma {:induction false} RemoveIdAbsent(records: seq<Activity>, t: string)
    requires forall i :: 0 <= i < |records| ==> records[i].id != t
    ensures RemoveId(records, t) == records
  {
    if records != [] {
      RemoveIdAbsent(records[1..], t);
    }
  }

  /** A locked activity cannot be deleted: whatever the scope, the list and the store stay as they are. */
  lemma DeleteLocked(records: seq<Activity>, act: Activity, mode: UpdateMode)
    requires act.isLocked
    ensures DeleteAllowed(records, act, mode)
    ensures AfterDelete(records, act, mode) == records
    ensures DeleteCalls(records, act, mode) == []
  {
  }

  /** The saves of two runs of records are those of the first run followed by those of the second. */
  lemma {:induction false} SavesAppend(a: seq<Activity>, b: seq<Activity>, t: string)
    ensures SavesOf(a + b, t) == SavesOf(a, t) + SavesOf(b, t)
    decreases |a|
  {
    if a == [] {
      assert a + b == b;
    } else {
      ConsAppend(a, b);
      SavesAppend(a[1..], b, t);
      var keep := if a[0].id == t then [SaveCall(a[0])] else [];
      assert SavesOf(a + b, t) == keep + SavesOf(a[1..] + b, t);
      AppendAssoc(keep, SavesOf(a[1..], t), SavesOf(b, t));
    }
  }

  /** A record with id t is saved as often as it occurs, and no other record is saved. */
  lemma {:induction false} SavesCount(records: seq<Activity>, t: string, x: Activity)
    ensures multiset(SavesOf(records, t))[SaveCall(x)] == if x.id == t then multiset(records)[x] else 0
  {
    if records != [] {
      HeadTail(records);
      SavesCount(records[1..], t, x);
    }
  }

  /**
   * A delete of an unlocked activity outside a series, or of a series with scope ALL,
   * removes exactly the record `parentId || id` and leaves every other record as it was.
   */
  lemma DeleteRemovesExactly(records: seq<Activity>, act: Activity, mode: UpdateMode, k: nat)
    requires UniqueIds(records)
    requires !act.isLocked && (!InSeries(act) || mode == All)
    requires k < |records| && records[k].id == TargetId(act)
    ensures AfterDelete(records, act, mode) == records[..k] + records[k + 1..]
  {
    assert forall i :: 0 <= i < |records| && i != k ==> records[i].id != TargetId(act) by {
      forall i | 0 <= i < |records| && i != k ensures records[i].id != records[k].id {
        if i < k { assert records[i].id != records[k].id; } else { assert records[k].id != records[i].id; }
      }
    }
    RemoveIdExact(records, TargetId(act), k);
  }

  /** Deleting the same occurrence twice with scope SINGLE changes nothing the second time. */
  lemma DeleteSingleIdempotent(records: seq<Activity>, act: Activity)
    requires InSeries(act)
    ensures AfterDelete(AfterDelete(records, act, Single), act, Single) == AfterDelete(records, act, Single)
  {
    if !act.isLocked {
      var t, d := TargetId(act), act.startDate;
      var once := SkipIn(records, t, d);
      var twice := SkipIn(once, t, d);
      forall i | 0 <= i < |records| ensures twice[i] == once[i] {
        if records[i].id == t {
          AddSkipTwice(records[i].skippedDates, d);
        }
      }
      assert twice == once;
    }
  }

  /**
   * After a SINGLE delete of the occurrence on day d of the series whose template is
   * record k, re-expanding that template gives the old start dates without d, and every
   * record with another id is unchanged.
   */
  lemma DeleteSingleOmitsDate(c: Calendar, horizon: Date, records: seq<Activity>, act: Activity, k: nat)
    requires ValidCalendar(c)
    requires InSeries(act) && !act.isLocked
    requires k < |records| && records[k].id == TargetId(act) && Repeats(records[k])
    ensures var after := AfterDelete(records, act, Single);
      && |after| == |records|
      && Starts(ExpandOne(c, horizon, after[k])) == Omit(Starts(ExpandOne(c, horizon, records[k])), act.startDate)
      && (forall i :: 0 <= i < |records| && records[i].id != TargetId(act) ==> after[i] == records[i])
  {
    var after := AfterDelete(records, act, Single);
    assert after == SkipIn(records, TargetId(act), act.startDate);
    assert after[k] == SkipOccurrence(records[k], act.startDate);
    ExpandSkipped(c, horizon, records[k], act.startDate);
  }

  /**
   * After a FUTURE delete of the occurrence on day d (which the series did emit, so d is
   * within its limit), re-expanding the template gives exactly the old start dates before d,
   * and every record with another id is unchanged.
   */
  lemma DeleteFutureKeepsEarlier(c: Calendar, horizon: Date, records: seq<Activity>, act: Activity, k: nat)
    requires ValidCalendar(c)
    requires InSeries(act) && !act.isLocked && CanEnd(records, TargetId(act))
    requires k < |records| && records[k].id == TargetId(act) && Repeats(records[k])
    requires act.startDate <= Limit(records[k].recurrence.value, horizon)
    ensures var after := AfterDelete(records, act, Future);
      && |after| == |records|
      && Starts(ExpandOne(c, horizon, after[k])) == Before(Starts(ExpandOne(c, horizon, records[k])), act.startDate)
      && (forall i :: 0 <= i < |records| && records[i].id != TargetId(act) ==> after[i] == records[i])
  {
    var after := AfterDelete(records, act, Future);
    assert after == EndIn(records, TargetId(act), act.startDate);
    assert after[k] == EndBefore(records[k], act.startDate);
    ExpandEnded(c, horizon, records[k], act.startDate);
  }

  /** Skipping day d in a repeating template removes exactly d from its start dates. */
  lemma ExpandSkipped(c: Calendar, horizon: Date, a: Activity, d: Date)
    requires ValidCalendar(c)
    requires Repeats(a)
    ensures Starts(ExpandOne(c, horizon, SkipOccurrence(a, d))) == Omit(Starts(ExpandOne(c, horizon, a)), d)
  {
    var b := SkipOccurrence(a, d);
    var r := a.recurrence.value;
    var lim := Limit(r, horizon);
    assert ExpandOne(c, horizon, a) == Walk(c, a, r, a.startDate, lim);
    assert ExpandOne(c, horizon, b) == Walk(c, b, r, a.startDate, lim);
    WalkWithSkip(c, a, b, r, a.startDate, lim, d);
  }

  /** Ending a repeating template before a day d within its limit keeps exactly its start dates before d. */
  lemma ExpandEnded(c: Calendar, horizon: Date, a: Activity, d: Date)
    requires ValidCalendar(c)
    requires Repeats(a) && d <= Limit(a.recurrence.value, horizon)
    ensures Starts(ExpandOne(c, horizon, EndBefore(a, d))) == Before(Starts(ExpandOne(c, horizon, a)), d)
  {
    var b := EndBefore(a, d);
    var r, s := a.recurrence.value, b.recurrence.value;
    var lim := Limit(r, horizon);
    assert Limit(s, horizon) == d - 1;
    assert ExpandOne(c, horizon, a) == Walk(c, a, r, a.startDate, lim);
    assert ExpandOne(c, horizon, b) == Walk(c, b, s, a.startDate, d - 1);
    WalkTruncated(c, a, b, r, s, a.startDate, lim, d);
  }

  /**
   * A SINGLE edit of an instance on day d skips d in its template k, so re-expanding the
   * template gives the old start dates without d; it changes no record with another id, and
   * appends one detached record: the draft under the fresh id, with no parent and no rule,
   * so it expands to itself alone on the draft's day.
   */
  lemma EditSingleDetaches(c: Calendar, horizon: Date, records: seq<Activity>, p: Draft, e: Activity,
                           freshId: string, k: nat)
    requires ValidCalendar(c)
    requires e.parentId.Some?
    requires k < |records| && records[k].id == e.parentId.value && Repeats(records[k])
    ensures var after := AfterSubmit(records, p, Some(e), Some(Single), freshId);
      && |after| == |records| + 1
      && Starts(ExpandOne(c, horizon, after[k])) == Omit(Starts(ExpandOne(c, horizon, records[k])), e.startDate)
      && (forall i :: 0 <= i < |records| && records[i].id != e.parentId.value ==> after[i] == records[i])
      && after[|records|] == Record(p, freshId).(recurrence := None)
      && ExpandOne(c, horizon, after[|records|]) == [after[|records|]]
  {
    var after := AfterSubmit(records, p, Some(e), Some(Single), freshId);
    assert after[k] == SkipOccurrence(records[k], e.startDate);
    ExpandSkipped(c, horizon, records[k], e.startDate);
  }

  /**
   * A FUTURE edit of an instance on day d (within its series' limit) ends its template k on
   * the day before, so re-expanding the template gives exactly the old start dates before d;
   * it changes no record with another id, and appends a new series: the draft under the
   * fresh id, with no parent and the draft's own rule.
   */
  lemma EditFutureSplits(c: Calendar, horizon: Date, records: seq<Activity>, p: Draft, e: Activity,
                         freshId: string, k: nat)
    requires ValidCalendar(c)
    requires e.parentId.Some? && CanEnd(records, e.parentId.value)
    requires k < |records| && records[k].id == e.parentId.value && Repeats(records[k])
    requires e.startDate <= Limit(records[k].recurrence.value, horizon)
    ensures var after := AfterSubmit(records, p, Some(e), Some(Future), freshId);
      && |after| == |records| + 1
      && Starts(ExpandOne(c, horizon, after[k])) == Before(Starts(ExpandOne(c, horizon, records[k])), e.startDate)
      && (forall i :: 0 <= i < |records| && records[i].id != e.parentId.value ==> after[i] == records[i])
      && after[|records|] == Record(p, freshId)
      && after[|records|].recurrence == p.recurrence && after[|records|].parentId.None?
  {
    var after := AfterSubmit(records, p, Some(e), Some(Future), freshId);
    assert after[k] == EndBefore(records[k], e.startDate);
    ExpandEnded(c, horizon, records[k], e.startDate);
  }

  /**
   * Any other edit (scope ALL, no scope, or an activity outside a series) keeps the number
   * of records and replaces record k, the one with id `parentId || id`, wholesale by the
   * draft under that id: the template's skip list is not kept.
   */
  lemma EditReplaces(records: seq<Activity>, p: Draft, e: Activity, mode: Option<UpdateMode>, freshId: string, k: nat)
    requires !Splits(Some(e), mode)
    requires UniqueIds(records)
    requires k < |records| && records[k].id == TargetId(e)
    ensures var after := AfterSubmit(records, p, Some(e), mode, freshId);
      && |after| == |records|
      && after[k] == Record(p, TargetId(e)) && after[k].skippedDates == []
      && (forall i :: 0 <= i < |records| && i != k ==> after[i] == records[i])
  {
  }

  /** A new activity is appended under the fresh id; the records before it are unchanged. */
  lemma CreateAppends(records: seq<Activity>, p: Draft, mode: Option<UpdateMode>, freshId: string)
    ensures var after := AfterSubmit(records, p, None, mode, freshId);
      && after[..|records|] == records && |after| == |records| + 1
      && after[|records|].id == freshId && after[|records|].recurrence == p.recurrence
  {
  }

  /**
   * A submit keeps the store's invariant: ids stay unique and no derived instance is
   * stored, given that the generated id is not already in use.
   */
  lemma SubmitKeeps(records: seq<Activity>, p: Draft, editing: Option<Activity>, mode: Option<UpdateMode>,
                    freshId: string)
    requires SubmitAllowed(records, editing, mode)
    requires UniqueIds(records) && NoInstances(records) && freshId !in Ids(records)
    ensures UniqueIds(AfterSubmit(records, p, editing, mode, freshId))
    ensures NoInstances(AfterSubmit(records, p, editing, mode, freshId))
  {
    var after := AfterSubmit(records, p, editing, mode, freshId);
    if editing.None? {
      SnocKeeps(records, Record(p, freshId));
    } else if Splits(editing, mode) {
      var front := after[..|records|];
      assert after == front + [NewRecord(p, editing, mode, freshId)];
      SameShapeKeeps(records, front);
      SnocKeeps(front, NewRecord(p, editing, mode, freshId));
    } else {
      SameShapeKeeps(records, after);
    }
  }

  /** A list with the same ids and parents, place by place, keeps the invariant and the id set. */
  lemma SameShapeKeeps(xs: seq<Activity>, ys: seq<Activity>)
    requires |xs| == |ys|
    requires forall i :: 0 <= i < |xs| ==> ys[i].id == xs[i].id && ys[i].parentId == xs[i].parentId
    requires UniqueIds(xs) && NoInstances(xs)
    ensures UniqueIds(ys) && NoInstances(ys) && Ids(ys) == Ids(xs)
  {
    assert forall i, j :: 0 <= i < j < |ys| ==> ys[i].id == xs[i].id && ys[j].id == xs[j].id;
  }

  /** Appending a stored record under an unused id keeps the invariant. */
  lemma SnocKeeps(xs: seq<Activity>, y: Activity)
    requires UniqueIds(xs) && NoInstances(xs) && y.id !in Ids(xs) && y.parentId.None?
    ensures UniqueIds(xs + [y]) && NoInstances(xs + [y])
  {
    var ys := xs + [y];
    forall i, j | 0 <= i < j < |ys| ensures ys[i].id != ys[j].id {
      if j == |xs| {
        assert ys[i].id in Ids(xs);
      }
    }
  }

  /** Appending records under distinct fresh ids keeps ids unique and instances out. */
  lemma ImportKeeps(records: seq<Activity>, drafts: seq<Draft>, ids: seq<string>)
    requires UniqueIds(records) && NoInstances(records)
    requires |ids| == |drafts| && NoRepeatedEntries(ids)
    requires forall i :: 0 <= i < |ids| ==> ids[i] !in Ids(records)
    ensures UniqueIds(AfterImport(records, drafts, ids)) && NoInstances(AfterImport(records, drafts, ids))
  {
    var after := AfterImport(records, drafts, ids);
    forall i, j | 0 <= i < j < |after| ensures after[i].id != after[j].id {
      if j >= |records| {
        assert after[j].id == ids[j - |records|];
        if i < |records| {
          assert records[i].id in Ids(records);
        }
      }
    }
  }

  /** An import appends one record per draft, in draft order, under the generated ids. */
  lemma ImportAppends(records: seq<Activity>, drafts: seq<Draft>, ids: seq<string>)
    requires |ids| == |drafts|
    ensures var after := AfterImport(records, drafts, ids);
      && |after| == |records| + |drafts| && after[..|records|] == records
      && forall i :: 0 <= i < |drafts| ==> after[|records| + i] == Record(drafts[i], ids[i])
  {
  }
}
