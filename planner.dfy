/**
 * The planner's state as `App` holds it: the stored records, updated in place by the
 * handlers, and the calls those handlers make to the backend store.
 */
module App {
  import opened Wrappers
  import opened Dates
  import opened Types
  import opened Series
  import opened SeriesFacts

  class Planner {
    /** The stored records (templates and one-off activities), in list order. */
    var activities: seq<Activity>
    /** Every call made to the backend store so far, oldest first. */
    ghost var sent: seq<StoreCall>

    /** Stored records have distinct ids and none of them is a derived instance. */
    ghost predicate Valid()
      reads this
    {
      UniqueIds(activities) && NoInstances(activities)
    }

    constructor ()
      ensures Valid() && activities == [] && sent == []
    {
      activities := [];
      sent := [];
    }

    /** The backend's answer to the initial fetch replaces the list. */
    method Load(data: seq<Activity>)
      requires UniqueIds(data) && NoInstances(data)
      modifies this
      ensures Valid() && activities == data && sent == old(sent)
    {
      activities := data;
    }

    /** `handleDeleteActivity`. */
    method Delete(act: Activity, mode: UpdateMode)
      requires Valid() && DeleteAllowed(activities, act, mode)
      modifies this
      ensures Valid()
      ensures activities == AfterDelete(old(activities), act, mode)
      ensures sent == old(sent) + DeleteCalls(old(activities), act, mode)
    {
      if act.isLocked {
        return;
      }
      if !InSeries(act) {
        sent := sent + [DeleteCall(act.id)];
        RemoveIdKeeps(activities, act.id);
        activities := RemoveId(activities, act.id);
      } else {
        var targetId := if act.parentId.Some? then act.parentId.value else act.id;
        if mode == All {
          sent := sent + [DeleteCall(targetId)];
          RemoveIdKeeps(activities, targetId);
          activities := RemoveId(activities, targetId);
        } else if mode == Single {
          var updated := SkipIn(activities, targetId, act.startDate);
          sent := sent + SavesOf(updated, targetId);
          activities := updated;
        } else {
          var updated := EndIn(activities, targetId, act.startDate);
          sent := sent + SavesOf(updated, targetId);
          activities := updated;
        }
      }
    }

    /**
     * `handleSubmitActivity` with the form's draft, the activity being edited (None for a
     * new one) and the chosen scope; `freshId` is the id the handler generates.
     */
    method Submit(p: Draft, editing: Option<Activity>, mode: Option<UpdateMode>, freshId: string)
      requires Valid() && SubmitAllowed(activities, editing, mode)
      requires freshId !in Ids(activities)
      modifies this
      ensures Valid()
      ensures activities == AfterSubmit(old(activities), p, editing, mode, freshId)
      ensures sent == old(sent) + SubmitCalls(old(activities), p, editing, mode, freshId)
    {
      var old0 := activities;
      SubmitKeeps(old0, p, editing, mode, freshId);
      if editing.Some? {
        var e := editing.value;
        if mode == Some(Single) && e.parentId.Some? {
          var updated := SkipIn(activities, e.parentId.value, e.startDate);
          var standalone := Record(p, freshId).(recurrence := None);
          sent := sent + SavesOf(updated, e.parentId.value) + [SaveCall(standalone)];
          activities := updated + [standalone];
          assert activities[..|old0|] == updated;
        } else if mode == Some(Future) && e.parentId.Some? {
          var updated := EndIn(activities, e.parentId.value, e.startDate);
          var series := Record(p, freshId);
          sent := sent + SavesOf(updated, e.parentId.value) + [SaveCall(series)];
          activities := updated + [series];
          assert activities[..|old0|] == updated;
        } else {
          var targetId := if e.parentId.Some? then e.parentId.value else e.id;
          var final := Record(p, targetId);
          sent := sent + [SaveCall(final)];
          activities := ReplaceIn(activities, targetId, final);
        }
      } else {
        var withId := Record(p, freshId);
        sent := sent + [SaveCall(withId)];
        activities := activities + [withId];
      }
    }

    /** `handleBulkImport` with the parsed drafts and the ids generated for them. */
    method BulkImport(drafts: seq<Draft>, ids: seq<string>)
      requires Valid()
      requires |ids| == |drafts| && NoRepeatedEntries(ids)
      requires forall i :: 0 <= i < |ids| ==> ids[i] !in Ids(activities)
      modifies this
      ensures Valid()
      ensures activities == AfterImport(old(activities), drafts, ids)
      ensures sent == old(sent) + ImportCalls(drafts, ids)
    {
      var added: seq<Activity> := [];
      var i := 0;
      while i < |drafts|
        invariant 0 <= i <= |drafts|
        invariant activities == old(activities)
        invariant |added| == i
        invariant forall k :: 0 <= k < i ==> added[k] == Record(drafts[k], ids[k])
        invariant sent == old(sent) + ImportCalls(drafts[..i], ids[..i])
      {
        var act := Record(drafts[i], ids[i]);
        sent := sent + [SaveCall(act)];
        added := added + [act];
        i := i + 1;
      }
      ImportKeeps(activities, drafts, ids);
      assert added == AfterImport(activities, drafts, ids)[|activities|..];
      activities := activities + added;
    }
  }
}
