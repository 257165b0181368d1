/**
 * The activity form: its fields, the effects that keep them consistent, and the payload
 * it submits.
 */
module EventForm {
  import opened Wrappers
  import opened Dates
  import opened Types
  import opened Text
  import opened Series

  /** A name that begins with the NATIONALS marker `@`. */
  predicate Marked(name: string)
  {
    |name| > 0 && name[0] == '@'
  }

  /** `replace(/^@/, '')`: the name as the form shows it, without one leading marker. */
  function StripMarker(name: string): (r: string)
    ensures Marked(name) ==> name == "@" + r
    ensures !Marked(name) ==> r == name
  {
    if Marked(name) then name[1..] else name
  }

  /** The name as submitted: NATIONALS names gain the marker unless they already carry one. */
  function SubmittedName(name: string, status: Status): (r: string)
    ensures status == Nationals ==> Marked(r)
    ensures r == name || r == "@" + name
    ensures Marked(name) || status != Nationals ==> r == name
  {
    if status == Nationals && !Marked(name) then "@" + name else name
  }

  /**
   * Loading a submitted NATIONALS name gives back the typed name, and saving a loaded
   * name gives back the stored one when it carries exactly one leading marker
   * (a stored `@@x` is shown as `@x` and saved as `@x`).
   */
  lemma MarkerRoundTrip(name: string)
    ensures !Marked(name) ==> StripMarker(SubmittedName(name, Nationals)) == name
    ensures Marked(name) && !Marked(name[1..]) ==> SubmittedName(StripMarker(name), Nationals) == name
    ensures Marked(name) && Marked(name[1..]) ==> SubmittedName(StripMarker(name), Nationals) == name[1..]
  {
    if !Marked(name) {
      assert ("@" + name)[1..] == name;
    }
  }

  /** `toggleDay`'s update: drop the day if present (every copy), otherwise append it. */
  function Toggle(days: seq<int>, day: int): (r: seq<int>)
    ensures forall x :: x in r <==> (x in days) != (x == day)
  {
    if day in days then Without(days, day) else days + [day]
  }

  /** `filter(d => d !== day)`. */
  function Without(days: seq<int>, day: int): (r: seq<int>)
    ensures forall x :: x in r <==> x in days && x != day
    ensures day !in days ==> r == days
  {
    if days == [] then []
    else (if days[0] == day then [] else [days[0]]) + Without(days[1..], day)
  }

  /** Toggling a day twice restores the set of days, and the very list when the day was absent. */
  lemma ToggleTwice(days: seq<int>, day: int)
    ensures forall x :: x in Toggle(Toggle(days, day), day) <==> x in days
    ensures day !in days ==> Toggle(Toggle(days, day), day) == days
  {
    if day !in days {
      var once := days + [day];
      assert Without(once, day) == days by {
        WithoutAppend(days, day);
      }
    }
  }

  lemma {:induction false} WithoutAppend(days: seq<int>, day: int)
    requires day !in days
    ensures Without(days + [day], day) == days
  {
    if days != [] {
      WithoutAppend(days[1..], day);
      assert (days + [day])[1..] == days[1..] + [day];
    } else {
      assert [day][1..] == [];
    }
  }

  /** The values a submit reads from the form. */
  datatype FormValues = FormValues(
    startDate: Date,
    endDate: Date,
    activityName: string,
    board: Board,
    status: Status,
    isRecurring: bool,
    frequency: Frequency,
    interval: int,
    daysOfWeek: seq<int>,
    endRecurrence: Option<Date>,
    updateMode: UpdateMode)

  /** What `onSubmit` receives: the payload, the id of the edited activity, and the scope if any. */
  datatype Submission = Submission(payload: Draft, id: Option<string>, mode: Option<UpdateMode>)

  /** The activity being edited is a series member (`isRecurringInstance`). */
  predicate RecurringInstance(initial: Option<Activity>)
  {
    initial.Some? && InSeries(initial.value)
  }

  /** `handleSubmit`: None when the name is blank, otherwise the submission. */
  function BuildSubmission(v: FormValues, initial: Option<Activity>): (r: Option<Submission>)
    ensures r.None? <==> Blank(v.activityName)
    ensures r.Some? ==>
      var p := r.value.payload;
      && p.activityName == SubmittedName(v.activityName, v.status)
      && (v.status == Nationals ==> Marked(p.activityName))
      && p.startDate == v.startDate && p.endDate == v.endDate && p.board == v.board && p.status == v.status
      && (p.isLocked <==> v.board == Secretariat)
      && (p.recurrence.Some? <==> v.isRecurring)
      && (p.recurrence.Some? ==> && p.recurrence.value.frequency == v.frequency
                                 && p.recurrence.value.interval == v.interval
                                 && p.recurrence.value.endRecurrence == v.endRecurrence
                                 && (p.recurrence.value.daysOfWeek.Some? <==> v.frequency == Weekly)
                                 && (v.frequency == Weekly ==> p.recurrence.value.daysOfWeek == Some(v.daysOfWeek)))
      && (r.value.id.Some? <==> initial.Some?)
      && (initial.Some? ==> r.value.id == Some(initial.value.id))
      && (r.value.mode.Some? <==> RecurringInstance(initial))
      && (r.value.mode.Some? ==> r.value.mode == Some(v.updateMode))
  {
    if Blank(v.activityName) then None
    else
      var recurrence :=
        if v.isRecurring then
          Some(RecurrenceConfig(v.frequency, v.interval,
                                if v.frequency == Weekly then Some(v.daysOfWeek) else None,
                                v.endRecurrence))
        else None;
      var payload := Draft(v.startDate, v.endDate, SubmittedName(v.activityName, v.status), v.board, v.status,
                           v.board == Secretariat, recurrence);
      if initial.Some? then
        Some(Submission(payload, Some(initial.value.id), if RecurringInstance(initial) then Some(v.updateMode) else None))
      else Some(Submission(payload, None, None))
  }

  /** The form's state; `initial` is the activity being edited, if any. */
  class Form {
    var startDate: Date
    var endDate: Date
    var activityName: string
    var board: Board
    var status: Status
    var nameError: bool
    var isRecurring: bool
    var frequency: Frequency
    var interval: int
    var daysOfWeek: seq<int>
    var endRecurrence: Option<Date>
    var updateMode: UpdateMode
    var initial: Option<Activity>

    /** The values a submit reads. */
    function Values(): FormValues
      reads this
    {
      FormValues(startDate, endDate, activityName, board, status, isRecurring, frequency, interval,
                 daysOfWeek, endRecurrence, updateMode)
    }

    /** Existing SECRETARIAT entries are read-only (`isLocked`). */
    predicate Locked()
      reads this
    {
      initial.Some? && initial.value.isLocked
    }

    /** The fields hold the values of a new form on the given day. */
    predicate NewForm(today: Date)
      reads this
    {
      && startDate == today && endDate == today && activityName == "" && board == Raphatoria && status == House
      && !isRecurring && frequency == Weekly && interval == 1 && daysOfWeek == [] && endRecurrence == None
      && updateMode == All
    }

    /** A new, blank form on the given day. */
    constructor (today: Date)
      ensures initial.None? && !nameError
      ensures NewForm(today)
    {
      startDate, endDate := today, today;
      activityName := "";
      board, status := Raphatoria, House;
      nameError := false;
      isRecurring := false;
      frequency, interval := Weekly, 1;
      daysOfWeek := [];
      endRecurrence := None;
      updateMode := All;
      initial := None;
    }

    /** `resetForm`: back to the blank form on the given day. */
    method Reset(today: Date)
      modifies this
      ensures initial == old(initial) && !nameError
      ensures NewForm(today)
    {
      startDate, endDate, activityName, board, status, isRecurring, frequency, interval, daysOfWeek, endRecurrence,
        updateMode, nameError := today, today, "", Raphatoria, House, false, Weekly, 1, [], None, All, false;
    }

    /**
     * The effect on a new `initialActivity`: an activity fills the fields (the name without
     * its marker, the rule if it has one) and picks the default scope, SINGLE for an
     * instance and ALL otherwise; no activity resets the form.
     */
    method Load(a: Option<Activity>, today: Date)
      modifies this
      ensures initial == a
      ensures a.None? ==> !nameError && NewForm(today)
      ensures a.Some? ==>
        && startDate == a.value.startDate && endDate == a.value.endDate
        && activityName == StripMarker(a.value.activityName)
        && board == a.value.board && status == a.value.status
        && isRecurring == a.value.recurrence.Some?
        && (a.value.recurrence.Some? ==>
              var r := a.value.recurrence.value;
              && frequency == r.frequency && interval == r.interval && endRecurrence == r.endRecurrence
              && daysOfWeek == (if r.daysOfWeek.Some? then r.daysOfWeek.value else []))
        && (a.value.recurrence.None? ==> frequency == old(frequency) && interval == old(interval)
                                         && daysOfWeek == old(daysOfWeek) && endRecurrence == old(endRecurrence))
        && updateMode == (if a.value.parentId.Some? then Single else All)
        && nameError == old(nameError)
    {
      initial := a;
      if a.Some? {
        var act := a.value;
        startDate, endDate := act.startDate, act.endDate;
        activityName := StripMarker(act.activityName);
        board, status := act.board, act.status;
        if act.recurrence.Some? {
          var r := act.recurrence.value;
          isRecurring := true;
          frequency, interval := r.frequency, r.interval;
          daysOfWeek := if r.daysOfWeek.Some? then r.daysOfWeek.value else [];
          endRecurrence := r.endRecurrence;
        } else {
          isRecurring := false;
        }
        updateMode := if act.parentId.Some? then Single else All;
      } else {
        Reset(today);
      }
    }

    /** The effect on a board change: SECRETARIAT forces STATUTORY. */
    method SyncSecretariat()
      modifies this
      ensures board == Secretariat ==> status == Statutory
      ensures board != Secretariat ==> status == old(status)
      ensures board == old(board) && startDate == old(startDate) && endDate == old(endDate)
      ensures activityName == old(activityName) && daysOfWeek == old(daysOfWeek)
    {
      if board == Secretariat {
        status := Statutory;
      }
    }

    /** The effect on a date change: an end before the start is moved to the start. */
    method ClampEndDate()
      modifies this
      ensures endDate >= startDate && startDate == old(startDate)
      ensures old(endDate) >= startDate ==> endDate == old(endDate)
      ensures old(endDate) < startDate ==> endDate == startDate
      ensures Values() == old(Values()).(endDate := endDate)
    {
      if endDate < startDate {
        endDate := startDate;
      }
    }

    /** `toggleDay`: flips one weekday, unless the entry is locked. */
    method ToggleDay(day: int)
      modifies this
      ensures Locked() ==> daysOfWeek == old(daysOfWeek)
      ensures !Locked() ==> forall x :: x in daysOfWeek <==> (x in old(daysOfWeek)) != (x == day)
      ensures Values() == old(Values()).(daysOfWeek := daysOfWeek) && initial == old(initial)
    {
      if initial.Some? && initial.value.isLocked {
        return;
      }
      daysOfWeek := Toggle(daysOfWeek, day);
    }

    /**
     * `handleSubmit`: a blank name raises the error and submits nothing; otherwise the
     * submission is built from the fields, and a new-activity form is reset afterwards.
     */
    method Submit(today: Date) returns (sub: Option<Submission>)
      modifies this
      ensures sub == BuildSubmission(old(Values()), old(initial))
      ensures initial == old(initial)
      ensures sub.None? ==> nameError && Values() == old(Values())
      ensures sub.Some? && initial.Some? ==> Values() == old(Values()) && nameError == old(nameError)
      ensures sub.Some? && initial.None? ==>
        !nameError && NewForm(today)
    {
      if Blank(activityName) {
        nameError := true;
        return None;
      }
      var finalName := activityName;
      if status == Nationals && !Marked(activityName) {
        finalName := "@" + activityName;
      }
      var recurrence: Option<RecurrenceConfig> := None;
      if isRecurring {
        recurrence := Some(RecurrenceConfig(frequency, interval, if frequency == Weekly then Some(daysOfWeek) else None,
                                            endRecurrence));
      }
      var payload := Draft(startDate, endDate, finalName, board, status, board == Secretariat, recurrence);
      if initial.Some? {
        var recurringInstance := initial.value.parentId.Some?
          || (initial.value.recurrence.Some? && initial.value.recurrence.value.frequency != NoRepeat);
        sub := Some(Submission(payload, Some(initial.value.id), if recurringInstance then Some(updateMode) else None));
      } else {
        sub := Some(Submission(payload, None, None));
        Reset(today);
      }
    }
  }
}
