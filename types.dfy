/** The planner's record types: boards, statuses, recurrence rules and activities. */
module Types {
  import opened Wrappers
  import opened Dates

  /** The departments an activity belongs to. */
  datatype Board =
    | Raphatoria | RaphaLifeline | WholenessMissions | Excel | RaphaChoir
    | RaphaTheater | BrothersSistersWelfare | Financial | Secretariat

  /** The text value each board carries when stored or imported. */
  function BoardName(b: Board): string
  {
    match b
    case Raphatoria => "RAPHATORIA"
    case RaphaLifeline => "RAPHA-LIFELINE"
    case WholenessMissions => "WHOLENESS MISSIONS"
    case Excel => "EXCEL"
    case RaphaChoir => "RAPHA CHOIR"
    case RaphaTheater => "RAPHA THEATER"
    case BrothersSistersWelfare => "BROTHERS/SISTERS/WELFARE"
    case Financial => "FINANCIAL"
    case Secretariat => "SECRETARIAT"
  }

  /** The board whose text value is s, if any (membership in the board enumeration). */
  function ParseBoard(s: string): (r: Option<Board>)
    ensures r.Some? ==> BoardName(r.value) == s
    ensures r.None? ==> forall b :: BoardName(b) != s
  {
    if s == "RAPHATORIA" then Some(Raphatoria)
    else if s == "RAPHA-LIFELINE" then Some(RaphaLifeline)
    else if s == "WHOLENESS MISSIONS" then Some(WholenessMissions)
    else if s == "EXCEL" then Some(Excel)
    else if s == "RAPHA CHOIR" then Some(RaphaChoir)
    else if s == "RAPHA THEATER" then Some(RaphaTheater)
    else if s == "BROTHERS/SISTERS/WELFARE" then Some(BrothersSistersWelfare)
    else if s == "FINANCIAL" then Some(Financial)
    else if s == "SECRETARIAT" then Some(Secretariat)
    else None
  }

  /** Board names are distinct, so parsing a board's name gives that board back. */
  lemma ParseBoardName(b: Board)
    ensures ParseBoard(BoardName(b)) == Some(b)
  {
  }

  /** The kinds of activity. */
  datatype Status = Nationals | House | Statutory

  function StatusName(s: Status): string
  {
    match s
    case Nationals => "NATIONALS"
    case House => "HOUSE"
    case Statutory => "STATUTORY"
  }

  /** The status whose text value is s, if any (membership in the status enumeration). */
  function ParseStatus(s: string): (r: Option<Status>)
    ensures r.Some? ==> StatusName(r.value) == s
    ensures r.None? ==> forall t :: StatusName(t) != s
  {
    if s == "NATIONALS" then Some(Nationals)
    else if s == "HOUSE" then Some(House)
    else if s == "STATUTORY" then Some(Statutory)
    else None
  }

  lemma ParseStatusName(t: Status)
    ensures ParseStatus(StatusName(t)) == Some(t)
  {
  }

  /** How often a series repeats; `NoRepeat` is the frequency 'NONE'. */
  datatype Frequency = NoRepeat | Daily | Weekly | Monthly

  /** Which part of a series an edit or a delete applies to. */
  datatype UpdateMode = Single | Future | All

  /**
   * A recurrence rule. `daysOfWeek` holds weekday numbers (0 = Sunday); `endRecurrence`
   * is the last day the series may start on.
   */
  datatype RecurrenceConfig = RecurrenceConfig(
    frequency: Frequency,
    interval: int,
    daysOfWeek: Option<seq<int>>,
    endRecurrence: Option<Date>)

  /**
   * An activity: a stored record (one-off, template of a series, or detached record) or an
   * instance the expander derives from a template (`parentId` set). An absent `isLocked`
   * is `false` and an absent `skippedDates` is the empty list.
   */
  datatype Activity = Activity(
    id: string,
    startDate: Date,
    endDate: Date,
    activityName: string,
    board: Board,
    status: Status,
    isLocked: bool,
    recurrence: Option<RecurrenceConfig>,
    parentId: Option<string>,
    skippedDates: seq<string>)

  /** The activity carries a rule that actually repeats (not absent, not 'NONE'). */
  predicate Repeats(a: Activity)
  {
    a.recurrence.Some? && a.recurrence.value.frequency != NoRepeat
  }

  /**
   * The activity belongs to a series: it is a derived instance or a repeating template
   * (the `isRecurringInstance` test of the form, the planner and the delete dialog).
   */
  predicate InSeries(a: Activity)
  {
    a.parentId.Some? || Repeats(a)
  }
}
