# CUYP activity planner — a verified model of its core

The planner keeps a list of stored activities: one-off events and recurring series
templates. It expands the templates into dated instances for display. It edits or
deletes single instances, the rest of a series, or a whole series. It imports
activities in bulk from CSV. It builds activities from a form, lists them by month,
and selects the activities of a month for a report.

This project models those parts:

- `Dates` (dates.dfy): civil dates as day numbers (day 0 is 1970-01-01). A `Calendar`
  value gives the month structure. `StartOfMonth`, `EndOfMonth` and `AddMonths`
  follow date-fns. `Render` stands for the `yyyy-MM-dd`/`yyyyMMdd` formatting and is
  proved injective.
- `Types` (types.dfy): boards, statuses, frequencies, update scopes, recurrence rules
  and activities. It also holds the parsers that check a text against the enums.
- `Expander`, `ExpanderFacts`, `ActivityFilter` (expander.dfy): the `expandedActivities`
  walk, written as a method with loops and proved equal to a recursive specification.
  It comes with the facts about what the walk emits, and the board/status filter.
- `Series`, `SeriesFacts` (series.dfy): the list transitions of `handleDeleteActivity`,
  `handleSubmitActivity` and `handleBulkImport`. Each is given as a function of the old
  list, along with the backend calls it makes. The lemmas cover what each scope does
  to the list and to the templates' re-expansion.
- `App.Planner` (planner.dfy): the `activities` state as a class. Its handler methods
  update the list in place. A ghost log records the calls made to the backend store.
- `Text`, `BulkImport` (text.dfy, bulk_import.dfy): the string operations `parseCSV`
  uses, and `parseCSV` itself. The row filling is a loop. The abort on the first bad
  row and the downloadable template are included. The template is proved to parse to
  its sample row.
- `EventForm` (event_form.dfy): the activity form as a class of form fields, with its
  effects (`resetForm`, loading an activity, the SECRETARIAT status rule, the end-date
  clamp, `toggleDay`). The payload `handleSubmit` builds is a pure function.
- `PlannerView` (planner_view.dfy): the stable sort by start date and the grouping into
  month sections.
- `Report` (report.dfy): the month-overlap filter of the report service and its two
  month ranges.

The clock, the id generator and the backend are parameters. The expansion horizon and
"today" are passed in. Fresh ids are arguments that must not be among the current ids.
The backend is a ghost log of `SaveCall`/`DeleteCall` entries.

The walk of a template stops at the series end when one is set and at the horizon
otherwise (App.tsx:78); it does not take the earlier of the two. `Expander.Limit` follows this.

## Model

| member | source | states |
|---|---|---|
| Dates.Weekday | App.tsx:87 | the weekday is in 0..6 and day 0 (1970-01-01) is a Thursday |
| Dates.WeekdayNext | App.tsx:87 | the weekday advances by one per day, wraps after Saturday, and repeats every 7 days |
| Dates.RenderInjective | App.tsx:82-83 | two dates render to the same text only when they are the same date, so a skip entry matches exactly one day |
| Dates.MonthOfMonotone | components/PlannerView.tsx:21 | a later day never falls in an earlier month |
| Dates.MonthOfOrder | App.tsx:114 | a day in an earlier month is an earlier day, so stepping back whole months moves back in time |
| Dates.StartOfMonth | services/geminiService.ts:9 | the result is no later than the date and lies in the same month |
| Dates.EndOfMonth | services/geminiService.ts:10 | the result is no earlier than the date, lies in the same month, and the next day lies in the next month |
| Dates.AddMonths | services/geminiService.ts:11-12 | the result lies n months later, on the same day of the month or on the last day of a shorter month, and is strictly later for n >= 1 |
| Types.ParseBoard | components/BulkImportModal.tsx:78-80 | a text is accepted exactly when it is one of the nine board names, and then as that board |
| Types.ParseBoardName | types.ts:2-12 | every board's name parses back to that board |
| Types.ParseStatus | components/BulkImportModal.tsx:81-83 | a text is accepted exactly when it is one of the three status names, and then as that status |
| Types.ParseStatusName | types.ts:26-30 | every status's name parses back to that status |
| Expander.StepCountAgrees | App.tsx:108 | for every interval that is not negative, the step equals the code's default-to-1 interval |
| Expander.NextStart | App.tsx:108-117 | the next candidate is strictly later: DAILY adds the step, WEEKLY adds one day when days are listed and otherwise step weeks, MONTHLY moves step months |
| Expander.NegativeIntervalNeverEnds | App.tsx:81-115 | with the code's step, a negative DAILY, plain WEEKLY or MONTHLY interval never moves the candidate past its start, so the loop condition never fails |
| Expander.SourceStepBack | App.tsx:108-115 | with a negative interval one step of the code's walk moves the candidate strictly back: days, weeks or whole months |
| Expander.ExpandActivities | App.tsx:65-121 | the loop over the stored list produces exactly the specified expansion |
| Expander.ExpandedSnoc | App.tsx:69-73 | expanding a list with one more stored record appends exactly that record's expansion after the expansion of the rest |
| Expander.WalkSeries | App.tsx:75-118 | the `while` walk of one template produces exactly the specified instance list |
| Expander.Decide | App.tsx:82-105 | the candidate day is emitted exactly when its date is not among the skipped dates and, for a WEEKLY rule listing days, its weekday is listed |
| Expander.WalkAdvance | App.tsx:81-117 | one pass of the `while` body keeps the loop invariant: the instances pushed so far followed by the walk from the next candidate are the instances pushed before followed by the walk from this candidate |
| Expander.Starts | App.tsx:92 | the start dates of a list, one per element and in order |
| ExpanderFacts.ExpandedAppend | App.tsx:69-119 | expanding a concatenation expands each part and keeps their order, so templates keep input order |
| ExpanderFacts.ExpandedSlot | App.tsx:69-73 | each stored record contributes its own expansion in its own place, and a non-repeating record contributes itself unchanged |
| ExpanderFacts.WalkFacts | App.tsx:78-117 | every emitted start lies between the walk's start and the limit, inclusive, passes the emit test, and starts rise strictly |
| ExpanderFacts.WalkMembers | App.tsx:81-117 | every instance of a walk from `cur` starts within [cur, limit] and on a day the emit test accepts, and is the instance of the template for that day |
| ExpanderFacts.WalkAscending | App.tsx:107-117 | the start dates of a walk rise strictly, because each candidate is later than the one before |
| ExpanderFacts.CandidateDaily | App.tsx:108-110 | the k-th candidate of a DAILY walk lies k intervals after its start |
| ExpanderFacts.CandidateWeekly | App.tsx:111-112 | the k-th candidate of a WEEKLY walk without days lies k intervals of weeks after its start |
| ExpanderFacts.CandidateByWeekday | App.tsx:111-112 | the k-th candidate of a WEEKLY walk with days is the k-th day after its start |
| ExpanderFacts.WalkComplete | App.tsx:81-117 | every candidate the loop reaches that lies within the limit and passes the emit test has its instance in the walk: the walk misses no day it should emit |
| ExpanderFacts.DailyWalkComplete | App.tsx:81-110 | for a DAILY rule, every day a whole number of intervals after the start, within the limit and not skipped, has its instance |
| ExpanderFacts.WeeklyWalkComplete | App.tsx:81-112 | for a WEEKLY rule without days, every day a whole number of week intervals after the start, within the limit and not skipped, has its instance |
| ExpanderFacts.WeekdayWalkComplete | App.tsx:81-112 | for a WEEKLY rule with days, every day from the start to the limit that is not skipped and falls on a listed weekday has its instance; with WalkMembers this is an exact description |
| ExpanderFacts.InstanceFacts | App.tsx:77-105 | every instance starts within [start, limit], is not skipped, keeps a listed weekday, has id `<id>-<date>`, parent the template, the template's duration and its other fields; starts and ids are distinct |
| ExpanderFacts.StartsAppend | App.tsx:92 | the start dates of a concatenation are the start dates of each part |
| ExpanderFacts.WalkWithSkip | App.tsx:79-85 | adding one skip date removes exactly that date from the walk's start dates |
| ExpanderFacts.BeforeNone | App.tsx:81 | no start date before d survives from a list that starts no earlier than d |
| ExpanderFacts.WalkTruncated | App.tsx:78-81 | ending the rule the day before d keeps exactly the walk's start dates before d |
| ActivityFilter.Visible | App.tsx:264-270 | an instance is shown exactly when it matches both the board and the status filter, and with both filters at ALL every instance is shown |
| ActivityFilter.VisibleAppend | App.tsx:264-270 | filtering a concatenation filters each part and keeps their order, so the shown instances keep the expansion's order |
| ActivityFilter.VisibleCounts | App.tsx:264-270 | a matching instance is shown as often as it occurs, and any other instance never |
| Series.Dedup | App.tsx:137 | the `new Set` step keeps each entry once and loses none |
| Series.DedupKeeps | App.tsx:137 | a list without repeats is left as it is |
| Series.AddSkip | App.tsx:212-213 | the skip list becomes the union with the instance's date, without repeats |
| Series.AddSkipTwice | App.tsx:209-218 | adding the same skip date twice gives the same list as adding it once |
| Series.RemoveId | App.tsx:202 | exactly the records with the other ids remain |
| Series.SavesOf | App.tsx:214 | every call is a save of a record of the list that has the target id |
| SeriesFacts.SavesCount | App.tsx:214 | each record with the target id is saved as often as it occurs in the list, and no other record is saved |
| SeriesFacts.SavesAppend | App.tsx:214 | the saves of two runs of records are those of the first followed by those of the second, so they come in list order |
| SeriesFacts.RemoveIdKeeps | App.tsx:202 | removing records keeps ids distinct and keeps the list free of instances |
| SeriesFacts.RemoveIdExact | App.tsx:202 | when exactly one record, at position k, has the id, removal gives the list without position k, the rest in order |
| SeriesFacts.RemoveIdAbsent | App.tsx:202 | removing an id that is not present leaves the list as it is |
| SeriesFacts.DeleteRemovesExactly | App.tsx:200-208 | an unlocked one-off delete or ALL delete removes exactly the record of the parent id, or the own id when there is no parent |
| SeriesFacts.DeleteLocked | App.tsx:197 | deleting a locked activity, with any scope, leaves the list unchanged and calls the store not at all |
| SeriesFacts.DeleteSingleIdempotent | App.tsx:209-218 | deleting the same instance twice with SINGLE equals deleting it once |
| SeriesFacts.DeleteSingleOmitsDate | App.tsx:209-218 | after a SINGLE delete the template re-expands to its old start dates minus exactly the deleted one, and no other record changes |
| SeriesFacts.DeleteFutureKeepsEarlier | App.tsx:219-229 | after a FUTURE delete the template re-expands to exactly its old start dates before the instance, and no other record changes |
| SeriesFacts.ExpandSkipped | App.tsx:209-218 | a template with one more skip date re-expands to its old start dates minus exactly that date |
| SeriesFacts.ExpandEnded | App.tsx:219-229 | a template whose rule now ends the day before d (with d no later than its limit) re-expands to exactly its old start dates before d |
| SeriesFacts.EditSingleDetaches | App.tsx:129-151 | a SINGLE edit drops the instance's date from the template, changes no other record, and appends one one-off record under the fresh id that expands to itself |
| SeriesFacts.EditFutureSplits | App.tsx:153-174 | a FUTURE edit cuts the template before the instance, changes no other record, and appends one new series under the fresh id with the form's rule and no parent |
| SeriesFacts.EditReplaces | App.tsx:176-181 | an ALL or plain edit keeps the count and replaces the record of the parent id, or the own id when there is no parent with the payload under that id, dropping its skip dates; no other record changes |
| SeriesFacts.SubmitKeeps | App.tsx:123-194 | every submit the handler allows, with a fresh id, keeps the ids distinct and the stored list free of instances |
| SeriesFacts.CreateAppends | App.tsx:185-192 | a new activity is appended under the fresh id and the earlier records stay in place |
| SeriesFacts.ImportKeeps | App.tsx:236-243 | an import with distinct fresh ids keeps ids distinct and the list free of instances |
| SeriesFacts.ImportAppends | App.tsx:236-243 | an import appends one record per draft, in order, under its id, after the unchanged old list |
| App.Planner.constructor | App.tsx:23 | the planner starts with no records and no backend calls |
| App.Planner.Load | App.tsx:44-59 | the fetched list replaces the records and the invariant holds |
| App.Planner.Delete | App.tsx:196-234 | the records become the specified post-delete list, the matching delete or save calls are logged, and the invariant is kept |
| App.Planner.Submit | App.tsx:123-194 | the records become the specified post-submit list, the matching save calls are logged, and the invariant is kept |
| App.Planner.BulkImport | App.tsx:236-243 | the loop appends one record per draft and logs one save per record, keeping the invariant |
| Text.Split | components/BulkImportModal.tsx:53 | splitting gives at least one piece and no piece holds the separator |
| Text.JoinSplit | components/BulkImportModal.tsx:22 | joining the pieces of a split with the separator gives back the text |
| Text.SplitJoin | components/BulkImportModal.tsx:22 | splitting a join of separator-free pieces gives back the pieces |
| Text.SplitCount | components/BulkImportModal.tsx:50 | a split has one more piece than the text has separators |
| Text.SplitLines | components/BulkImportModal.tsx:50 | splitting on `\r?\n` gives one more line than the text has line feeds; no line holds a line feed; every line but the last is the text between line feeds with one carriage return before the line feed dropped, and the last is kept as it is |
| Text.SplitLinesCRLF | components/BulkImportModal.tsx:50 | a text written with CRLF line ends reads back as exactly the lines it was written from |
| Text.SplitLinesLF | components/BulkImportModal.tsx:50 | a text written with LF line ends reads back as exactly its lines, when no line but the last ends in a carriage return |
| Text.Trim | components/BulkImportModal.tsx:57 | the result is the text minus its leading and trailing white space, and neither end of it is white space |
| Text.TrimBlank | components/BulkImportModal.tsx:54 | trimming gives the empty text exactly when the text is all white space |
| Text.TrimClean | components/BulkImportModal.tsx:57 | a text without white space at either end is left as it is |
| Text.ToLowerLower | components/BulkImportModal.tsx:53 | lower-casing leaves no ASCII capital, so lower-casing again changes nothing |
| BulkImport.Field | components/BulkImportModal.tsx:60-67 | a field is unset when no header contains its key; otherwise it takes the value under the last header containing the key |
| BulkImport.FillRow | components/BulkImportModal.tsx:58-67 | the loop over the headers fills the entry exactly as the specified field choice does |
| BulkImport.Check | components/BulkImportModal.tsx:74-89 | a missing field fails with its row number; a row is accepted exactly when all fields are present and board and status are valid; an accepted SECRETARIAT row is STATUTORY, and a row is locked exactly when it is SECRETARIAT |
| BulkImport.ParseRowEntry | components/BulkImportModal.tsx:56-92 | the row conversion gives exactly the specified result for the row |
| BulkImport.DataRows | components/BulkImportModal.tsx:54 | a line is kept exactly when it is not blank |
| BulkImport.DataRowsAppend | components/BulkImportModal.tsx:54 | the data rows of two runs of lines are those of the first followed by those of the second, so input order is kept |
| BulkImport.DataRowsCount | components/BulkImportModal.tsx:54 | a non-blank line is kept as often as it occurs, and a blank line never |
| BulkImport.DataRowsNoBlank | components/BulkImportModal.tsx:54 | lines none of which is blank are kept as they stand |
| BulkImport.FirstErrorResult | components/BulkImportModal.tsx:56-97 | the parse succeeds exactly when every row does, giving every row's entry in order; otherwise it fails with the first failing row's error |
| BulkImport.ParseCsvTooShort | components/BulkImportModal.tsx:50-51 | the parse fails with the empty-file error exactly when the text has no line break |
| BulkImport.ParseCsvRows | components/BulkImportModal.tsx:50-97 | a successful parse gives one entry per non-blank data row, in order; a failure names row k+2 for the first bad row k, and every earlier row was valid |
| BulkImport.ParseCsvMap | components/BulkImportModal.tsx:50-97 | for a text with a line break the parse is the first error among the per-row results, or all their entries in order |
| BulkImport.ParseCsvSucceeds | components/BulkImportModal.tsx:56-97 | a successful parse has one entry per data row, and entry k is what row k converts to |
| BulkImport.ParseCsvFails | components/BulkImportModal.tsx:56-97 | a failed parse of a text with a line break reports the error of some data row k, numbered k+2, and every earlier row converts without error |
| BulkImport.RowNumber | components/BulkImportModal.tsx:76-82 | a row error names row idx+2 |
| BulkImport.RowSelected | components/BulkImportModal.tsx:70-72 | with a board selected, an accepted row has that board |
| BulkImport.SelectedBoardWins | components/BulkImportModal.tsx:70-72 | with a board selected, every imported entry has that board, whatever the file says |
| BulkImport.SecretariatLocked | components/BulkImportModal.tsx:85-89 | every imported SECRETARIAT entry is STATUTORY, and an entry is locked exactly when it is SECRETARIAT |
| BulkImport.StatusCheckedFirst | components/BulkImportModal.tsx:81-89 | a SECRETARIAT row with an invalid status still fails, because the status is checked before the override |
| BulkImport.CleanCellsBack | components/BulkImportModal.tsx:22 | a line joined from clean cells reads back as the same cells |
| BulkImport.TwoLineCsv | components/BulkImportModal.tsx:22 | a header line and one row line parse exactly as that one row checks |
| BulkImport.TemplateRoundTrip | components/BulkImportModal.tsx:19-22 | the downloadable template parses to exactly one entry with the sample's values |
| EventForm.StripMarker | components/EventForm.tsx:43 | loading removes one leading `@` and nothing else |
| EventForm.SubmittedName | components/EventForm.tsx:104-107 | a NATIONALS name starts with `@` and gains at most one `@`, and a name already starting with `@` is kept |
| EventForm.MarkerRoundTrip | components/EventForm.tsx:43 | loading a submitted NATIONALS name gives back what was typed; saving a loaded name gives back the stored one when it has one leading `@` |
| EventForm.Toggle | components/EventForm.tsx:89 | toggling flips whether the day is listed and leaves every other day as it is |
| EventForm.ToggleTwice | components/EventForm.tsx:87-90 | toggling a day twice restores the set of days, and the very list when the day was not listed |
| EventForm.BuildSubmission | components/EventForm.tsx:92-130 | nothing is submitted exactly when the name is blank; otherwise the payload carries the marked name, is locked exactly for SECRETARIAT, has a rule only when recurring, has days only for WEEKLY, carries the edited id, and passes a scope only for a recurring activity |
| EventForm.Form.constructor | components/EventForm.tsx:13-31 | a new form holds today's dates, an empty name, RAPHATORIA, HOUSE, not recurring, WEEKLY, interval 1, no days, no end and scope ALL |
| EventForm.Form.Reset | components/EventForm.tsx:64-77 | every field returns to the new-form values and the name error is cleared |
| EventForm.Form.Load | components/EventForm.tsx:39-62 | an activity fills the fields, and its rule fields only when it has a rule; the scope is SINGLE for an instance and ALL otherwise; no activity resets the form |
| EventForm.Form.SyncSecretariat | components/EventForm.tsx:79-81 | SECRETARIAT forces STATUTORY, and any other board leaves the status alone |
| EventForm.Form.ClampEndDate | components/EventForm.tsx:83-85 | an end before the start becomes the start, any other end is kept, and nothing else changes |
| EventForm.Form.ToggleDay | components/EventForm.tsx:87-90 | a locked entry keeps its days; otherwise the day's membership flips and nothing else changes |
| EventForm.Form.Submit | components/EventForm.tsx:92-132 | the result is the specified submission of the fields; a blank name raises the error and changes nothing else; a new-activity form is reset after submitting |
| PlannerView.Insert | components/PlannerView.tsx:15-17 | inserting into a sorted list keeps it sorted and adds exactly that element |
| PlannerView.SortByStart | components/PlannerView.tsx:15-17 | the result is sorted by start date and is a permutation of the input |
| PlannerView.Position | components/PlannerView.tsx:15-17 | the insertion point in a sorted list: everything before it starts no later than the element and everything after starts later |
| PlannerView.InsertStartingOn | components/PlannerView.tsx:15-17 | insertion places the element after every activity with the same start |
| PlannerView.SortStable | components/PlannerView.tsx:15-17 | activities with the same start keep their input order |
| PlannerView.MonthsOf | components/PlannerView.tsx:20-27 | no month has two sections, and a non-empty list has at least one |
| PlannerView.MonthsOfMembers | components/PlannerView.tsx:20-27 | a month has a section exactly when some activity starts in it |
| PlannerView.InMonthMembers | components/PlannerView.tsx:21-26 | a month's section holds exactly the activities of the list that start in that month |
| PlannerView.InMonthEmpty | components/PlannerView.tsx:22-24 | a month without a section has no activities |
| PlannerView.MonthsOfSnoc | components/PlannerView.tsx:22-25 | one more activity adds its month as a new last section exactly when that month had none |
| PlannerView.InMonthSnoc | components/PlannerView.tsx:25 | one more activity is pushed at the end of its own month's section and no other section changes |
| PlannerView.GroupStep | components/PlannerView.tsx:21-26 | one `forEach` step keeps the grouping invariant: the keys are the months so far and each key's list is that month's activities so far |
| PlannerView.GroupByMonth | components/PlannerView.tsx:20-27 | the loop over a list gives, as keys, each month that occurs, once and in first-appearance order, and under each key exactly that month's activities in order |
| PlannerView.Sections | components/PlannerView.tsx:14-27 | the sorted copy is grouped into the specified section keys and section lists, and there are no sections exactly for an empty input |
| PlannerView.SectionsPartition | components/PlannerView.tsx:20-27 | for a sorted list the sections come in increasing month order and, read in order, give back the list: each activity appears once, in its own month |
| Report.FilterActivities | services/geminiService.ts:14-27 | an activity is kept exactly when it is in the input and passes the three-clause test, and the result is no longer than the input |
| Report.FilterAppend | services/geminiService.ts:15 | filtering a concatenation filters each part and keeps their order |
| Report.FilterCounts | services/geminiService.ts:15 | a passing activity is kept as often as it occurs, and any other activity is never kept |
| Report.OverlapIsIntersection | services/geminiService.ts:19-25 | for an activity that does not end before it starts, the test holds exactly when its days meet the range's days |
| Report.ReportRanges | services/geminiService.ts:9-12 | the first range holds exactly the days of the month of `monthDate`, and the second exactly the days of the next month, which starts the day after the first ends |
| Report.MonthLists | services/geminiService.ts:29-30 | the two lists hold exactly the well-formed activities with a day in the month of `monthDate`, and in the next month |

## Left out

- Backend I/O: `google.script.run` is recorded as a ghost log of save and delete calls. The initial fetch (App.tsx:44-59) is modelled as `App.Planner.Load` with the fetched list given.
- Id generation by `Math.random` is a parameter that must not be among the current ids. The model does not capture that two random ids could collide.
- Clock reads: the expansion horizon (`endOfYear(new Date())`) and "today" in the form are parameters.
- Date text: dates are day numbers and `Render` stands for the `yyyy-MM-dd`/`yyyyMMdd` formats. The actual digits of those formats are not modelled. CSV date cells stay text, and the conversion of a parsed entry into a stored activity is not modelled. `parseISO` of malformed text (an invalid date) is not modelled.
- Time of day and time zones: a date's instants run from its midnight through its last millisecond (`Report.Midnight`, `Report.LastInstant`). Daylight-saving days of other lengths are not modelled.
- Unicode case mapping: `Text.ToLower` maps ASCII letters only. Headers with non-ASCII capitals are not lower-cased as JavaScript would.
- Error messages are modelled by their kind and row number (`BulkImport.CsvError`), not by their text.
- FileReader, Blob and the DOM download, focus handling, all JSX rendering, FullCalendar, the detail and delete-confirmation dialogs, ReportView, and the Gemini call with its prompt are not part of this model.
- The CSV file-type check before parsing (components/BulkImportModal.tsx:31-42) is not part of this model.
- App.Planner.Delete and App.Planner.Submit: a FUTURE split requires the template to carry a rule. The code's `a.recurrence!` would otherwise produce a rule with only an end date, and that case is excluded.
- App.Planner.Load: the fetched list is taken to hold only records the application saved itself, with distinct ids and no parent id. `setActivities(data || [])` (App.tsx:46) accepts any list, and a list with repeated ids or stored instances is outside this model.
- App.Planner.Submit: the lock guard of delete does not apply to edits, and the model, like the code, does not check it.
- EventForm.Form.SyncSecretariat: the effect runs only when the board changes (components/EventForm.tsx:79-81). The status select is disabled while SECRETARIAT is chosen, and STATUTORY cannot be picked otherwise (components/EventForm.tsx:259, 265). The link can still break. Loading a SECRETARIAT record whose status is not STATUTORY, while the board is already SECRETARIAT, does not re-run the effect. Switching the board away from SECRETARIAT leaves STATUTORY in place. So the model claims no invariant linking board and status.
- EventForm.MarkerRoundTrip: a stored name beginning with `@@` is shown as `@x` and saved as `@x`, losing one marker. The lemma states that case rather than a full round trip.
- Expander.NextStart: MONTHLY stepping is stated through the calendar's month numbers (same day of the month, clamped). Day-of-month clamping is taken from `Dates.AddMonths`.

## Findings

| source | as written | input that shows it | evidently intended | confidence | as-written member | corrected member |
|---|---|---|---|---|---|---|
| App.tsx:108-115 | the default-to-1 interval replaces only 0, so a negative interval steps DAILY, plain WEEKLY and MONTHLY walks backwards and the `while` loop never passes its limit | a DAILY template with interval -1 and any end date on or after its start (or a MONTHLY one, which moves back a month at a time) | every step moves forward by at least one interval of 1 | not executed | Expander.NegativeIntervalNeverEnds | Expander.NextStart |
