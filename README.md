# Meeting minutes and attendance — a Dafny model

The application manages meetings, their attendees, and the minutes-of-meeting
(MoM) action items they produce. An Express backend on PostgreSQL stores the
data. An older SQLite backend, a small SQLite model module and a Flask service
compute simpler attendance summaries. A React front end shows a dashboard,
meeting pages and a monthly attendance report.

This project models the application's data logic and proves properties of it.
It does not model routing, storage engines, rendering or mail. The model covers:

- **The MoM store** (`MomStore`, `LegacyMomStore`). The batch insert fills
  per-field defaults and is all-or-nothing on PostgreSQL. On SQLite it runs
  statement by statement. `update-status` assigns only the fields sent and
  keeps a deadline history. `deadline-history` lists that history newest
  first.
- **Attendee lists and the CSV user import** (`Meetings`, `UserImport`).
  Attendees are stored as a `", "`-joined text. The import finds columns
  through header aliases and upserts each row on its e-mail address.
- **Attendance aggregation.** The backend summary (`AttendanceSummary`,
  `AttendanceNames`, `AttendanceDates`, `DateKeys`, `Calendar`) reconciles
  names through a canonical key, reads date keys tolerantly and keeps those
  inside the month, using ECMAScript's calendar rollover. The simple
  summaries (`SimpleAttendance`) use a month prefix and concatenate lists.
  The client-side report (`Report`) builds the P/A grid and the
  `present/held (pct%)` totals.
- **Dashboard derivations** (`Grouping`, `UnifiedQuery`, `AssignedJobs`,
  `FinalAction`, `NoteColors`):
  - the severity of a group of rows, and grouping by normalised
    (job, deadline) or (meeting, job, deadline), with each group's primary row;
  - the `key:value` search tokenizer;
  - the ordering of the assigned-jobs panel;
  - the patch and hand-over rows of a settled action;
  - the colours of sticky notes.
- **Selection and list editing in the forms** (`MeetingDetails`,
  `ActionModal`, `NewMeetingModal`).

`Text`, `Seqs`, `OrderedMaps` and `Common` give the JavaScript and Python
string, array, `Set` and `Map` operations these rely on.

The older SQLite backend repeats several PostgreSQL helpers with the same
logic, and the same members model both copies:

- the attendee add (`backend/index_backup_code_file.js:423-448`);
- the CSV helpers (`backend/index_backup_code_file.js:60-71`) and the import
  row rules (`backend/index_backup_code_file.js:237-244`);
- the attendance summary (`backend/index_backup_code_file.js:608-745`).

Where the source has a loop or updates a structure in place, the model has a
method with loop invariants, or a class whose methods state the new state.
Each method is proved against a specification function, and the properties
of those functions are proved as lemmas. Where the source is an expression,
the model is a function with lemmas.

Things the program takes from outside are parameters of the model:

- the clock;
- what JavaScript's `Date` makes of a free-form text;
- `localeCompare`, as an abstract total preorder `le`;
- whether a database statement fails.

## Model

| member | source | states |
|---|---|---|
| Meetings.StoredList | backend/index.js:472 | a non-empty stored text reads back as at least one name, and every name read back is trimmed and free of commas |
| Meetings.TrimmedPieces | backend/index.js:472 | trimming comma-free pieces gives trimmed, comma-free pieces |
| Meetings.WithAttendee | backend/index.js:473 | the name is in the result; the list is kept as a prefix and grows by at most one; it is unchanged iff the name was already there (exact, case-sensitive); nothing else is added |
| Meetings.JoinEmpty | backend/index.js:475 | only no names, or a single empty name, join to the empty text |
| Meetings.ReadBack | backend/index.js:472-475 | a list of trimmed, comma-free names, other than the single empty name, survives being joined, stored and read back |
| Meetings.AddTwiceIsAddOnce | backend/index.js:463-485 | adding a trimmed, comma-free name a second time stores the same list again: adding is idempotent across requests |
| Meetings.AttendeesColumn | backend/index.js:399-419 | an array is stored joined with `", "`, a text as given, and no attendees as a text that reads back as no names |
| Meetings.AddMeetingRoundTrip | backend/index.js:419-455 | a meeting created from an array of trimmed, comma-free names reads back as exactly those names |
| Meetings.MeetingTable.constructor | backend/index.js:117 | the table starts with no meetings |
| Meetings.MeetingTable.AddAttendee | backend/index.js:463-485 | 400 and no change without a name; 500 and no change when the database fails; 404 and no change for an unknown meeting; otherwise 200, the list with the name added unless present, and that list stored joined with `", "` |
| MomStore.NewRow | backend/index.js:527-537 | a batch entry becomes a row of that meeting with an empty history, each missing text stored as empty, a missing status as `Assigned`, and the assigner taken from `assignedBy`, else `assigned_by`, else empty |
| MomStore.InsertAllEffect | backend/index.js:527-538 | a batch insert under fresh ids keeps every existing row unchanged and adds exactly one new row per entry, in order, under consecutive ids |
| MomStore.InsertAllStep | backend/index.js:527-538 | inserting from one entry on is inserting that entry under the next id and then the rest |
| MomStore.UpdateAppendsHistory | backend/index.js:595-613 | the history grows by exactly one record iff the trimmed new deadline is non-empty and differs from the trimmed stored one; earlier records are kept; the new one records the old deadline (or null), the new one, the status or else `updated` as reason, the remark given as text or else empty, the name given as non-empty text or else null as author, and the time |
| MomStore.UpdateTouchesOnlyPresent | backend/index.js:583-614 | only the fields present in the request change and the meeting, job, category and assigner never do; a present deadline is written trimmed even when blank or unchanged |
| MomStore.UpdateKeepsChronological | backend/index.js:598-609 | an update made after every recorded change keeps the history in chronological order |
| MomStore.UpdatedRow | backend/index.js:581-614 | the history keeps its records and gains at most one; without a deadline in the request the deadline and the history stay as they were |
| MomStore.HistoryRecord | backend/index.js:599-606 | a history record always has a reason and the request time; an old deadline or an author it records is never empty |
| MomStore.NewestFirstIsPreorder | backend/index.js:645 | ordering records newest first is a total preorder |
| MomStore.HistoryOf | backend/index.js:641-650 | the answer lists exactly the stored records, newest first, and the current deadline is null exactly when the stored one is missing or empty |
| MomStore.HistoryNewestFirst | backend/index.js:645 | a chronological history is listed in exactly reverse order |
| MomStore.StagePlainFields | backend/index.js:581-593 | each present field among status, remark, colour, name and e-mail is assigned, and the count of assignments is zero iff none is present |
| MomStore.StageDeadline | backend/index.js:595-614 | after the deadline part the staged row is the updated row, and no assignment is staged iff none was before and no deadline was sent |
| MomStore.MomTable.constructor | backend/index.js:510-549 | the table starts empty with the first id 1 |
| MomStore.MomTable.InsertBatch | backend/index.js:510-549 | 400 and no change when `mom` is not an array; when the INSERT of entry k or the COMMIT fails, 500 and the rows as they were, the serial counter advanced by the k values drawn before the failure; otherwise 200 and one new row per entry, in order, under consecutive new ids |
| MomStore.MomTable.UpdateStatus | backend/index.js:561-631 | 500 and no change when a query fails; 404 for an unknown id; 400 and no change when no field is sent; otherwise 200 and only that row replaced by its updated form |
| MomStore.MomTable.DeadlineHistory | backend/index.js:633-654 | 404 exactly for an unknown id; otherwise that row's records, newest first |
| LegacyMomStore.InsertAllSnoc | backend/index_backup_code_file.js:493-505 | running one more entry after a batch adds exactly that entry's row under the id following the batch, all else as the batch left it |
| LegacyMomStore.CutBatchIsPartOfWhole | backend/index_backup_code_file.js:493-505 | a batch cut short after k entries leaves every row it wrote as the whole batch would have, and lacks exactly the ids of the entries from k on |
| LegacyMomStore.LegacyKeepsNoHistory | backend/index_backup_code_file.js:531-545 | the SQLite handler writes a sent deadline as sent and never touches the history, so where the Postgres handler records a moved deadline this one records nothing |
| LegacyMomStore.LegacyMomTable.constructor | backend/index_backup_code_file.js:487-491 | the table starts empty with the first rowid 1 |
| LegacyMomStore.LegacyMomTable.InsertBatch | backend/index_backup_code_file.js:478-513 | 400 and no change when `mom` is not an array; when the run of entry k is rejected, no answer at all and exactly the first k entries added under consecutive new ids; otherwise every entry added, in order, and the answer is 500 exactly when finalising reports an error, the rows written staying written |
| LegacyMomStore.LegacyMomTable.UpdateStatus | backend/index_backup_code_file.js:526-552 | 400 and no change when no field is sent; 500 and no change when the UPDATE fails; otherwise 200, and the row with that id, if any, gets exactly the sent fields |
| UserImport.IndexIn | backend/index.js:167 | -1 exactly when the header is absent; otherwise the first position holding it |
| UserImport.ColumnOf | backend/index.js:165-174 | the position is -1 or a valid header position |
| UserImport.ColumnOfFirstAlias | backend/index.js:165-174 | a column is missing exactly when none of its aliases is a header; otherwise its position holds the first alias, in alias order, that is a header, at that header's first occurrence |
| UserImport.AllColumns | backend/index.js:153-160 | every column has its alias list |
| UserImport.FindColumn | backend/index.js:165-174 | the alias loop with its early exit finds the position the specification function gives |
| UserImport.BuildColumnIndex | backend/index.js:162-177 | the index maps every column to its position among the cleaned headers |
| UserImport.IndexColumns | backend/index.js:164-175 | the loop over the columns maps exactly the given columns, each to its position |
| UserImport.CleanHeaders | backend/index.js:163 | each header cell trimmed and lower-cased, one for one |
| UserImport.Pick | backend/index.js:178-180 | a missing column or a short row gives the empty text; otherwise the trimmed cell; the result is always trimmed |
| UserImport.Accept | backend/index.js:245-250 | a row is skipped exactly when its trimmed name or its e-mail is empty |
| UserImport.AcceptRules | backend/index.js:245-255 | an accepted row keeps its trimmed cells, lower-cases its e-mail (so importing it again files it under the same address), never stores an empty password, keeps a given password, and stores a photo exactly when the cell is not empty |
| UserImport.FindEmail | backend/index.js:262 | -1 exactly when no user has the address; otherwise a user with that address |
| UserImport.UpsertOnEmail | backend/index.js:258-270 | after an upsert exactly one user has the address and carries the new record; an existing user keeps its id; nobody else changes; the table grows only when the address was new; addresses stay unique |
| UserImport.UpsertAll | backend/index.js:258-270 | upserting in turn keeps addresses unique |
| UserImport.UpsertOne | backend/index.js:258-270 | one upsert spends exactly one serial value, whether it inserts or updates, and keeps addresses unique and every id below the counter |
| UserImport.UpsertAllSnoc | backend/index.js:240-275 | upserting records one after another is upserting the whole list |
| UserImport.UserTable.constructor | backend/index.js:215-217 | the table starts empty with the serial at 1 |
| UserImport.UserTable.Store | backend/index.js:258-270 | one upsert changes the table as specified and keeps addresses unique and ids below the serial |
| UserImport.UserTable.ImportRow | backend/index.js:244-274 | a row without name or e-mail is skipped, one whose query throws fails, both changing nothing; otherwise the record is upserted |
| UserImport.UserTable.ImportData | backend/index.js:232-275 | the table becomes the accepted rows before the first rejected upsert, upserted in order; inserted counts those rows, skipped the rows without name or e-mail, and there is one error per accepted row from the first rejected one on; `aborted` says whether an upsert was rejected; every row is counted once |
| UserImport.UserTable.ReadRows | backend/index.js:233-242 | without a name or an e-mail header the result is that one error and nothing is stored; otherwise the data rows are imported as specified |
| UserImport.UserTable.Import | backend/index.js:215-297 | 400 without a file; a missing header gives that one error and no change; otherwise the counts are as the data handler gives them; the serial counter advances once per upsert attempted, whatever the ending; the users change only when COMMIT runs on a transaction with no rejected upsert, and a rejected upsert, a failed COMMIT or a broken stream keeps none of them; a failed COMMIT or a broken stream appends its error, the broken stream answering 400 |
| UserImport.ImportStep | backend/index.js:232-275 | one more data row extends the accepted list and the skip count by what that row gives |
| UserImport.RowErrorsAbort | backend/index.js:271-274 | every row error names a data row; there is none exactly when no upsert was rejected; the first names a rejected row, the later ones the rows the aborted transaction refuses |
| UserImport.NothingRejected | backend/index.js:258-270 | when no upsert is rejected, every accepted row is upserted, in file order |
| UserImport.SkippedStep | backend/index.js:245-250 | a row without name or e-mail only adds to the skipped count |
| UserImport.FailedStep | backend/index.js:271-274 | an accepted row whose upsert is rejected, or that follows a rejected one, adds its error and leaves the transaction aborted |
| UserImport.InsertedStep | backend/index.js:258-270 | an accepted row before any rejection is upserted and adds nothing else |
| UserImport.UserTable.ImportNext | backend/index.js:244-274 | one data row moves the table and the tallies from the rows before it to the rows up to it |
| UserImport.ColumnIndexOf | backend/index.js:162-177 | every column maps to its position among the cleaned headers |
| AttendanceNames.KeepCanon | backend/index.js:719 | the filtered text keeps only lower-case letters and digits, is never longer, and leaves text already made of them unchanged |
| AttendanceNames.Canonical | backend/index.js:719 | a canonical key consists only of lower-case ASCII letters and digits |
| AttendanceNames.CanonicalIdempotent | backend/index.js:719 | a canonical key is its own canonical key |
| AttendanceNames.EmailLocal | backend/index.js:720-723 | with an `@` after the first character the result is the non-empty text before the first `@`; otherwise the whole text |
| AttendanceNames.Resolve | backend/index.js:779-796 | the e-mail local part's key wins when the roster has it, a known answer is always on the roster, a new key is the name's own non-empty key absent from the roster, and a dropped name has an empty key |
| AttendanceNames.AddBase | backend/index.js:747-751 | one attendee keeps the roster canonical, only extends it, and adds exactly its own key when that is non-empty |
| AttendanceNames.KnownStep | backend/index.js:783-786 | filing a known key with the roster's display form keeps the bucket in agreement with the roster |
| AttendanceNames.FreshStep | backend/index.js:787-795 | filing a new key puts the name into roster and bucket alike and keeps them canonical and agreeing |
| AttendanceNames.FreshRoster | backend/index.js:791-794 | the roster gains the name under its key and keeps every other entry |
| AttendanceNames.FreshBucket | backend/index.js:790 | a key missing from the roster is missing from the bucket, and filing it in both keeps them agreeing |
| AttendanceNames.AddName | backend/index.js:775-796 | filing one present name keeps the roster canonical, only extends it, keeps the bucket on the roster, and never drops a bucket entry |
| AttendanceNames.AddNameFiles | backend/index.js:775-796 | where a present name ends up: an empty name changes nothing; a resolved known key gets the roster's display form; a new non-empty key gets the name itself in both maps |
| AttendanceDates.MonthSplit | backend/index.js:705-711 | a month that passes the `YYYY-MM` test splits on `-` into exactly its four-digit year and two-digit month |
| AttendanceDates.InvalidDatePassesAsWritten | backend/index.js:767-769 | on valid dates the written window test and the intended one agree, but the key `300000-01-15` normalises, names no valid date, and passes the written test for every month while failing the intended one |
| AttendanceDates.KeepKey | backend/index.js:764-769 | a raw key is kept iff it parses and the date it names lies inside the month window, and then what is kept is its normalised form (the intended check; as written an Invalid Date passes) |
| AttendanceDates.KeepKeyKept | backend/index.js:764-769 | a kept key is in normal form and is kept again, unchanged |
| AttendanceDates.InWindowIffSameMonth | backend/index.js:712-713 | for a month 1..12, an existing date lies in the window iff it is a day of that month |
| AttendanceDates.RolledOverKey | backend/index.js:767-769 | a key past the month's end rolls over: 2025-02-30 counts for March 2025, not February |
| AttendanceDates.Day2025 | backend/index.js:768 | the day number the date constructor gives for a day of 2025 |
| AttendanceDates.MonthThirteen | backend/index.js:705-713 | month 13 passes the format test and asks for January of the next year |
| DateKeys.DigitNumbers | backend/index.js:725 | one number per maximal run of digits in the text, each the decimal value of its run, in order |
| DateKeys.ParseYmd | backend/index.js:725-728 | a date is read only when its first three numbers are plausible: a year after 1900, a month 1..12, a day 1..31 |
| DateKeys.NormalizeDateKey | backend/index.js:724-733 | a key is produced iff the text names a plausible date, and null otherwise |
| DateKeys.MonthOf | src/components/Reports/ReportDownloadHover.jsx:21 | the month of an ISO text is its first seven characters, or all of it when shorter |
| DateKeys.KeyDigitRuns | backend/index.js:716-725 | the digit runs of a printed key are its three printed fields |
| DateKeys.DashedRuns | backend/index.js:725 | a digit run followed by a dash and text that starts with a digit is read as that run first |
| DateKeys.KeySplitRoundTrip | backend/index.js:767 | splitting a printed key on `-` and reading the numbers gives back the year, month and day it was printed from |
| DateKeys.ParseOfKey | backend/index.js:716-733 | a plausible date printed as a key parses back to itself |
| DateKeys.NormalizeIdempotent | backend/index.js:724-733 | normalising a normalised key changes nothing |
| DateKeys.SameKeyIff | backend/index.js:724-733 | two texts that name dates get the same key exactly when they name the same date |
| DateKeys.MonthOfKey | src/components/Reports/ReportDownloadHover.jsx:21 | for a four-digit year, the month of a printed key is its `YYYY-MM` month |
| Calendar.NewDate | backend/index.js:768 | the date constructor gives the day number of the (rolled-over) year, month and day, and is invalid exactly when that day lies outside the representable range |
| Calendar.MakeDayCarry | backend/index.js:713 | a month index 12..23 is the same as the next year's month index minus 12 |
| Calendar.SameDaySameDate | backend/index.js:712-713 | two constructor calls naming the same day give the same date |
| Calendar.DayFromYearStep | backend/index.js:768 | consecutive years start a year's length apart, leap years counted by the Gregorian rule |
| Calendar.DayFromYearMonotone | backend/index.js:768 | January 1 moves forward with the year |
| Calendar.MonthsTile | backend/index.js:712-713 | the months of a year tile it: each starts where the previous one ends and December ends the year |
| Calendar.MonthStart | backend/index.js:712 | the first day of month 1..12 is the year's first day plus the days of the earlier months |
| Calendar.MakeDayInYear | backend/index.js:768 | inside a year, a date's day number is its month's start plus the date minus one |
| Calendar.MonthEndIsLastDay | backend/index.js:713 | day 0 of the next month is the last day of the month |
| Calendar.LaterMonthStartsLater | backend/index.js:712-713 | every later month starts after the end of the given month |
| Calendar.InMonthIff | backend/index.js:767-769 | a valid date lies between the first and last day of a month exactly when it is in that month |
| Calendar.RollOverExample | backend/index.js:768 | a day number past the month's end rolls over: 30 February 2025 is 2 March 2025, after the end of February |
| OrderedMaps.Get | backend/index.js:772-784 | `get` finds a value exactly when the key is present |
| OrderedMaps.Keys | backend/index.js:806 | the keys, one per entry, in insertion order |
| OrderedMaps.Values | backend/index.js:801-809 | the values, one per entry, in insertion order |
| OrderedMaps.Put | backend/index.js:771-792 | after `set` the key maps to the new value and every other key keeps its value; keys stay unique; a new key is appended to the key order, an existing one keeps its place |
| OrderedMaps.HasIndex | backend/index.js:783-791 | `has` holds exactly when the key is among the keys |
| OrderedMaps.KeysDistinct | backend/index.js:806 | the key list never holds a key twice |
| OrderedMaps.GetEntry | backend/index.js:808-809 | each entry's value is what `get` returns for its key |
| OrderedMaps.GetInValues | backend/index.js:801 | a value `get` returns is among the listed values |
| AttendanceSummary.RowsNamed | backend/index.js:736-739 | the rows read are exactly the meetings with the requested name |
| AttendanceSummary.BaseAttendees | backend/index.js:745 | a meeting's attendee list yields only non-empty trimmed names |
| AttendanceSummary.RosterOf | backend/index.js:744-753 | the roster built from the attendee names files each display name under its own canonical key |
| AttendanceSummary.RosterKeys | backend/index.js:744-753 | the roster's keys are exactly the non-empty canonical keys of the attendee names |
| AttendanceSummary.RosterFirstSeen | backend/index.js:747-751 | the display form kept for a key is the first attendee name carrying that key |
| AttendanceSummary.AddBaseKeeps | backend/index.js:748 | adding one attendee never drops or changes a key already on the roster |
| AttendanceSummary.AddBaseFirst | backend/index.js:748-751 | a name whose key no earlier name has is filed under itself |
| AttendanceSummary.AddNames | backend/index.js:775-797 | filing a list of present names keeps the roster canonical, only extends it, and keeps every bucket entry on the roster |
| AttendanceSummary.EnsureBucket | backend/index.js:771 | after the call the date has a bucket, other dates are unchanged, and every bucket still lies inside the month |
| AttendanceSummary.WriteBack | backend/index.js:771-797 | writing a date's filled bucket back keeps every date in the month and every bucket on the grown roster |
| AttendanceSummary.AddEntry | backend/index.js:763-797 | one `[date, names]` entry adds a date exactly when its key normalises to a valid date inside the month (the intended window check; as written an Invalid Date passes), and only extends the roster |
| AttendanceSummary.FileUnder | backend/index.js:771-797 | filing a list under a kept date adds that date and no other, and only extends the roster |
| AttendanceSummary.AddEntries | backend/index.js:763-798 | every entry of one meeting adds exactly the dates among its keys that normalise to valid dates in the month, under the intended window check |
| AttendanceSummary.TallyOf | backend/index.js:744-799 | after both passes the dates present are exactly the kept keys of all rows' entries |
| AttendanceSummary.DatesOut | backend/index.js:805-812 | the answer has one pair per date key, in the given order, holding that date's names sorted |
| AttendanceSummary.Finish | backend/index.js:801-812 | the attendees are the roster's names sorted and the dates come one per tally key |
| AttendanceSummary.SummaryProperties | backend/index.js:703-818 | with the intended window check: the roster is sorted and never repeats a canonical key; the dates are exactly the kept keys in strictly increasing order; each date's names are sorted, all on the roster, and never repeat a canonical key |
| AttendanceSummary.FinishKeys | backend/index.js:805-808 | the answer's dates are the tally's keys, each once, increasing, each inside the month |
| AttendanceSummary.FinishBuckets | backend/index.js:809-811 | each date's names are sorted, on the roster, and free of repeated canonical keys |
| AttendanceSummary.RosterSorted | backend/index.js:801-803 | the sorted roster repeats no canonical key |
| AttendanceSummary.ValuesCanonical | backend/index.js:741-751 | in a map keyed by the canonical forms of its values no two values share a canonical form |
| AttendanceSummary.BucketNames | backend/index.js:809-811 | a date's sorted names lie on the sorted roster and repeat no canonical key |
| AttendanceSummary.DateKeysSorted | backend/index.js:806 | the date keys, sorted, are strictly increasing, are exactly the tally's keys, and each is inside the month |
| AttendanceSummary.AddBaseAll | backend/index.js:746-752 | the inner loop over one meeting's attendees gives the roster of all names so far |
| AttendanceSummary.AddOne | backend/index.js:747-751 | one attendee: a non-empty new key is added under that name, anything else leaves the roster alone |
| AttendanceSummary.BuildRoster | backend/index.js:744-753 | the first pass returns the roster of all attendee names of all rows |
| AttendanceSummary.FileName | backend/index.js:776-796 | one present name is filed as the specification function says: its e-mail local key, then its own key, find a roster entry; otherwise a non-empty key enters bucket and roster |
| AttendanceSummary.FileNames | backend/index.js:774-797 | the loop over one present list gives the roster and bucket of filing every name in order |
| AttendanceSummary.DateOfKey | backend/index.js:767-768 | splitting a normalised key back into numbers gives the date it was printed from |
| AttendanceSummary.KeyNumbers | backend/index.js:767 | a normalised key splits on dashes into three digit strings whose values are its year, month and day |
| AttendanceSummary.FileInto | backend/index.js:771-797 | creating a missing bucket and filing a list into it gives the tally the specification function defines |
| AttendanceSummary.FillDate | backend/index.js:763-797 | one entry is handled as `AddEntry` defines it: skipped unless its key normalises to a valid date inside the month (the intended check), else filed |
| AttendanceSummary.FillDates | backend/index.js:763-798 | the loop over a meeting's entries gives the tally of adding them all in order |
| AttendanceSummary.OutputDates | backend/index.js:805-812 | the output loop builds exactly the specified date list |
| AttendanceSummary.Summarize | backend/index.js:703-818 | 400 iff a name or a `YYYY-MM` month is missing; 500 iff the query fails; otherwise the summary of the rows with that name for that month, keeping only valid dates (the intended window check); no answer body on an error |
| SimpleAttendance.Push | backend/model.js:91-92 | pushing a list under a key keeps keys unique, adds that key, appends the list to that key's list and leaves every other key's list alone |
| SimpleAttendance.Matching | backend/model.js:90-93 | a key outside the month contributes nothing |
| SimpleAttendance.PushEntries | backend/model.js:89-94 | after folding one object's entries, a key is present iff it was before or it starts with the month and the object has it, and each key's list is its old list followed by the object's matching lists |
| SimpleAttendance.PushEntriesKeys | backend/model.js:89-91 | one more entry adds its key exactly when the key starts with the month |
| SimpleAttendance.PushEntriesLists | backend/model.js:92-93 | one more entry appends its list under its key exactly when the key starts with the month |
| SimpleAttendance.RowsNamed | backend/model.js:74 | the selected rows are exactly the table's rows with the requested name |
| SimpleAttendance.Aggregate | backend/model.js:80-94 | a date is a key iff it starts with the month and some selected row has it; its list is every list filed under it, in row order, duplicates kept |
| SimpleAttendance.JsAllPieces | backend/model.js:82 | the pieces exist exactly when every selected row has its attendees as a text |
| SimpleAttendance.AddAll | backend/model.js:83 | adding pieces to the insertion-ordered set gives the distinct pieces seen so far, in first-seen order |
| SimpleAttendance.PushAll | backend/model.js:89-94 | the entry loop folds one object into the date map as specified |
| SimpleAttendance.ModelSummary | backend/model.js:72-103 | no summary exactly when some selected row has no attendee text; otherwise the roster is every trimmed piece once, in first-seen order, and the dates are the month's aggregate |
| SimpleAttendance.ModelAddMeeting | backend/model.js:31-37 | an array is stored joined with `", "`, any other value as given, so missing attendees are stored as NULL; the present lists default to an empty object |
| SimpleAttendance.ModelAddRoundTrip | backend/model.js:36 | a meeting added with an array of trimmed, comma-free names contributes exactly those names to the summary |
| SimpleAttendance.ModelAddAbsentBlocksSummary | backend/model.js:82 | once a meeting is added without attendees, no summary for its name is produced |
| SimpleAttendance.StripAll | backend/app.py:34 | each piece stripped, one for one |
| SimpleAttendance.SortedRoster | backend/app.py:34-43 | the roster answer is sorted, free of duplicates, and holds exactly the stripped pieces |
| SimpleAttendance.FlaskSummary | backend/app.py:20-45 | 400 exactly when a parameter is missing or empty; otherwise 200 with every stripped piece once, sorted, and the month's aggregate, lists extended in row order with duplicates kept |
| Report.ToIsoDate | src/components/Reports/ReportDownloadHover.jsx:22-34 | a falsy text has no date; a text whose first three numbers are a plausible date gets that date's key; otherwise there is a date exactly when `new Date` can read the text |
| Report.IsoDateNumeric | src/components/Reports/ReportDownloadHover.jsx:22-34 | on the numeric path the date is the padded key of the three numbers, that key reads back as those numbers, and converting it again gives the same key |
| Report.IsoDateMonth | src/components/Reports/ReportDownloadHover.jsx:21-28 | for a year of at most four digits, the month of a numeric-path date is its `YYYY-MM` |
| Report.SelectedOf | src/components/Reports/ReportDownloadHover.jsx:52-57 | a meeting is selected iff it has the chosen name and a date in the chosen month |
| Report.CleanedPieces | src/components/Reports/ReportDownloadHover.jsx:69-73 | a name is among a meeting's cleaned attendees iff it is the non-empty trimmed form of one of its pieces |
| Report.Entries | src/components/Reports/ReportDownloadHover.jsx:64-73 | one entry per selected meeting, holding its date and cleaned attendees |
| Report.Buckets | src/components/Reports/ReportDownloadHover.jsx:78-81 | the day buckets have each date once |
| Report.DayLists | src/components/Reports/ReportDownloadHover.jsx:64-82 | the day buckets of the selected meetings have each date once |
| Report.DatesOut | src/components/Reports/ReportDownloadHover.jsx:90-95 | one property per day key |
| Report.AllCleanedMembers | src/components/Reports/ReportDownloadHover.jsx:64-76 | a name is in the roster iff some dated selected meeting has it among its cleaned attendees |
| Report.ListedSnoc | src/components/Reports/ReportDownloadHover.jsx:79-81 | one more meeting adds its names under its own date and nowhere else |
| Report.DayListsHas | src/components/Reports/ReportDownloadHover.jsx:79 | a date is a key of the day buckets iff some selected meeting is on that date |
| Report.DayListsListed | src/components/Reports/ReportDownloadHover.jsx:79-81 | a name is listed under a date iff some meeting on that date has it among its cleaned attendees |
| Report.AttendanceProperties | src/components/Reports/ReportDownloadHover.jsx:45-97 | the roster is every cleaned attendee of the selected meetings, once each, sorted; the date keys are exactly the dates of the selected meetings, distinct and in increasing order; each date lists, once each and sorted, exactly the attendees of that day's meetings |
| Report.AddEntry | src/components/Reports/ReportDownloadHover.jsx:64-82 | one dated meeting adds its names to the roster set and to its day's bucket, keeping both equal to the specified sets so far |
| Report.Collect | src/components/Reports/ReportDownloadHover.jsx:60-82 | the loop over the selected meetings gives the roster set and the day buckets the specification function defines |
| Report.SortedDates | src/components/Reports/ReportDownloadHover.jsx:91-95 | the `dates` object filled in key order, each key with its bucket sorted |
| Report.Shape | src/components/Reports/ReportDownloadHover.jsx:87-97 | the data handed on is the roster sorted and one property per day key, in character order, holding its bucket sorted |
| Report.Refresh | src/components/Reports/ReportDownloadHover.jsx:45-103 | nothing changes until both a meeting and a month are chosen; a failed fetch clears the data; otherwise the data becomes the attendance of the selected meetings of the answer, a non-array answer counting as no rows |
| Report.DaysIn | src/components/Reports/ReportDownloadHover.jsx:116 | a month has 28 to 31 days |
| Report.HeldDays | src/components/Reports/ReportDownloadHover.jsx:121-128 | the held days are exactly the days of the month, up to today, that have a date entry, in order |
| Report.HeldDaysSnoc | src/components/Reports/ReportDownloadHover.jsx:122-127 | one more day joins the held days iff a meeting was held on it by today |
| Report.MeetingDays | src/components/Reports/ReportDownloadHover.jsx:121-129 | the loop collects exactly the held days |
| Report.LowerAll | src/components/Reports/ReportDownloadHover.jsx:152 | each name lower-cased, in place |
| Report.Cells | src/components/Reports/ReportDownloadHover.jsx:161-188 | one cell per day |
| Report.BuildRow | src/components/Reports/ReportDownloadHover.jsx:156-196 | the inner loop builds exactly the specified row for one attendee |
| Report.BuildRows | src/components/Reports/ReportDownloadHover.jsx:156-197 | one row per roster name, in roster order, each the specified row |
| Report.GenerateReport | src/components/Reports/ReportDownloadHover.jsx:106-197 | no report without data or with an empty roster; otherwise one row per roster name, in roster order; with a month each row is that name's row for it; with the month input cleared every row has no day cells and the total `0/0 (0%)` |
| Report.RowOfDays | src/components/Reports/ReportDownloadHover.jsx:156-196 | a row carries its name and exactly one cell per day |
| Report.RowOf | src/components/Reports/ReportDownloadHover.jsx:156-196 | a month's row carries its name and 28 to 31 cells |
| Report.NoDaysRow | src/components/Reports/ReportDownloadHover.jsx:115-116 | a month with no days gives no cells and the total `0/0 (0%)` |
| Report.CellOf | src/components/Reports/ReportDownloadHover.jsx:161-188 | a day is upcoming exactly when it is after today; a no-meeting day is not a meeting date; a day attended or missed is one |
| Report.CellRules | src/components/Reports/ReportDownloadHover.jsx:161-188 | a day after today is blank and uncoloured; a day up to today without a meeting is blank and orange; a meeting day reads `P` (green) exactly when the lower-cased name is among the lower-cased present names, and `A` (uncoloured) otherwise |
| Report.MarkedIffHeld | src/components/Reports/ReportDownloadHover.jsx:175-187 | a cell reads `P` or `A` exactly on a day a meeting was held |
| Report.PresentWithinHeld | src/components/Reports/ReportDownloadHover.jsx:180-192 | over the month the present count never exceeds the held count, and the two are equal exactly when the name is present on every held day |
| Report.CountStep | src/components/Reports/ReportDownloadHover.jsx:180-185 | one more day keeps the present count within the held count, equal exactly while every held day is attended |
| Report.PctRounds | src/components/Reports/ReportDownloadHover.jsx:190-192 | the percentage is the nearest integer to 100 times present over held, halves rounded up |
| Report.PctRange | src/components/Reports/ReportDownloadHover.jsx:190-192 | with present at most held, the percentage is between 0 and 100, 100 exactly for full attendance, and 0 exactly for no attendance or no meetings |
| Report.TotalLabelReadsBack | src/components/Reports/ReportDownloadHover.jsx:195 | the total cell reads back as its three numbers: present, held and percentage |
| Report.RowProperties | src/components/Reports/ReportDownloadHover.jsx:156-196 | a report row: the name, one cell per day of the month by the cell rules, and a total whose numbers are the present count, the held count and the rounded percentage, with present at most held and the percentage at most 100 |
| Report.RowOfDaysProperties | src/components/Reports/ReportDownloadHover.jsx:156-196 | for up to 31 days, each cell is its day's cell, the attended count is at most the held count, which is at most the days, the percentage is at most 100, and the total reads back as the three numbers |
| Grouping.Normalize | src/components/Dashboard/MainPage.jsx:34 | a normalised value is never longer than the text and is its own lower-case form |
| Grouping.NormalizeIdempotent | src/components/Dashboard/MainPage.jsx:34 | normalising a normalised value changes nothing |
| Grouping.GroupSeverity | src/components/Dashboard/MainPage.jsx:45-52 | an empty group is default, and only a non-empty group can be completed |
| Grouping.TextSeverityMeaning | src/components/Dashboard/MainPage.jsx:45-52 | each of the four status texts, and only it, gives its severity |
| Grouping.Sevs | src/components/Dashboard/MainPage.jsx:46 | one severity per member, read from that member's status, in member order |
| Grouping.MaxSev | src/components/Dashboard/MainPage.jsx:45-52 | the maximum is at least as severe as every element and is one of them, or completed when there are none |
| Grouping.MaxSevIs | src/components/Dashboard/MainPage.jsx:45-52 | a severity that is present and that none exceeds is the maximum |
| Grouping.WorstIs | src/components/Dashboard/MainPage.jsx:45-52 | a severity some member reaches and no member exceeds is the group's most severe |
| Grouping.RankBelow | src/components/Dashboard/MainPage.jsx:48-51 | when no member has the statuses above a rank, every member ranks at most that |
| Grouping.SeverityIsWorst | src/components/Dashboard/MainPage.jsx:45-52 | the precedence chain is a maximum: a non-empty group's severity is that of its most severe member, completed ranking below every other status, and an empty group is default |
| Grouping.StatusWorst | src/components/Dashboard/MainPage.jsx:48-51 | a status some member has and no member outranks is the group's most severe |
| Grouping.WorstAppend | src/components/Dashboard/MainPage.jsx:45-52 | the most severe status of two lists together is the worse of the two |
| Grouping.MaxSevAppend | src/components/Dashboard/MainPage.jsx:45-52 | the maximum of two sequences together is the worse of their maxima |
| Grouping.SeverityOfUnion | src/components/Dashboard/MainPage.jsx:45-52 | merging two non-empty groups gives the worse of their severities, whatever the order of the members |
| Grouping.FirstOpen | src/components/Dashboard/MainPage.jsx:182-183 | the index of the first member whose status is not completed or rejected (case-insensitive), every earlier member being settled, or -1 when all are |
| Grouping.Settled | src/components/Dashboard/MainPage.jsx:183 | a settled row has a status of eight or nine characters |
| Grouping.Primary | src/components/Dashboard/MainPage.jsx:182-183 | the row shown is a member of the group |
| Grouping.PrimaryIsFirstOpen | src/components/Dashboard/MainPage.jsx:182-183 | the row shown is open whenever any member is open, and comes no later than any open member; only a fully settled group shows its first member |
| Grouping.KeysOf | src/components/Dashboard/MainPage.jsx:175-176 | one key per row, in input order |
| Grouping.FirstKeys | src/components/Dashboard/MainPage.jsx:174-186 | the keys of the `Map`, in insertion order: no repeats, and exactly the keys some row has |
| Grouping.RowsWithKey | src/components/Dashboard/MainPage.jsx:178 | the rows of one key are rows of the input carrying that key, never more than the input |
| Grouping.Find | src/components/Dashboard/MainPage.jsx:177 | the position of the group with the key, or -1 exactly when no group has it |
| Grouping.RowsWithAbsentKey | src/components/Dashboard/MainPage.jsx:175-178 | a key no row carries has no rows |
| Grouping.FirstKeysSnoc | src/components/Dashboard/MainPage.jsx:177 | one more row adds its key at the end of the key order, unless the key was already seen |
| Grouping.RowsWithKeySnoc | src/components/Dashboard/MainPage.jsx:178 | one more row joins the rows of its own key and no other |
| Grouping.AddRowNew | src/components/Dashboard/MainPage.jsx:177-178 | a row with a new key opens a group of its own at the end, named after that row |
| Grouping.AddRowExisting | src/components/Dashboard/MainPage.jsx:178 | a row with a seen key joins the end of that key's group |
| Grouping.AddRowDescribes | src/components/Dashboard/MainPage.jsx:175-179 | one `forEach` step keeps the `Map` describing the rows seen so far |
| Grouping.AddRow | src/components/Dashboard/MainPage.jsx:177-178 | one row adds at most one group |
| Grouping.FillDescribes | src/components/Dashboard/MainPage.jsx:174-179 | after all rows: one group per distinct key in first-appearance order, each holding exactly its rows in input order and named after its first row |
| Grouping.Fill | src/components/Dashboard/MainPage.jsx:174-179 | there are no more groups than rows, and at least one when there is a row |
| Grouping.RowsWithKeyHas | src/components/Dashboard/MainPage.jsx:178 | every row is among the rows of its own key |
| Grouping.CountedAll | src/components/Dashboard/MainPage.jsx:186-187 | the group sizes add up to the number of rows: nothing is dropped or counted twice |
| Grouping.GroupOfRow | src/components/Dashboard/MainPage.jsx:175-178 | each row is a member of the group of its key |
| Grouping.GroupsDisjoint | src/components/Dashboard/MainPage.jsx:175-178 | no row is a member of two groups |
| Grouping.GroupingPartitions | src/components/Dashboard/MainPage.jsx:173-191 | every row lands in exactly one group, the one of its key, and the group sizes add up to the number of rows |
| Grouping.PushRow | src/components/Dashboard/MainPage.jsx:177-178 | one step of the loop is the `Map` update the specification function defines |
| Grouping.FillGroups | src/components/Dashboard/MainPage.jsx:174-179 | the loop over the rows builds the specified grouping |
| Grouping.Summarize | src/components/Dashboard/MainPage.jsx:181-190 | one summary per group, in order, with its first row's fields, its primary row, its size and its severity |
| Grouping.GroupMomRows | src/components/Dashboard/MainPage.jsx:173-191 | one summary per distinct normalised (job, deadline), in order of first appearance, holding exactly its rows with their count, primary row and severity |
| Grouping.GroupMergedMomRows | src/components/Dashboard/MainPage.jsx:193-211 | the same per distinct normalised (meeting, job, deadline), each summary also naming its first row's meeting |
| Grouping.PlainGroupsAgree | src/components/Dashboard/MainPage.jsx:176 | rows of one dashboard group have equal normalised jobs and equal normalised deadlines |
| Grouping.MergedGroupsAgree | src/components/Dashboard/MainPage.jsx:196 | rows of one merged group have equal normalised meetings, jobs and deadlines |
| Grouping.NormalizePlain | src/components/Dashboard/MainPage.jsx:34 | lower-case letters and bars are already normalised |
| Grouping.NormalizeBarred | src/components/Dashboard/MainPage.jsx:34 | two lower-case words joined by a bar are already normalised |
| Grouping.FillTwo | src/components/Dashboard/MainPage.jsx:174-179 | two rows with the same key, one after the other, make one group of both |
| Grouping.MergedRowsCollide | src/components/Dashboard/MainPage.jsx:196 | meeting `a|b` with job `c` and meeting `a` with job `b|c`, both due `d`: different meetings but one joined key |
| Grouping.PlainRowsCollide | src/components/Dashboard/MainPage.jsx:176 | job `a|b` due `c` and job `a` due `b|c`: different jobs but one joined key |
| Grouping.PlainKey | src/components/Dashboard/MainPage.jsx:176 | two lower-case parts, no longer than the job and the deadline |
| Grouping.MergedKey | src/components/Dashboard/MainPage.jsx:196 | three lower-case parts, the last two the plain key |
| Grouping.MergedKeyAsWrittenCollides | src/components/Dashboard/MainPage.jsx:193-199 | with the joined key, the two merged-view rows of the collision land in one group although their meetings differ |
| Grouping.PlainKeyAsWrittenCollides | src/components/Dashboard/MainPage.jsx:173-179 | with the joined key, the two dashboard rows of the collision land in one group although their jobs differ |
| UnifiedQuery.NonSpaceRun | src/components/Dashboard/MainPage.jsx:125 | the run has no space inside and ends at a space or at the end of the text |
| UnifiedQuery.Tokens | src/components/Dashboard/MainPage.jsx:125 | every token is non-empty and is either a quoted text or a run of non-space characters |
| UnifiedQuery.SpacesHaveNoTokens | src/components/Dashboard/MainPage.jsx:125 | a text of spaces only yields no tokens |
| UnifiedQuery.BlankHasNoTokens | src/components/Dashboard/MainPage.jsx:123-125 | a query that trims to nothing has no tokens, so the early return for a blank query agrees with tokenizing |
| UnifiedQuery.RunOfWord | src/components/Dashboard/MainPage.jsx:125 | a word followed by a space or by the end is exactly one non-space run |
| UnifiedQuery.TokensOfJoin | src/components/Dashboard/MainPage.jsx:125 | plain words joined with single spaces tokenize back to those words |
| UnifiedQuery.Unquote | src/components/Dashboard/MainPage.jsx:143 | a token quoted at both ends loses one character at each end; any other token is kept |
| UnifiedQuery.ClassifyMeaning | src/components/Dashboard/MainPage.jsx:141-168 | a term is the unquoted token itself; any other decision comes from a non-empty key without a colon, a colon and a non-empty value, the key naming that decision |
| UnifiedQuery.ClassifyKnownKey | src/components/Dashboard/MainPage.jsx:145-165 | a known key, a colon and a non-empty value always select that key's decision |
| UnifiedQuery.ClassifyAt | src/components/Dashboard/MainPage.jsx:145-152 | a token whose first colon ends a non-empty key is a term when the key is unknown or the value empty, and the key's decision otherwise |
| UnifiedQuery.UnquotePlain | src/components/Dashboard/MainPage.jsx:143 | a token that does not open with a quote is kept as it is |
| UnifiedQuery.KeyColonValue | src/components/Dashboard/MainPage.jsx:145-148 | in `k:v` with a colon-free `k` the first colon is the one after `k`, and it splits the token back into `k` and `v` |
| UnifiedQuery.ClassifyNoKey | src/components/Dashboard/MainPage.jsx:166-167 | a token with no colon after its first character is a term |
| UnifiedQuery.Classify | src/components/Dashboard/MainPage.jsx:141-168 | a free term is the unquoted token; any field value is non-empty and comes from a token with a colon |
| UnifiedQuery.Fields.Push | src/components/Dashboard/MainPage.jsx:160-162 | pushing a value appends it to that field's list and leaves every other field alone |
| UnifiedQuery.Actions | src/components/Dashboard/MainPage.jsx:141 | one decision per token, in token order |
| UnifiedQuery.Handle | src/components/Dashboard/MainPage.jsx:149-165 | one decided token changes the result as the decision says |
| UnifiedQuery.RunStep | src/components/Dashboard/MainPage.jsx:141-168 | handling one more token applies its decision to the result so far |
| UnifiedQuery.Run | src/components/Dashboard/MainPage.jsx:141-168 | no token adds more than one term or field value |
| UnifiedQuery.ParseUnifiedQuery | src/components/Dashboard/MainPage.jsx:116-170 | the parsed query is the result of applying every token's decision, in order, to the empty query |
| UnifiedQuery.ParsedIsRun | src/components/Dashboard/MainPage.jsx:123-125 | the blank-query shortcut agrees with running the decisions of the tokens |
| UnifiedQuery.EveryTokenCounted | src/components/Dashboard/MainPage.jsx:141-168 | every token is used exactly once: as a term, as a field value, or as a date range |
| UnifiedQuery.ValuesFromTokens | src/components/Dashboard/MainPage.jsx:141-168 | every term and every field value comes from a token whose decision adds it |
| UnifiedQuery.NoDom | src/components/Dashboard/MainPage.jsx:120 | without a `dom:` token the dom range stays unset |
| UnifiedQuery.DomIsLast | src/components/Dashboard/MainPage.jsx:155 | the dom range is that of the last `dom:` token |
| UnifiedQuery.NoDdl | src/components/Dashboard/MainPage.jsx:121 | without a `ddl:` token the ddl range stays unset |
| UnifiedQuery.DdlIsLast | src/components/Dashboard/MainPage.jsx:157 | the ddl range is that of the last `ddl:` token |
| AssignedJobs.EntriesOf | src/components/Dashboard/MainPage.jsx:430-436 | a meeting contributes one index entry per group of its rows, in group order, keyed by (meeting id, normalised job and deadline) as a tuple and carrying that group's severity: the intended key, which the `|`-joined text at line 433 does not keep apart |
| AssignedJobs.IndexedSeverity | src/components/Dashboard/MainPage.jsx:428-438 | looking up a row's (meeting, job, deadline) in the index finds the severity of the group that row belongs to, unless a later meeting has the same id |
| AssignedJobs.PutEntriesHas | src/components/Dashboard/MainPage.jsx:432-435 | writing one meeting's entries files every row's group under that row's key |
| AssignedJobs.PutEntriesOther | src/components/Dashboard/MainPage.jsx:432-435 | writing one meeting's entries leaves the keys of every other meeting as they were |
| AssignedJobs.GroupEntry | src/components/Dashboard/MainPage.jsx:431-434 | the i-th summary the grouping returns is the i-th index entry of its meeting |
| AssignedJobs.PutGroups | src/components/Dashboard/MainPage.jsx:432-435 | the inner loop leaves the index equal to the old index with the meeting's entries written over it in order |
| AssignedJobs.BuildGroupIndex | src/components/Dashboard/MainPage.jsx:428-438 | the nested loops return the index the meetings define, a later meeting overwriting an earlier one's key |
| AssignedJobs.PutAll | src/components/Dashboard/MainPage.jsx:432-435 | the keys of the index afterwards are the old keys and the keys written |
| AssignedJobs.GroupIndex | src/components/Dashboard/MainPage.jsx:428-438 | every key of the index belongs to one of the meetings; keyed by tuple, the intended index |
| AssignedJobs.Overall | src/components/Dashboard/MainPage.jsx:1463-1464 | a job's severity is one found in the index, or `default`; looked up by tuple, the intended lookup |
| AssignedJobs.IndexKeyAsWrittenCollides | src/components/Dashboard/MainPage.jsx:433 | as written, a job `a|b` due `c` and a job `a` due `b|c` of one meeting get one joined key and so the same severity in any index, though their tuple keys differ |
| AssignedJobs.ByTimeLeftPreorder | src/components/Dashboard/MainPage.jsx:1484-1486 | comparing by time left, in either direction, is a total preorder, so the open jobs sort consistently |
| AssignedJobs.ActiveFinalSorted | src/components/Dashboard/MainPage.jsx:1481-1488 | the open part is the open jobs not overdue, each as often as in the input and sorted by time left, followed (unless overdue jobs are hidden) by the overdue open jobs in input order |
| AssignedJobs.ActiveFinalMembers | src/components/Dashboard/MainPage.jsx:1481-1488 | the open part holds every open job, except overdue ones when they are hidden, and nothing else |
| AssignedJobs.ActiveParts | src/components/Dashboard/MainPage.jsx:1481-1482 | the open jobs split, as a multiset, into those not overdue and those overdue |
| AssignedJobs.SortedDoneMembers | src/components/Dashboard/MainPage.jsx:1490-1491 | the finished part holds exactly the completed or rejected jobs, each as often as in the input |
| AssignedJobs.DescendingPreorder | src/components/Dashboard/MainPage.jsx:1491 | comparing by a number with the larger first is a total preorder |
| AssignedJobs.ByDeadlineSorts | src/components/Dashboard/MainPage.jsx:1491 | when every deadline is a valid date, sorting puts the latest deadline first |
| AssignedJobs.SortedDoneSorted | src/components/Dashboard/MainPage.jsx:1490-1491 | the finished part is latest deadline first when every finished job has a valid deadline |
| AssignedJobs.BoardDoneLast | src/components/Dashboard/MainPage.jsx:1481-1491 | the panel lists every open job before every finished job |
| AssignedJobs.BoardMembers | src/components/Dashboard/MainPage.jsx:1461-1491 | a job of the user is missing from the panel only when it is open, overdue and overdue jobs are hidden |
| AssignedJobs.Board | src/components/Dashboard/MainPage.jsx:1461-1491 | every card on the panel is one of the user's jobs |
| FinalAction.MomIdOf | src/components/Dashboard/MainPage.jsx:686 | a row id is found iff the card's `momId` or `mom_id` is truthy, and it is then that non-zero id, `momId` first |
| FinalAction.KindsDistinct | src/components/Dashboard/MainPage.jsx:693-748 | the action names `rejected`, `needTime` and `reassign` are three different words |
| FinalAction.NormalizeWord | src/components/Dashboard/MainPage.jsx:34 | a trimmed word of letters and spaces normalises to its lower-case form |
| FinalAction.WordSeverity | src/components/Dashboard/MainPage.jsx:45-52 | a status word's severity is the severity of its lower-case form |
| FinalAction.RejectedText | src/components/Dashboard/MainPage.jsx:694 | the status `Rejected` is read back as the rejected severity |
| FinalAction.NeedTimeText | src/components/Dashboard/MainPage.jsx:702 | the status `Need Time` is read back as the need-time severity |
| FinalAction.CompletedText | src/components/Dashboard/MainPage.jsx:742 | the status `Completed` is read back as the completed severity |
| FinalAction.ReassignedText | src/components/Dashboard/MainPage.jsx:749 | the status `Reassigned` is read back as the reassigned severity |
| FinalAction.AssignedText | src/components/Dashboard/MainPage.jsx:716 | the status `Assigned` of a hand-over row is read back as an open row, neither rejected nor completed |
| FinalAction.PatchMatchesAction | src/components/Dashboard/MainPage.jsx:685-790 | a card without a row id does nothing; each of the four actions patches that row with the status whose severity the action names, coloured as that severity is; any other action does nothing |
| FinalAction.KindWordSeverity | src/components/Dashboard/MainPage.jsx:694-749 | the status word an action writes reads back as the action's severity |
| FinalAction.KindPatch | src/components/Dashboard/MainPage.jsx:693-751 | the patch one of the four actions sends holds the row id, the action's status word and its severity's colour |
| FinalAction.HandleFinalAction | src/components/Dashboard/MainPage.jsx:685-790 | a patch is sent exactly when the card has a MoM id and the kind is rejected, needTime, reassign or completed, and it goes to that id; hand-over rows are inserted only for needTime and reassign, followed by a refetch |
| FinalAction.NoPatch | src/components/Dashboard/MainPage.jsx:688-691 | without a row id, or for an action outside the four, nothing is sent |
| FinalAction.PatchFields | src/components/Dashboard/MainPage.jsx:694-749 | rejecting, asking for time and reassigning write the payload's remark or empty; asking for time also moves the deadline to the payload's, else the job's, else empty; completing writes neither |
| FinalAction.HandOverRows | src/components/Dashboard/MainPage.jsx:709-787 | only asking for time and reassigning post rows: one open `Assigned` row per assignee, in order, naming the assignee, for the same job, and the MoM is fetched again afterwards |
| FinalAction.ReassignFallback | src/components/Dashboard/MainPage.jsx:752-757 | reassigning with no list falls back to the single person in the payload when both name and e-mail are non-empty, else to nobody; asking for time never falls back |
| FinalAction.NeedTimeRows | src/components/Dashboard/MainPage.jsx:711-718 | rows posted when asking for time carry the new deadline and the assignee's e-mail, empty when missing |
| FinalAction.ReassignRows | src/components/Dashboard/MainPage.jsx:760-767 | rows posted when reassigning keep the job's own deadline |
| NoteColors.ResolveColorCases | src/components/Dashboard/MainPage.jsx:1890-1894 | a missing colour, the grey, or text that is neither `#` nor a class nor an inherited name gives the grey, and only those; a `#` colour is kept; a class gives its colour; a class-like text naming an inherited member (`toString`, `constructor`, …) gives no colour text, and only such a text does |
| NoteColors.ResolveColor | src/components/Dashboard/MainPage.jsx:1890-1894 | every colour text it returns starts with `#` |
| NoteColors.ToStringInherits | src/components/Dashboard/MainPage.jsx:1878-1893 | the colour `toString` is looked up as the inherited method |
| NoteColors.AccentRgb | src/components/Dashboard/MainPage.jsx:1912-1913 | a note has accent channels, each a byte, unless its colour names an inherited member, in which case `hexToRgb` throws |
| NoteColors.ExactBelowSafe | src/components/Dashboard/MainPage.jsx:1899 | a value below 2^53 becomes a Number unchanged |
| NoteColors.ParseHex | src/components/Dashboard/MainPage.jsx:1899 | a parsed value is a finite Number, below 2^1024 in magnitude |
| NoteColors.HexDigitValue | src/components/Dashboard/MainPage.jsx:1899 | a hex digit's value is below 16 |
| NoteColors.HexRun | src/components/Dashboard/MainPage.jsx:1899 | the leading run of hex digits: all of them are digits and the character after it, if any, is not |
| NoteColors.Unsigned | src/components/Dashboard/MainPage.jsx:1899 | `parseInt` skips at most one leading sign |
| NoteColors.Unprefixed | src/components/Dashboard/MainPage.jsx:1899 | base 16 skips at most one leading `0x` or `0X` |
| NoteColors.DropHash | src/components/Dashboard/MainPage.jsx:1897 | a text without `#` is left as it is |
| NoteColors.Doubled | src/components/Dashboard/MainPage.jsx:1898 | the doubled text is twice as long and holds each character twice, in place |
| NoteColors.HexToRgb | src/components/Dashboard/MainPage.jsx:1896-1901 | every channel is a byte, 0..255, taken from the parsed value cut to 32 bits, and 0 for NaN or an infinity |
| NoteColors.ParseNoDigits | src/components/Dashboard/MainPage.jsx:1899 | text without a hex digit is `NaN` to `parseInt` |
| NoteColors.NoDigitsIsBlack | src/components/Dashboard/MainPage.jsx:1896-1901 | a colour without any hex digit reads as black, since `NaN` shifts to 0 |
| NoteColors.BlackOfNaN | src/components/Dashboard/MainPage.jsx:1899-1900 | a colour whose digits parse as NaN is black |
| NoteColors.ExpandedNoDigits | src/components/Dashboard/MainPage.jsx:1897-1898 | expanding a text without hex digits adds none |
| NoteColors.ThreeUnitsIff | src/components/Dashboard/MainPage.jsx:1898 | `h.length === 3` counts UTF-16 code units: three characters inside the Basic Multilingual Plane, or two of which exactly one is beyond it |
| NoteColors.Utf16LengthPlane | src/components/Dashboard/MainPage.jsx:1898 | a text inside the Basic Multilingual Plane has as many code units as characters |
| NoteColorExamples.LongColorRounds | src/components/Dashboard/MainPage.jsx:1896-1901 | `#ffffffffffffff` parses as 2^56 after rounding, and so reads as black |
| NoteColorExamples.FourteenEffsSpelled | src/components/Dashboard/MainPage.jsx:1896 | the colour of that example is `#` and fourteen `f`s |
| NoteColorExamples.AstralCountsTwice | src/components/Dashboard/MainPage.jsx:1897-1901 | `#a` followed by a character beyond the Basic Multilingual Plane has three code units, so it is expanded; whatever follows the leading `aa` is not a hex digit, so only `aa` reaches `parseInt` and it reads as blue 170 (the model doubles the whole character where `split('')` doubles each surrogate half, with the same colour) |
| NoteColors.TwoDigitValue | src/components/Dashboard/MainPage.jsx:1899 | two hex digits are worth sixteen times the first plus the second |
| NoteColors.AppendTwoDigits | src/components/Dashboard/MainPage.jsx:1899 | appending two digits shifts the value left by a byte |
| NoteColors.SixDigitValue | src/components/Dashboard/MainPage.jsx:1899 | six digits written from three bytes read back as the 24-bit number |
| NoteColors.ParseDigits | src/components/Dashboard/MainPage.jsx:1899 | a text made only of hex digits parses as its value rounded to the nearest double |
| NoteColors.ParseRun | src/components/Dashboard/MainPage.jsx:1899 | a text starting with a digit (not `0x`) parses as the rounded value of its leading run of digits |
| NoteColors.ParseSafeDigits | src/components/Dashboard/MainPage.jsx:1899 | a run of hex digits worth less than 2^53 parses as exactly its value |
| NoteColors.ShortRunIsSafe | src/components/Dashboard/MainPage.jsx:1899 | up to 13 hex digits are worth less than 2^53 |
| NoteColors.ChannelsOf24 | src/components/Dashboard/MainPage.jsx:1900 | the three shifted and masked channels of a 24-bit number are its three bytes |
| NoteColors.ColorOfDigits | src/components/Dashboard/MainPage.jsx:1896-1901 | a colour that expands to a run of hex digits reads as the channels of the run's value rounded to a double and cut to 32 bits |
| NoteColors.ColorOfSafeDigits | src/components/Dashboard/MainPage.jsx:1896-1901 | a colour whose digits are worth less than 2^53 reads as the channels of exactly that value |
| NoteColors.ExpandedSix | src/components/Dashboard/MainPage.jsx:1897-1898 | `#` and six digits expand to the six digits |
| NoteColors.SixDigitRoundTrip | src/components/Dashboard/MainPage.jsx:1896-1901 | a colour written as `#rrggbb` reads back as that colour |
| NoteColors.ExpandedThree | src/components/Dashboard/MainPage.jsx:1898 | `#rgb` expands to each digit twice |
| NoteColors.DoubledDigits | src/components/Dashboard/MainPage.jsx:1898 | three doubled digits are six digits, each pair worth its digit times 17 |
| NoteColors.ThreeDigitForm | src/components/Dashboard/MainPage.jsx:1896-1901 | `#rgb` reads as `#rrggbb`: each channel is its digit times 17 |
| NoteColors.ColorOfChannels | src/components/Dashboard/MainPage.jsx:1896-1901 | digits whose value packs three bytes read back as those bytes |
| MeetingDetails.LocalPart | src/components/Meeting/MeetingDetails.jsx:31 | the part of an e-mail before its first `@`, all of it when there is none, never holding an `@` |
| MeetingDetails.ShownNameMeaning | src/components/Meeting/MeetingDetails.jsx:27-32 | a user with a non-blank name is shown by the trimmed name, else by the trimmed e-mail up to its first `@`; the result is empty only when the name is blank and the e-mail blank or starting with `@` |
| MeetingDetails.ShownName | src/components/Meeting/MeetingDetails.jsx:27-32 | a non-empty name is shown as it is; without one the shown name has no `@` and is no longer than the e-mail |
| MeetingDetails.MergeUnique | src/components/Meeting/MeetingDetails.jsx:36-46 | the merge is the base names followed by the fresh extra names, sorted by the case-insensitive comparison |
| MeetingDetails.AppendFresh | src/components/Meeting/MeetingDetails.jsx:37-44 | the walk yields the base names followed by each extra name whose non-empty lower-case form was not seen before, in order |
| MeetingDetails.FreshStep | src/components/Meeting/MeetingDetails.jsx:40-43 | one step of the walk adds the name iff its lower-case form is non-empty and unseen, and then marks it seen |
| MeetingDetails.MergeUniqueProperties | src/components/Meeting/MeetingDetails.jsx:36-46 | every base name stays; every added name comes from the extras with a new non-empty lower-case form, no two alike; no extra name is lost unless its lower-case form was present or empty; the result is sorted |
| MeetingDetails.FreshCovers | src/components/Meeting/MeetingDetails.jsx:37-44 | any list holding the base and the fresh names covers the non-empty lower-case form of every extra name |
| MeetingDetails.SplitPieces | src/components/Meeting/MeetingDetails.jsx:112-117 | every name split from a text is non-empty, trimmed and free of commas |
| MeetingDetails.NonEmptyAll | src/components/Meeting/MeetingDetails.jsx:116 | dropping empty names from a list with none changes nothing |
| MeetingDetails.SplitToArrayRoundTrip | src/components/Meeting/MeetingDetails.jsx:112-117 | names joined with `", "`, as the back end stores them, split back into exactly those names |
| MeetingDetails.SplitToArray | src/components/Meeting/MeetingDetails.jsx:112-117 | a comma-separated text gives only non-empty names; a value that is neither a list nor a text gives none |
| MeetingDetails.MatchesMeaning | src/components/Meeting/MeetingDetails.jsx:104-108 | the matches are exactly the known names not already attending (case-insensitively) whose lower-case form contains the trimmed lower-case query, in order |
| MeetingDetails.SuggestionsProperties | src/components/Meeting/MeetingDetails.jsx:104-110 | at most eight names are offered, each a known name not attending whose lower-case form contains the query; when fewer than eight are offered, every such name is |
| MeetingDetails.Suggestions | src/components/Meeting/MeetingDetails.jsx:104-110 | at most eight suggestions, each a known name not already attending in any casing |
| MeetingDetails.EntriesFor | src/components/Meeting/MeetingDetails.jsx:272 | one entry per target, in target order, each carrying the row's fields and the target's name |
| MeetingDetails.PushEntries | src/components/Meeting/MeetingDetails.jsx:272 | the `forEach` appends exactly those entries to the list built so far |
| MeetingDetails.SubmittedEntries | src/components/Meeting/MeetingDetails.jsx:245-284 | the list submitted is the rows expanded into entries with each entry kept only the first time it occurs; this is the intended dedupe on the six fields, which the joined key at line 279 does not achieve |
| MeetingDetails.DedupeEntries | src/components/Meeting/MeetingDetails.jsx:277-284 | the dedupe walk keeps an entry iff no equal entry was kept before: the intended behaviour, whose `|`-joined key can also drop distinct entries |
| MeetingDetails.RowEntriesFields | src/components/Meeting/MeetingDetails.jsx:251-272 | every entry of a row carries the row's job, deadline, remark, assigner and category |
| MeetingDetails.AllRowEntries | src/components/Meeting/MeetingDetails.jsx:247-267 | a row with the ALL option gives one entry per cleaned attendee: none twice, every non-blank attendee covered under the trimmed name, and nobody else |
| MeetingDetails.PeopleHas | src/components/Meeting/MeetingDetails.jsx:247 | a non-blank attendee is among the cleaned attendees under the trimmed name |
| MeetingDetails.People | src/components/Meeting/MeetingDetails.jsx:247 | the cleaned attendee list has no blank name and no name twice |
| MeetingDetails.EntriesCover | src/components/Meeting/MeetingDetails.jsx:272 | every target gets an entry under its name |
| MeetingDetails.EntriesNames | src/components/Meeting/MeetingDetails.jsx:272 | entries for distinct trimmed targets go to distinct people named among them |
| MeetingDetails.PickedRowEntries | src/components/Meeting/MeetingDetails.jsx:260-270 | without the ALL option every non-blank picked name gets an entry under its trimmed form, and entries go to those names only, never to a blank one |
| MeetingDetails.SubmittedProperties | src/components/Meeting/MeetingDetails.jsx:277-284 | the submitted list holds every expanded entry exactly once and nothing else |
| MeetingDetails.DedupeAsWrittenDropsEntry | src/components/Meeting/MeetingDetails.jsx:277-283 | two different assignments whose fields differ only in where a `|` falls share one joined key, so the dedupe as written drops the second, while the intended dedupe keeps both |
| MeetingDetails.JoinSix | src/components/Meeting/MeetingDetails.jsx:279 | the joined key of an entry whose last four fields are empty |
| MeetingDetails.AddAttendeeProperties | src/components/Meeting/MeetingDetails.jsx:296-333 | for a suggestion, and for the typed name as the function is evidently meant to be called: a blank name or one already attending in any casing changes nothing and posts nothing; a new one is posted trimmed and, once saved, appended exactly once, keeping the list free of case-insensitive repeats |
| MeetingDetails.AddAttendee | src/components/Meeting/MeetingDetails.jsx:296-333 | whatever is posted is the trimmed override or input and is non-empty; the list either stays as it was or, once saved, gains exactly the posted name at the end |
| MeetingDetails.AddAttendeeAsCalled | src/components/Meeting/MeetingDetails.jsx:622-644 | a suggestion adds its name; the Add button passes its click event, so nothing is posted, the list stays and the input is kept |
| MeetingDetails.AddButtonAddsNothing | src/components/Meeting/MeetingDetails.jsx:639-644 | a new typed name: the button as wired adds nothing, while `addAttendee()` without an argument would post it, append it and clear the input |
| ActionModal.UniqKeyMeaning | src/components/Modals/ActionModal.jsx:35 | the key is the lower-cased, trimmed e-mail when there is one, else the name, else empty; two e-mails differing only in ASCII case give one key |
| ActionModal.UniqKey | src/components/Modals/ActionModal.jsx:35 | a person with neither a truthy e-mail nor a truthy name has the empty key |
| ActionModal.MatchesEmailIsPattern | src/components/Modals/ActionModal.jsx:36 | the one-pass reading accepts a text iff it is `local@domain.tld` with three non-empty parts free of white space and `@` (both directions) |
| ActionModal.MatchesEmailSound | src/components/Modals/ActionModal.jsx:36 | every accepted text splits into the three plain parts around one `@` and a later `.` |
| ActionModal.MatchesEmailComplete | src/components/Modals/ActionModal.jsx:36 | every text of that shape is accepted |
| ActionModal.MatchesEmail | src/components/Modals/ActionModal.jsx:36 | an accepted address has an `@`, a `.` and at least five characters |
| ActionModal.EmailOkOneAt | src/components/Modals/ActionModal.jsx:36 | an accepted address holds exactly one `@`, neither first nor last |
| ActionModal.EmailRefusals | src/components/Modals/ActionModal.jsx:36 | a trimmed text without `@`, without `.`, or with white space inside is refused |
| ActionModal.EmailOk | src/components/Modals/ActionModal.jsx:36 | an accepted address has at least five characters once trimmed |
| ActionModal.Present | src/components/Modals/ActionModal.jsx:39-40 | an entry is kept iff it is present and has a non-empty name or e-mail |
| ActionModal.CandidateListMembers | src/components/Modals/ActionModal.jsx:38-50 | a person is offered iff listed with a name or e-mail, under a trimmed name other than the current assignee's, and (for a non-empty query) their lower-cased name or e-mail contains the lower-cased query; the list is never longer than the directory |
| ActionModal.CandidateList | src/components/Modals/ActionModal.jsx:38-50 | no candidate is the current assignee, and with a non-empty query every candidate mentions it |
| ActionModal.RemoveChip | src/components/Modals/ActionModal.jsx:61-63 | no entry with the removed key is left |
| ActionModal.RemoveChipKeepsDistinct | src/components/Modals/ActionModal.jsx:61-63 | removing a key keeps the remaining keys pairwise distinct |
| ActionModal.ToggleMeaning | src/components/Modals/ActionModal.jsx:52-59 | a held key is dropped entirely and every entry with another key kept; a new key appends the person; distinct keys stay distinct |
| ActionModal.ToggleTwice | src/components/Modals/ActionModal.jsx:52-59 | toggling a new person in and out again restores the selection |
| ActionModal.Toggle | src/components/Modals/ActionModal.jsx:52-59 | the person's key is selected afterwards exactly when it was not before |
| ActionModal.AddCustomPersonRules | src/components/Modals/ActionModal.jsx:65-73 | no alert iff the trimmed name and e-mail are non-empty and the e-mail is valid; with an alert nothing changes, and the "both" alert is shown iff one is blank; otherwise the trimmed pair is toggled, keyed by its e-mail, and both inputs are cleared |
| ActionModal.AddCustomPerson | src/components/Modals/ActionModal.jsx:65-73 | on an alert the selection and both inputs stay as they were; otherwise both trimmed inputs were non-empty and both inputs are cleared |
| ActionModal.HandleSubmitShape | src/components/Modals/ActionModal.jsx:76-106 | a payload goes out iff submit is enabled; it carries the trimmed remark for the four actions, the deadline only for Need Time, the selection only for Reassign and Need Time |
| ActionModal.HandleSubmit | src/components/Modals/ActionModal.jsx:76-106 | nothing is submitted exactly when the submit button is disabled for the kind, the deadline and the selection |
| ActionModal.SubmittedSelectionIsHandedOver | src/components/Modals/ActionModal.jsx:83-101 | the people the dashboard hands a submitted Reassign or Need Time job to are exactly the selection, in order |
| NewMeetingModal.VisibleOptionsSorted | src/components/Meeting/NewMeetingModal.jsx:46-53 | the visible options are in the order of the case-insensitive comparison |
| NewMeetingModal.VisibleOptionsMembers | src/components/Meeting/NewMeetingModal.jsx:46-53 | an option is visible iff it is the trimmed form of a given option, not empty, and (for a non-blank search) its lower-case form contains the trimmed lower-cased search text |
| NewMeetingModal.VisibleOption | src/components/Meeting/NewMeetingModal.jsx:48-51 | one option is visible iff it passes the trimming, emptiness and search tests |
| NewMeetingModal.VisibleOptions | src/components/Meeting/NewMeetingModal.jsx:46-53 | no visible option is blank |
| NewMeetingModal.Collect | src/components/Meeting/NewMeetingModal.jsx:62-76 | one `forEach` appends each non-blank name whose lower-case form was not seen, first spelling first, and marks every such form seen |
| NewMeetingModal.Visit | src/components/Meeting/NewMeetingModal.jsx:63-67 | one visit skips a blank name and pushes a name whose lower-case form is new, keeping the walk's invariant |
| NewMeetingModal.CollectBoth | src/components/Meeting/NewMeetingModal.jsx:57-76 | both walks, over the row names and then the context names, give the walk of the two lists together |
| NewMeetingModal.UniqueMeetingNames | src/components/Meeting/NewMeetingModal.jsx:57-80 | the offered names are the collected names sorted by the case-insensitive comparison |
| NewMeetingModal.WalkSortedDistinct | src/components/Meeting/NewMeetingModal.jsx:79 | the walk's names, sorted, are in order and no two are equal ignoring case |
| NewMeetingModal.WalkFromInput | src/components/Meeting/NewMeetingModal.jsx:63-74 | the walk offers only non-blank trimmed names it was given |
| NewMeetingModal.WalkCovers | src/components/Meeting/NewMeetingModal.jsx:63-74 | every non-blank name given is offered in some casing |
| NewMeetingModal.WalkPrefersRows | src/components/Meeting/NewMeetingModal.jsx:61-76 | a name whose lower-case form a meeting row carries is offered as a row spells it |
| NewMeetingModal.WalkFirstCasing | src/components/Meeting/NewMeetingModal.jsx:65-74 | the first non-blank spelling of each lower-case form is the one offered |
| NewMeetingModal.UniqueMeetingNamesProperties | src/components/Meeting/NewMeetingModal.jsx:57-80 | the offered names are sorted; no two are equal ignoring case; each is a non-blank row or context name; every non-blank row or context name is there in some casing, in the casing it first appears with; a name a meeting row carries is offered as a row spells it |
| NewMeetingModal.ToggleAttendeeMeaning | src/components/Meeting/NewMeetingModal.jsx:173-179 | after a toggle the name is selected iff it was not, every other name is selected iff it was, and toggling a new name twice restores the selection |
| NewMeetingModal.ToggleAttendee | src/components/Meeting/NewMeetingModal.jsx:173-179 | the name is selected afterwards exactly when it was not before |
| NewMeetingModal.RemoveAttendee | src/components/Meeting/NewMeetingModal.jsx:181-183 | a valid index drops exactly that element and keeps the others in order; any other index changes nothing |
| NewMeetingModal.AddAttendeeMeaning | src/components/Meeting/NewMeetingModal.jsx:185-189 | adding selects the name and nothing else, leaves a selection holding it unchanged, and keeps a selection free of duplicates |
| NewMeetingModal.AddAttendee | src/components/Meeting/NewMeetingModal.jsx:185-189 | the name is selected afterwards, the earlier selection is kept as a prefix, and at most one name is added |
| NewMeetingModal.SelectAllVisibleMeaning | src/components/Meeting/NewMeetingModal.jsx:380-390 | checking keeps every selected name and adds every visible one, each once, after which the box reads checked when something is visible; unchecking drops exactly the visible names, after which it reads unchecked |
| NewMeetingModal.SelectAllVisible | src/components/Meeting/NewMeetingModal.jsx:380-390 | checking selects every earlier and every visible name; unchecking leaves exactly the earlier names that are not visible |
| NewMeetingModal.SelectAllVisibleIdempotent | src/components/Meeting/NewMeetingModal.jsx:386-387 | checking the box twice is checking it once; a duplicate-free selection already holding the visible names is left as it is |
| NewMeetingModal.DistinctOfDistinctSuper | src/components/Meeting/NewMeetingModal.jsx:387 | appending values already present to a duplicate-free list and deduplicating gives the list back |
| Text.Trim | backend/index.js:472 | the trim is no longer than the text and neither starts nor ends with a JavaScript white-space character |
| Text.PyStrip | backend/app.py:34 | the strip is no longer than the text and neither starts nor ends with a Python white-space character |
| Text.TrimIdempotent | backend/index.js:472 | trimming twice is trimming once |
| Text.TrimKeepsOut | backend/index.js:472 | trimming adds no character |
| Text.Lower | src/components/Meeting/MeetingDetails.jsx:37 | each character is lower-cased in place; the length is kept |
| Text.LowerIdempotent | src/components/Meeting/MeetingDetails.jsx:37 | lower-casing twice is lower-casing once |
| Text.IndexOf | src/components/Dashboard/MainPage.jsx:145 | -1 exactly when the character is absent; otherwise its first position |
| Text.Split | backend/index.js:472 | splitting always gives at least one piece, and no piece holds the separator |
| Text.TrimAll | backend/index.js:472 | each piece trimmed, one for one |
| Text.NonEmpty | src/components/Reports/ReportDownloadHover.jsx:73 | exactly the non-empty pieces are kept |
| Text.TrimmedNonEmpty | src/components/Meeting/MeetingDetails.jsx:116 | a text is among the cleaned pieces iff it is non-empty and the trim of some raw piece |
| Text.SplitJoinRoundTrip | backend/index.js:472-475 | joining trimmed, comma-free pieces with `", "`, splitting at commas and trimming gives the pieces back |
| Text.DigitRuns | backend/index.js:725 | every run is a non-empty string of digits |
| Text.NatToString | backend/index.js:715 | a non-empty string of digits with no leading zero for a positive number |
| Text.Pad2 | backend/index.js:715 | a non-empty string of digits |
| Text.NatToStringValue | backend/index.js:715 | reading back the decimal text of a number gives the number |
| Text.Pad2Value | backend/index.js:715 | reading back a padded number gives the number |
| Seqs.SortBy | backend/index.js:801-802 | sorting is a permutation of its input |
| Seqs.SortBySorted | backend/index.js:801-802 | with a total preorder the result is in comparator order |
| Seqs.SortBySortedInput | backend/index.js:801-802 | an input already in order is left as it is: the sort is stable |
| Seqs.SortByMembers | backend/index.js:801-802 | sorting keeps exactly the elements it was given |
| Seqs.SortByReverses | backend/index.js:645 | when no element may precede a later one, the stable sort reverses the sequence |
| Seqs.Filter | src/components/Dashboard/MainPage.jsx:380 | filtering keeps exactly the elements that pass, and never lengthens |
| Seqs.Distinct | src/components/Dashboard/MainPage.jsx:380 | each value once, exactly the values of the input |
| Seqs.DistinctSnoc | backend/index.js:742-746 | one more value is kept at the end exactly when it is new |
| Seqs.DistinctByFrom | src/components/Meeting/MeetingDetails.jsx:37-45 | the kept elements come from the input, have keys not yet seen, and have pairwise different keys |
| Seqs.DistinctByFromFirst | src/components/Meeting/MeetingDetails.jsx:37-45 | the first element carrying an unseen key is kept |
| Seqs.DistinctByFromCovers | src/components/Meeting/MeetingDetails.jsx:37-45 | no unseen key is lost |
| Seqs.Take | src/components/Meeting/MeetingDetails.jsx:109 | a prefix of at most the given length, the whole sequence when it is short enough |
| Seqs.StrLeTotalPreorder | backend/index.js:806 | the character order is a total preorder, so sorting by it is well defined |
| Seqs.SortedStrictly | backend/index.js:806 | distinct strings sorted by character are strictly increasing |
| Seqs.NoDuplicatesPermutation | backend/index.js:801 | a permutation of a duplicate-free sequence is duplicate-free |

## Left out

- HTTP and storage plumbing is not modelled. This covers Express routing, request parsing, response bodies and messages, the PostgreSQL and SQLite pools, multer uploads, static serving, CORS and server.js. A handler's answer is modelled as a status, with the result value where the caller reads one. Tables are in-memory maps and sequences.
- A database error is modelled as a boolean or a set of failing rows only where a handler branches on it: attendee add, both `update-status` handlers, the PostgreSQL batch insert, the attendance summary and the import rows. In the SQLite batch insert a rejected `stmt.run` has no callback; its error is an `'error'` event nobody handles, so the model ends the request there with no answer and no later row. What the unhandled event then does to the server process is not modelled.
- MomStore.MomTable.DeadlineHistory: does not model the 500 answer when its query fails (backend/index.js:651-653). It returns the 404 and the sorted history only.
- The CSV stream is not modelled. The import receives the parsed rows, and its asynchronous `data` handlers are taken to run one after another. The model does not say whether a response is sent after `stream.destroy()` for missing headers. It answers with that one error.
- UserImport.UserTable.Import: does not model the 500 answer when `BEGIN` or the connection fails (backend/index.js:298-305).
- UserImport.UpsertOne: a statement that PostgreSQL rejects is taken to draw no serial value. The set of rejected rows is a parameter, and where in a statement the failure happens is not modelled. MomStore.MomTable.InsertBatch makes the same assumption for the failing INSERT.
- DateKeys.DigitNumbers: a digit run is read as its exact value, while `Number()` rounds a value of 2^53 or more to a double. Text.NatToString likewise prints the exact value where `String()` prints the rounded one, in exponent form from 10^21 on. Only a year that large is affected; its date is invalid, so the intended window check drops it, while the as-written summary keeps it under a key spelled differently from the model's.
- NoteColors.ResolveColor: a colour is a text or missing. A stored colour of another JSON type (a number, an object) is not modelled.
- Report.GenerateReport: with the month input cleared, `''.split('-').map(Number)` gives year 0 and no month, `new Date(0, undefined, 0)` is an Invalid Date and the day count is NaN, so no day loop runs. The model takes a day count of 0 for a missing month and does not model the NaN itself.
- The older backend's import handler (backend/index_backup_code_file.js:198-275) is not modelled separately. Its column and row rules are those of `UserImport`.
- Mail is not modelled: `sendMail`, mailServer.js, and the mails `handleFinalAction` sends.
- JavaScript `Date` is not modelled. Parsing free text (`parseDateLoose`, the `new Date(text)` fallback of `toISODate`, meeting timestamps), time zones and the clock are parameters. Dates built from numbers follow ECMAScript's day arithmetic in local time (`Calendar`).
- JSON text is not modelled. `present_by_date` and `deadline_history` are stored as the values they encode, and a `JSON.parse` that throws on malformed text is not modelled.
- Text.Lower: lower-cases ASCII letters only. Non-ASCII case mapping of `toLowerCase` is not modelled.
- `localeCompare` with base sensitivity is an abstract total preorder `le`, not Unicode collation. The properties that hold for any total preorder are proved. Where the source sorts with the default comparator, the model uses lexicographic order on characters (`Seqs.StrLe`). It is the UTF-16 code-unit order of that comparator for text within the Basic Multilingual Plane; for a character beyond that plane against one from U+E000 to U+FFFF the two orders disagree, and the model does not follow the code units there.
- Report.PctRounds: the percentage is the exact rational `100 * present / held` rounded half up. IEEE double division and `Math.round` are not modelled.
- Floating-point colour and geometry code is not modelled (`calculateCardVisual`, `useClampedPopover`).
- Rendering is not modelled: React rendering and hooks, animations, and drawing the PDF and XLSX files. State updaters such as `setSelected(prev => …)` are functions from the old value to the new one.
- Authentication and its plumbing are not modelled: Login.jsx, Register.jsx, the auth and meeting contexts, the plaintext password check, App.jsx routes, vite.config.js and backend/models.py (a schema only).
- Concurrent requests and last-write-wins behaviour between them are not modelled.

## Findings

| source | as written | input that shows it | evidently intended | confidence | as-written member | corrected member |
|---|---|---|---|---|---|---|
| backend/index.js:767-769 | the month window rejects a date only when `dt < monthStart \|\| dt > monthEnd`. An Invalid Date compares false both ways, so it is kept | raw key `300000-01-15`: it normalises (year after 1900), but `new Date(300000, 0, 15)` is invalid, and the key is kept in every month's summary | keep a key only when its date is valid and inside the window | high (not executed) | AttendanceDates.InvalidDatePassesAsWritten | AttendanceDates.KeepKey, AttendanceSummary.AddEntry, AttendanceSummary.AddEntries, AttendanceSummary.FillDate, AttendanceSummary.Summarize, AttendanceSummary.SummaryProperties |
| src/components/Dashboard/MainPage.jsx:176,196 | groups are keyed by the normalised fields joined with `\|` | job `a\|b` due `c` and job `a` due `b\|c`: different jobs, one group. The merged view fails the same way with meeting `a\|b`, job `c` and meeting `a`, job `b\|c` | rows with different normalised fields never share a group | medium (not executed) | Grouping.PlainKeyAsWrittenCollides, Grouping.MergedKeyAsWrittenCollides | Grouping.GroupMomRows, Grouping.GroupMergedMomRows |
| src/components/Meeting/MeetingDetails.jsx:277-283 | the submit dedupe keys each entry by its six fields joined with `\|` | entry name `a\|b`, job `c` and entry name `a`, job `b\|c`, other fields empty: the second is dropped | keep the first of each identical (name, job, deadline, remark, assignedBy, category) | medium (not executed) | MeetingDetails.DedupeAsWrittenDropsEntry | MeetingDetails.SubmittedProperties, MeetingDetails.SubmittedEntries, MeetingDetails.DedupeEntries |
| src/components/Dashboard/MainPage.jsx:433-434 | the assigned-jobs index is keyed by meeting id, normalised job and normalised deadline joined with `\|`, and looked up the same way at lines 1463-1464 | two jobs of one meeting, job `a\|b` due `c` and job `a` due `b\|c`: one index key, so each shows the other's severity | look a job up by the (meeting, job, deadline) triple | medium (not executed) | AssignedJobs.IndexKeyAsWrittenCollides | AssignedJobs.EntriesOf, AssignedJobs.GroupIndex, AssignedJobs.Overall |
| src/components/Meeting/MeetingDetails.jsx:639-644 | the Add button is wired as `onClick={addAttendee}`, so `addAttendee` receives the click event as `nameOverride` and `(nameOverride ?? newAttendee).trim()` throws | any new name typed in the input, then a click on Add Attendee: nothing is posted or added | `onClick={() => addAttendee()}`, adding the typed name | high (not executed) | MeetingDetails.AddAttendeeAsCalled, MeetingDetails.AddButtonAddsNothing | MeetingDetails.AddAttendee, MeetingDetails.AddAttendeeProperties |
