# Habbits-Tracker in Dafny

A Dafny model of the data layer and the small pieces of logic of the
Habbits-Tracker web application. The application tracks daily habits: each
habit has a daily target ("need"), and the progress of every habit on a day is
kept in a *daily snapshot*. The model covers:

- **The local store** (`services/apiLocalStorage.ts`, `api.ts`). It keeps the
  habit list and a date-ordered list of daily snapshots. The model covers
  upserting a snapshot in place, creating today's snapshot on demand, filling in
  missing days, the count edits, deletion, and re-initialisation. It is the
  class `LocalStorage.LocalStore`; the specification functions and their lemmas
  are in `DailySnapshots` and `HabitList`.
- **The spreadsheet codec** (`app/hooks/useGoogle.ts` and its near-identical
  copy `hooks/useGoogle.ts`). `SheetParse` models reading a "Date" × habit grid
  of `did/need` cells into habits and snapshots. `SheetBuild` models writing
  habits and snapshots into such a grid. `SheetRoundTrip` proves the grid's
  shape and that reading back what was written recovers every cell.
- **The sync trigger** (`syncManager.ts`). It holds one optional registered
  sync function. Wrappers around the store operations decide when to call it;
  each call is recorded in a log.
- **The Redux slices** (`habitsSlice.ts`, `notesSlice.ts`). These are lists with
  set, append and replace-by-id, plus selectors.
- **Component logic**: the home page's daily reset and handlers
  (`app/page.tsx`); the habit button's colour hash, subtitle and edit validation
  (`HabbitButton.tsx`); the new-habit form (`AddHabbit.tsx`); and the two
  history views.

The two copies of the spreadsheet hook hold the same parsing and
table-building code. In `hooks/useGoogle.ts` the parser is at lines 43-116
and the table building at lines 389-446. The rows below cite the copy in
`app/hooks/useGoogle.ts`, and each member models both copies.

Dates in the store are day numbers (`Day = int`). "Today" is a parameter. The
spreadsheet codec keeps dates as the text of the date column. Generated ids
are inputs.

## Model

| member | source | states |
|---|---|---|
| LocalStorage.LocalStore.constructor | services/apiLocalStorage.ts:90-98 | with nothing stored, both lists read as empty (so the snapshots are sorted) |
| LocalStorage.LocalStore.AddHabit | services/apiLocalStorage.ts:13-41 | returns true exactly when no stored habit has the id; the list becomes `Added` (unchanged on a clash, else the habit appended last); snapshots untouched |
| HabitList.HasId | services/apiLocalStorage.ts:21-28 | true exactly when some habit in the list has the id |
| HabitList.AddedSpec | services/apiLocalStorage.ts:21-36 | adding keeps ids unique, makes the id present, never rewrites the existing prefix, appends when the id is new, and a repeated add changes nothing |
| LocalStorage.LocalStore.GetHabits | services/apiLocalStorage.ts:44-52 | returns the stored habit list |
| LocalStorage.LocalStore.GetHabit | services/apiLocalStorage.ts:54-64 | returns a habit exactly when one has the id; it is the first such habit |
| LocalStorage.LocalStore.UpdateHabit | services/apiLocalStorage.ts:66-72 | every stored habit with the id is replaced; snapshots untouched |
| HabitList.UpdatedSpec | services/apiLocalStorage.ts:66-72 | after an update, reading the id gives the new habit exactly when it was stored; length kept; idempotent; ids stay unique |
| LocalStorage.LocalStore.SaveDailySnapshot | services/apiLocalStorage.ts:105-144 | the for-loop's result equals `Upserted`: replaced at the first index whose date is not earlier, inserted there when that date differs, appended when none; habits untouched; a date-sorted store stays sorted |
| DailySnapshots.SlotSpec | services/apiLocalStorage.ts:116-132 | the index the loop stops at: every earlier snapshot has an earlier date, the one there (if any) has a date at least as late |
| DailySnapshots.Upserted | services/apiLocalStorage.ts:105-144 | the saved list; no contract of its own, its meaning is stated by `UpsertAtDate`, `UpsertMembers`, `UpsertLength` and `UpsertSorted` |
| DailySnapshots.SlotAt | services/apiLocalStorage.ts:116-132 | any index with those two properties is the slot |
| DailySnapshots.UpsertSorted | services/apiLocalStorage.ts:105-144 | a strictly date-ascending list stays strictly ascending (hence date-unique) after a save |
| DailySnapshots.UpsertAtDate | services/apiLocalStorage.ts:105-144 | on a sorted list, after saving `s` the date of `s` reads as `s` and every other date reads as before |
| DailySnapshots.UpsertLength | services/apiLocalStorage.ts:116-132 | on a sorted list the length is unchanged when the date was stored and grows by one otherwise |
| DailySnapshots.UpsertMembers | services/apiLocalStorage.ts:116-132 | on any list, sorted or not, the saved snapshot is present and every snapshot of another date is kept, nothing else added |
| DailySnapshots.UpsertIdempotent | services/apiLocalStorage.ts:105-144 | saving the same snapshot twice equals saving it once, on any list |
| DailySnapshots.SortedAtDate | services/apiLocalStorage.ts:152 | on a sorted list the date lookup finds the snapshot of that date, or nothing when the date is absent |
| DailySnapshots.SortedAtDateIff | services/apiLocalStorage.ts:152 | on a sorted list the lookup gives `x` exactly when `x` is stored with that date |
| DailySnapshots.LatestIndex | services/apiLocalStorage.ts:164-166 | the first element of the descending stable sort: the latest date, earliest position among ties |
| DailySnapshots.SortedLatest | services/apiLocalStorage.ts:164-166 | on a sorted list the latest snapshot is the last one |
| DailySnapshots.ResetCounts | services/apiLocalStorage.ts:170-174 | the copied entries have the same length as the template |
| DailySnapshots.TodaySnapshot | services/apiLocalStorage.ts:149-183 | the snapshot getTodaySnapshot returns; no contract of its own, its meaning is stated by `TodaySnapshotCreated`, `GetTodayStable` and `SortedAtDate` |
| LocalStorage.LocalStore.GetTodaySnapshot | services/apiLocalStorage.ts:149-183 | returns `TodaySnapshot` and leaves the store as `AfterGetToday`: unchanged when today is stored, else with the new snapshot saved |
| DailySnapshots.TodaySnapshotCreated | services/apiLocalStorage.ts:154-180 | without a snapshot for today: an empty one for an empty store, else the latest snapshot's ids and targets in order with done count 0; one snapshot is added |
| DailySnapshots.GetTodayStable | services/apiLocalStorage.ts:149-183 | afterwards today is stored as the returned snapshot, and asking again returns it and changes nothing |
| DailySnapshots.GetTodaySorted | services/apiLocalStorage.ts:149-183 | creating today's snapshot keeps a sorted store sorted |
| DailySnapshots.GetTodayReady | services/apiLocalStorage.ts:149-183 | after getTodaySnapshot a sorted store is sorted and holds a snapshot dated today |
| DailySnapshots.SecondLatest | services/apiLocalStorage.ts:198-201 | the second element of the descending stable sort; no contract of its own, stated by `SortedSecondLatest` |
| DailySnapshots.SortedSecondLatest | services/apiLocalStorage.ts:198-201 | on a sorted list the second element of the descending sort is the next-to-last snapshot |
| DailySnapshots.Run | services/apiLocalStorage.ts:206-222 | the days `lo` up to but excluding `hi`, each with the template entries |
| DailySnapshots.BackfilledSorted | services/apiLocalStorage.ts:206-222 | saving the snapshots of any run of days keeps a sorted list sorted |
| LocalStorage.LocalStore.Backfill | services/apiLocalStorage.ts:203-222 | the while-loop saves one snapshot per day from `from` up to but excluding `to` |
| LocalStorage.LocalStore.FillHistory | services/apiLocalStorage.ts:189-224 | the store becomes `AfterFillHistory`: today's snapshot made sure of, then the gap after the second latest date filled |
| DailySnapshots.AfterFillHistory | services/apiLocalStorage.ts:189-224 | the store after fillHistory; no contract of its own, its meaning is stated by `FillHistoryShape`, `FillHistoryComplete` and `FillHistoryIdempotent` |
| DailySnapshots.BackfillInserts | services/apiLocalStorage.ts:206-222 | saving the days of a gap before the last snapshot inserts exactly that run just before it |
| DailySnapshots.FillHistoryShape | services/apiLocalStorage.ts:189-224 | the result has the shape `BackfillShape` names: on a sorted store it is sorted; when the second latest date is more than a day before today, the missing days are inserted just before today's snapshot with that snapshot's entries at done 0; otherwise nothing beyond getTodaySnapshot changes |
| DailySnapshots.GapFilledShape | services/apiLocalStorage.ts:198-222 | on a sorted list holding today, the gap-filling loop inserts the missing days before today's snapshot when the second latest date is more than a day back, and changes nothing otherwise |
| DailySnapshots.FillHistoryComplete | services/apiLocalStorage.ts:198-222 | every day strictly between the second latest date and today reads as that snapshot's entries with done 0; every other day reads as after getTodaySnapshot |
| DailySnapshots.FillHistoryIdempotent | services/apiLocalStorage.ts:189-224 | a second fillHistory with the same today changes nothing |
| DailySnapshots.GapFilledNoGap | services/apiLocalStorage.ts:198-206 | a sorted list without a gap before its last snapshot is left alone |
| DailySnapshots.TodayIsLast | services/apiLocalStorage.ts:198-206 | in a sorted list holding today whose next-to-last date is before today, today's snapshot is last |
| DailySnapshots.SpliceSorted | services/apiLocalStorage.ts:206-222 | inserting the run of missing days before the last snapshot keeps the list sorted |
| DailySnapshots.SpliceAtDate | services/apiLocalStorage.ts:206-222 | after the insertion each filled day reads as its new snapshot and every other day as before |
| LocalStorage.LocalStore.GetDailySnapshots | services/apiLocalStorage.ts:100-103 | runs fillHistory and returns the resulting list |
| LocalStorage.LocalStore.DeleteHabbit | services/apiLocalStorage.ts:77-85 | today's snapshot is saved without the habit's entries; the habit list is untouched; a date-sorted store stays sorted |
| DailySnapshots.Without | services/apiLocalStorage.ts:79 | deleteHabbit's filter; no contract of its own, stated by `WithoutSpec` |
| DailySnapshots.WithoutSpec | services/apiLocalStorage.ts:79 | an entry is kept exactly when it was there and belongs to another habit |
| DailySnapshots.TodayEditInPlace | services/apiLocalStorage.ts:77-85 | on a sorted store an edit of today replaces today's snapshot in place: same length, every other day untouched, still sorted |
| LocalStorage.LocalStore.GetCurrentNeedCount | services/apiLocalStorage.ts:229-234 | reads the target of the habit's first entry in today's snapshot, 1 when missing or 0; a date-sorted store stays sorted |
| DailySnapshots.CurrentNeed | services/apiLocalStorage.ts:229-234 | the reading is never 0 |
| LocalStorage.LocalStore.GetCurrentActualCount | services/apiLocalStorage.ts:239-246 | reads the done count of the habit's first entry in today's snapshot, 0 when missing; a date-sorted store stays sorted |
| LocalStorage.LocalStore.UpdateHabitCount | services/apiLocalStorage.ts:251-271 | today's snapshot is saved with the done count of the habit's first entry set; a date-sorted store stays sorted |
| LocalStorage.LocalStore.UpdateHabitNeedCount | services/apiLocalStorage.ts:276-295 | today's snapshot is saved with the target of the habit's first entry set; a date-sorted store stays sorted |
| DailySnapshots.WithCountsSpec | services/apiLocalStorage.ts:259-264 | only the one field of the first matching entry changes, with no clamping; an unknown id changes nothing |
| DailySnapshots.CountsReadBack | services/apiLocalStorage.ts:229-295 | the readers see the edits: the new done count when the habit has an entry; the new target unless 0; each edit leaves the other reading alone |
| LocalStorage.LocalStore.InitializeHabitsLocalStorage | services/apiLocalStorage.ts:300-322 | both lists cleared, then every habit added and every snapshot saved in input order; the snapshots end strictly sorted by date |
| HabitList.AddedAllSpec | services/apiLocalStorage.ts:309-311 | re-initialised habits have unique ids and every input id is present |
| HabitList.AddedAllFirstWins | services/apiLocalStorage.ts:309-311 | for a repeated id the first habit with it is the one kept |
| DailySnapshots.SavedAllSpec | services/apiLocalStorage.ts:314-316 | re-initialised snapshots are strictly sorted by date, and each date reads as its last write, whatever the input order |
| Api.AddHabit | api.ts:11-37 | returns false and leaves the list unchanged when the id is stored; else appends the habit last and returns true |
| Api.GetHabits | api.ts:40-47 | returns the stored list (empty when nothing is stored) |
| SyncManager.Syncer.constructor | syncManager.ts:16 | no sync function registered and no sync made |
| SyncManager.Syncer.Fired | syncManager.ts:35-41 | one call of the registered function when there is one and auto sync is on, none otherwise |
| SyncManager.Syncer.RegisterSyncFunction | syncManager.ts:21-23 | the new function replaces any earlier one |
| SyncManager.Syncer.UnregisterSyncFunction | syncManager.ts:28-30 | no function stays registered, so no later wrapper call syncs |
| SyncManager.Syncer.TriggerSync | syncManager.ts:35-41 | appends exactly what `Fired` gives to the sync log |
| SyncManager.Syncer.AddHabit | syncManager.ts:46-54 | does the store's addHabit, returns its result unchanged, and syncs only when it is true |
| SyncManager.Syncer.UpdateHabit | syncManager.ts:56-61 | does the store's updateHabit, then always syncs |
| SyncManager.Syncer.DeleteHabbit | syncManager.ts:63-68 | does the store's deleteHabbit, then always syncs |
| SyncManager.Syncer.UpdateHabitCount | syncManager.ts:70-78 | does the store's updateHabitCount and syncs when it returns true |
| SyncManager.Syncer.UpdateHabitNeedCount | syncManager.ts:80-88 | does the store's updateHabitNeedCount and syncs when it returns true |
| SyncManager.Syncer.GetHabits | syncManager.ts:90-96 | returns the stored habits and never syncs |
| SyncManager.Syncer.GetTodaySnapshot | syncManager.ts:98-107 | does the store's getTodaySnapshot and syncs, since a snapshot is always returned |
| SyncManager.Syncer.SaveDailySnapshot | syncManager.ts:109-117 | does the store's saveDailySnapshot and syncs when it returns true |
| SheetParse.ParseCellSpec | app/hooks/useGoogle.ts:90 | a cell is read exactly when it is digits, one "/", digits, and then as did = the first number, need = the second |
| SheetParse.ParseCell | app/hooks/useGoogle.ts:90 | the `/^(\d+)\/(\d+)$/` match; no contract of its own, stated by `ParseCellSpec` and `ParseProgressText` |
| SheetParse.ParseProgressText | app/hooks/useGoogle.ts:90 | the text `did/need` reads back as (did, need) for natural counts, and is rejected when a count is negative |
| SheetParse.ProgressTextParts | app/hooks/useGoogle.ts:90 | the text `did/need` is the did digits, the first "/", then the need digits |
| SheetParse.CellEntrySpec | app/hooks/useGoogle.ts:88-101 | a cell yields one entry exactly when it reads, with the column's id, need and did |
| SheetParse.HabitEnd | app/hooks/useGoogle.ts:85 | the inner loop stops at the row's end or after the header's last habit column, whichever comes first |
| SheetParse.RowEntries | app/hooks/useGoogle.ts:85-101 | the inner loop yields the entries of the readable habit cells, in column order |
| SheetParse.ParsedRowsAppend | app/hooks/useGoogle.ts:72-108 | one more row adds its snapshot at the end exactly when it is a data row |
| SheetParse.ParseSpreadsheetDataToHabits | app/hooks/useGoogle.ts:45-118 | the loops compute `ParsedTable` |
| SheetParse.ParsedTable | app/hooks/useGoogle.ts:55-108 | the habits and snapshots the parser returns; no contract of its own, stated by `ParsedTableSpec` and `ParsedRowsAppend` |
| SheetParse.ParsedTableSpec | app/hooks/useGoogle.ts:55-108 | no habit column gives nothing; else one habit per column in order with the header text and the next fresh id, and one snapshot per data row (non-empty date) in row order, the k-th read from the k-th data row |
| SheetParse.ExtraCellsIgnored | app/hooks/useGoogle.ts:85 | cells beyond the header width do not change a row's snapshot |
| SheetBuild.NameOf | app/hooks/useGoogle.ts:439-442 | the id-to-text map: nothing exactly when no habit has the id, else the text of a habit with it (which one is stated by `NameOfLast`) |
| SheetBuild.NameOfLast | app/hooks/useGoogle.ts:439-442 | later `set` calls win: the text read for an id is that of the last habit with it |
| SheetBuild.HabitIdToName | app/hooks/useGoogle.ts:439-442 | the loop builds a map whose lookups are `NameOf` |
| Text.SortDistinct | app/hooks/useGoogle.ts:445-447 | `Array.from(new Set(xs)).sort()`: strictly ascending, and holds exactly the elements of the input |
| SheetBuild.HabitNames | app/hooks/useGoogle.ts:445-447 | the header names are strictly ascending and are exactly the habit texts |
| SheetBuild.SnapshotDates | app/hooks/useGoogle.ts:475 | the row dates are strictly ascending and are exactly the snapshot dates |
| SheetBuild.LastInDay | app/hooks/useGoogle.ts:463-470 | within one snapshot, the entry written under a column: one that maps there, nothing exactly when none does (which one is stated by `LastInDayLast`) |
| SheetBuild.LastInDayLast | app/hooks/useGoogle.ts:463-470 | within one snapshot the later entry wins: when entry j is the last that maps to the column, it is the one written |
| SheetBuild.LastInDayWritten | app/hooks/useGoogle.ts:463-470 | the entry written under a column is the last entry of the snapshot that maps there |
| SheetBuild.LastEntry | app/hooks/useGoogle.ts:454-471 | across snapshots of one date, the entry a column ends up with maps to that column and comes from a snapshot of that date; nothing exactly when no such entry exists (which one is stated by `LastEntryLast`) |
| SheetBuild.LastEntryLast | app/hooks/useGoogle.ts:454-471 | the later write wins across snapshots and entries: the last entry of that date mapping to the column, in snapshot then entry order, is the one kept |
| SheetBuild.LastEntryWritten | app/hooks/useGoogle.ts:454-471 | the entry a column keeps is the last write to it, in snapshot then entry order |
| SheetBuild.WriteDay | app/hooks/useGoogle.ts:456-471 | writing one snapshot's entries sets the cell of each column an entry maps to and leaves the others |
| SheetBuild.DateListStep | app/hooks/useGoogle.ts:454-458 | loop-proof step: the dates listed for one more snapshot are those before plus its date |
| SheetBuild.LastEntryStep | app/hooks/useGoogle.ts:454-471 | loop-proof step: one more snapshot changes a column's last entry only when it has that date and writes that column |
| SheetBuild.DayDataStep | app/hooks/useGoogle.ts:456-471 | loop-proof step: one iteration of the snapshot loop keeps every cell equal to the text of its column's last entry so far |
| SheetBuild.CollectDateData | app/hooks/useGoogle.ts:454-471 | the date map has exactly the snapshot dates, and each cell text is that of the column's last entry |
| SheetBuild.SortedKeysAreDates | app/hooks/useGoogle.ts:475 | sorting the date keys gives the ascending distinct dates |
| SheetBuild.DataRow | app/hooks/useGoogle.ts:477-487 | a row is as wide as the header and starts with its date |
| SheetBuild.BuildRow | app/hooks/useGoogle.ts:478-486 | the row loop gives the date then one cell per name, "" where nothing was written |
| SheetBuild.DataRowOf | app/hooks/useGoogle.ts:478-486 | the cells the row loop collects, after the date, are the data row of that date |
| SheetBuild.BuildSheetRows | app/hooks/useGoogle.ts:433-490 | the table-building block computes `SheetRows` |
| SheetBuild.SheetRows | app/hooks/useGoogle.ts:433-490 | the table the block writes; no contract of its own, stated by `SheetRowsShape` and `WrittenGrid` |
| SheetRoundTrip.WrittenGrid | app/hooks/useGoogle.ts:433-490 | nothing exactly when there are no habits and no snapshots; else the header row then one data row per sorted date |
| SheetRoundTrip.SheetRowsShape | app/hooks/useGoogle.ts:433-490 | nothing is written exactly when habits and snapshots are both empty; the header is "Date" plus the sorted distinct texts; one row per distinct date in ascending order, each as wide as the header |
| SheetRoundTrip.CellMeaning | app/hooks/useGoogle.ts:454-487 | a cell is "" exactly when no entry of that date maps to its column, else the `did/need` text of the last entry written there, later snapshots and later entries winning |
| SheetRoundTrip.ReadCells | app/hooks/useGoogle.ts:90-100 | reading written cells gives, column by column, the written (need, did) with that column's id |
| SheetRoundTrip.ReadWrittenRow | app/hooks/useGoogle.ts:72-101 | a row of written cells reads back as a snapshot of its date holding each written entry under its column's id |
| SheetRoundTrip.ParseDataRows | app/hooks/useGoogle.ts:64-107 | a header of names over data rows parses into one habit per name and one snapshot per row |
| SheetRoundTrip.ReadRow | app/hooks/useGoogle.ts:467 | a written row reads back as its date and the entries written in its columns |
| SheetRoundTrip.RowCells | app/hooks/useGoogle.ts:477-487 | the habit cells of a written row are the texts of its columns' entries, with natural counts |
| SheetRoundTrip.RoundTrip | app/hooks/useGoogle.ts:467 | with at least one habit, non-empty dates and natural counts, parsing the written grid gives one habit per name and one snapshot per date, each holding the (did, need) written in each non-empty cell |
| HabitsSlice.HabitsState.constructor | src/lib/features/habitsAndNotes/habitsSlice.ts:9-11 | the initial state has no items |
| HabitsSlice.HabitsState.SetHabits | src/lib/features/habitsAndNotes/habitsSlice.ts:17-19 | the payload replaces the items |
| HabitsSlice.HabitsState.AddHabit | src/lib/features/habitsAndNotes/habitsSlice.ts:20-22 | the payload is appended last, length +1, no duplicate check |
| HabitsSlice.HabitsState.UpdateHabit | src/lib/features/habitsAndNotes/habitsSlice.ts:23-30 | the first item with the payload's id is replaced |
| HabitsSlice.UpdateHabitSpec | src/lib/features/habitsAndNotes/habitsSlice.ts:23-30 | only the first id match changes; length kept; a no-op without a match; selecting the id afterwards gives the payload; applying twice equals once |
| HabitsSlice.HabitsState.SelectAll | src/lib/features/habitsAndNotes/habitsSlice.ts:37 | returns the items |
| HabitsSlice.HabitsState.SelectById | src/lib/features/habitsAndNotes/habitsSlice.ts:38-39 | the first item with the id, nothing exactly when no item has it |
| NotesSlice.NotesState.constructor | src/lib/features/habitsAndNotes/notesSlice.ts:9-11 | the initial state has no notes |
| NotesSlice.NotesState.SetNotes | src/lib/features/habitsAndNotes/notesSlice.ts:17-19 | the payload replaces the notes |
| NotesSlice.NotesState.AddNote | src/lib/features/habitsAndNotes/notesSlice.ts:20-22 | the payload is appended last, length +1, no duplicate check |
| NotesSlice.NotesState.UpdateNote | src/lib/features/habitsAndNotes/notesSlice.ts:23-30 | the first note with the payload's id is replaced |
| NotesSlice.UpdateNoteSpec | src/lib/features/habitsAndNotes/notesSlice.ts:23-30 | only the first id match changes; length kept; a no-op without a match; selecting the id afterwards gives the payload; applying twice equals once |
| NotesSlice.NotesState.SelectAll | src/lib/features/habitsAndNotes/notesSlice.ts:37 | returns the notes |
| NotesSlice.NotesState.SelectById | src/lib/features/habitsAndNotes/notesSlice.ts:38-39 | the first note with the id, nothing exactly when no note has it |
| HomePage.Home.constructor | app/page.tsx:18 | the page starts with no habits and no storage calls |
| HomePage.Home.SetTodaysHabbits | app/page.tsx:22-45 | shows `LoadedHabits` and makes the reset-date and write-back calls of `LoadCalls` |
| HomePage.LoadCalls | app/page.tsx:28-44 | the reset-date and write-back calls of the load; no contract of its own, stated by `LoadedHabitsSpec` |
| HomePage.LoadedHabits | app/page.tsx:28-44 | the habits shown after the daily reset; no contract of its own, stated by `LoadedHabitsSpec` |
| HomePage.LoadedHabitsSpec | app/page.tsx:28-44 | without a reset date or with today's, the habits are kept; otherwise each count becomes 0 and nothing else changes; the calls are none exactly when the reset date is today, and otherwise end by recording today |
| HomePage.Home.HandleAdd | app/page.tsx:49-57 | the habit is shown last and sent to the API |
| HomePage.Home.HandleIncrement | app/page.tsx:59-94 | an unknown id changes nothing; else every habit with the id becomes the first one incremented, which is sent to the API |
| HomePage.Incremented | app/page.tsx:65-80 | the habit after one increment; no contract of its own, stated by `IncrementedSpec` |
| HomePage.IncrementedSpec | app/page.tsx:65-80 | the count becomes min(target, count + 1): never above the target, fixed at it, else one up; today's history entry holds the new count |
| HomePage.RecordedSpec | app/page.tsx:70-80 | today's first entry is rewritten in place when present, else exactly one is appended; it then holds the count; recording again changes nothing |
| HomePage.IncrementListSpec | app/page.tsx:82 | the list keeps its length, other ids are untouched, and the id reads as the incremented habit |
| HomePage.Home.HandleDelete | app/page.tsx:96-104 | the habits with the id are dropped and the deletion is sent to the API |
| HomePage.DeletedSpec | app/page.tsx:97 | exactly the habits with other ids remain, in order; a no-op without a match; idempotent |
| HomePage.Home.HandleEdit | app/page.tsx:106-118 | every habit with the id is replaced by the edited habit, which is sent to the API |
| HomePage.EditedSpec | app/page.tsx:107 | length kept, other ids untouched, the id reads as the edited habit when it was shown, idempotent |
| HabbitButton.ToInt32 | app/components/HabbitButton.tsx:11 | the 32-bit two's-complement value congruent to the input |
| HabbitButton.Hash | app/components/HabbitButton.tsx:7-12 | the hash loop's result, on exact integers; no contract of its own, stated by `HashPrefix` and `HashStepSpec` |
| HabbitButton.HashPrefix | app/components/HabbitButton.tsx:9-11 | the hash of a prefix one character longer is one more loop step |
| HabbitButton.HashStepSpec | app/components/HabbitButton.tsx:11 | the shift result is a 32-bit value congruent to 32 × hash; without wrap a step is 31 × hash + character code |
| HabbitButton.Hue | app/components/HabbitButton.tsx:15 | the hue lies in [0, 360) and is 0 for an empty id |
| HabbitButton.HslText | app/components/HabbitButton.tsx:18 | the template text `hsl(hue, 80%, 94%)`; no contract of its own, used by `GetPastelColorFromId` |
| HabbitButton.GetPastelColorFromId | app/components/HabbitButton.tsx:7-19 | the loop computes the hash fold, and the colour is that of the hue in [0, 360) |
| HabbitButton.Subtitle | app/components/HabbitButton.tsx:38 | the subtitle `current/need` reads back as (current, need) |
| HabbitButton.CompletedAfterIncrement | app/components/HabbitButton.tsx:39 | when the button is given the habit's own counts: after an increment it shows as completed exactly when the count had come within one of the target |
| HabbitButton.SubmitEdit | app/components/HabbitButton.tsx:53-102 | an accepted edit clears the form and keeps the id with a positive target; a rejected one keeps every input and the modal, changing error lines only |
| HabbitButton.SubmitEditSpec | app/components/HabbitButton.tsx:53-102 | onEdit is called exactly when need is digits in (0, 1e6), current is digits below 1e6 and at most need, and the text has 1 to 1000 UTF-16 code units; the call has the same id, the trimmed text and the parsed counts; the form is then cleared; a rejection sets the first failing field's error, "Enter a valid text" when only the text fails |
| HabbitButton.BlankNameAccepted | app/components/HabbitButton.tsx:82-90 | a name of blanks only passes and is saved as the empty text |
| Text.Trim | app/components/HabbitButton.tsx:89 | `trim()`: empty exactly when every character is whitespace, else the text between the first and last non-whitespace characters, which are its ends |
| Text.Utf16Length | app/components/AddHabbit.tsx:38 | the JavaScript `length` of a text: between its number of characters and twice that |
| Text.Utf16LengthBmp | app/components/AddHabbit.tsx:38 | without characters above U+FFFF the length is the number of characters |
| Text.Utf16LengthAstral | app/components/AddHabbit.tsx:38 | with only characters above U+FFFF the length is twice the number of characters |
| AddHabbit.SubmitNewHabbit | app/components/AddHabbit.tsx:21-57 | an accepted habit has the new id and count 0 and the form is cleared; a rejected one keeps every input and the modal, changing error lines only |
| AddHabbit.SubmitNewHabbitSpec | app/components/AddHabbit.tsx:21-57 | onAdd is called exactly when the count is digits in (0, 1e6) and the text has 1 to 1000 UTF-16 code units; the habit has the new id, the trimmed text, count 0, that target and no history; the form is then cleared; a bad count is reported before the text |
| AddHabbit.NewHabbitNotCompleted | app/components/AddHabbit.tsx:43-49 | a new habit starts at 0 below its target |
| AddHabbit.AstralTextTooLong | app/components/AddHabbit.tsx:38 | 501 characters above U+FFFF are 1002 code units, so the text is refused |
| SnapshotHistory.HistoryOrder | src/app/components/HistoryView.tsx:41-70 | one day per snapshot dated on or before today, in the reverse of the input order |
| SnapshotHistory.History | src/app/components/HistoryView.tsx:41-70 | the `history` transform; no contract of its own, stated by `HistoryOrder`, `HistoryAt` and `HistoryMembers` |
| SnapshotHistory.HistoryAt | src/app/components/HistoryView.tsx:41-70 | the i-th day shown is the day of the i-th kept snapshot from the end, which is stored and dated on or before today |
| SnapshotHistory.HistoryMembers | src/app/components/HistoryView.tsx:43-48 | every snapshot up to today appears and nothing else |
| SnapshotHistory.DayOfSpec | src/app/components/HistoryView.tsx:49-68 | each day keeps its date, its entries' ids and counts in order, and note texts; missing notes give none |
| SnapshotHistory.HabitTextSpec | src/app/components/HistoryView.tsx:52-55 | the text is that of the first habit with the id, "Unknown Habit" when there is none or its text is empty |
| SnapshotHistory.NoteNameSpec | src/app/components/HistoryView.tsx:61-64 | the name is that of the first note with the id, "Unknown Note" when there is none or its name is empty |
| SnapshotHistory.FormatDisplayDate | src/app/components/HistoryView.tsx:74-83 | index 0 is Today, index 1 Yesterday, others their calendar date |
| SnapshotHistory.TotalCount | src/app/components/HistoryView.tsx:91-93 | `getTotalCount`, the number of lines; no contract of its own, bounded against the completed count by `CompletedCountSpec` |
| SnapshotHistory.CompletedCountSpec | src/app/components/HistoryView.tsx:86-93 | the completed count counts the lines with did ≥ need: never above the total, 0 or the total exactly when none or all are done |
| SnapshotHistory.VisibleNotesSpec | src/app/components/HistoryView.tsx:166-172 | a note shows exactly when its text has a non-blank character and is not "No text for that day"; filtering again changes nothing |
| HabbitHistory.HabitsForDateSpec | app/components/HistoryView.tsx:17-28 | one record per habit in order; the count of the first history entry of the date, else 0; completed exactly when that entry reaches the target |
| HabbitHistory.HabitsForDate | app/components/HistoryView.tsx:17-28 | getHabitsForDate; no contract of its own, stated by `HabitsForDateSpec` |
| HabbitHistory.GetLast30Days | app/components/HistoryView.tsx:31-54 | exactly 30 days, day i being today minus i, labelled Today and Yesterday for the first two |
| HabbitHistory.DayRecordSpec | app/components/HistoryView.tsx:40-50 | each day lists every habit; the completed count counts the completed records and is at most the total |

## Left out

- Storage failures: `localStorage` exceptions and corrupt JSON are not modelled. Missing data reads as empty, so `LocalStorage.LocalStore.SaveDailySnapshot`, `UpdateHabitCount`, `UpdateHabitNeedCount` and `InitializeHabitsLocalStorage` always return true. The `catch` branches that return false are not modelled.
- Clocks and time zones: `new Date()`, `toISOString`, local-time `setDate` and DST are not modelled. Dates are day numbers and "today" is a parameter. Comparing "YYYY-MM-DD" texts with `localeCompare` is modelled as comparing day numbers.
- `SheetBuild.HabitNames`, `SheetBuild.SnapshotDates`, `Text.SortDistinct`, `Text.Less`: JavaScript's default `sort` compares UTF-16 code units; the model compares characters (Unicode scalar values). The two orders agree on text without characters outside the Basic Multilingual Plane.
- `LocalStorage.LocalStore.GetTodaySnapshot`, `Backfill`, `FillHistory`, `GetDailySnapshots`: their ensures tie the new store to `AfterGetToday`, `Backfilled` and `AfterFillHistory`; that these keep a date-sorted store sorted is stated by the lemmas `GetTodaySorted`, `BackfilledSorted` and `FillHistoryShape` rather than by the methods themselves.
- `HabbitButton.CompletedAfterIncrement`: holds for a button given the habit's counts. `app/page.tsx:135-143` renders the button without `currentCount` and `needCount`, so as wired the subtitle reads "undefined/undefined" and `undefined === undefined` makes every button show as completed; JavaScript's `undefined` is not modelled.
- `HabbitButton.Hash`: `charCodeAt` gives UTF-16 code units; the model uses Unicode scalar values. The model also computes exactly, whereas JavaScript numbers lose precision once an id is long enough (about two million characters) for the unwrapped hash to pass 2^53.
- `parseInt` on very long digit strings loses precision in JavaScript; the model reads the exact value. Number-to-text formatting is exact for integers below 10^21 only.
- `toLocaleDateString` labels are not modelled; other days are labelled by their calendar date (`Calendar(date)`).
- Generated ids (`crypto.randomUUID`, `uuidv4`) are inputs. Parsing therefore needs at least one fresh id per habit column.
- `SheetRoundTrip.RoundTrip` holds only with at least one habit. With no habits the header has no habit column, so the grid parses to nothing.
- The Google Sheets network code, OAuth, and the sync function's own body are not part of this model. A sync is recorded as one entry in `SyncManager.Syncer.syncs`. The un-awaited promise and the async ordering are not modelled.
- `syncManager.ts` imports updateHabit, deleteHabbit and the other wrapped operations from `./api`, whose shown version exports only addHabit and getHabits. The wrappers are therefore modelled over the operations of `services/apiLocalStorage.ts`.
- The store's habit records are modelled as `Habit(id, text)`. The `currentCount`, `needCount` and `history` fields of `types/habbit.ts` are never read by the store.
- The home page's `getLastResetDate`, `setLastResetDate` and its API calls are not part of this model. The reset date is an input, and the calls are recorded in `HomePage.Home.calls`.
- `HomePage.Home.HandleIncrement`: the in-place mutation of the habit object that is shared with the previous React state is modelled on values. The aliasing is not modelled.
- React state beyond the form fields is not modelled: `useEffect` refilling the edit form, modal handling other than its open flag, and rendering.
- `src/app/types/habbit.ts`, `src/app/types/note.ts` and `src/app/types/dailySnapshot.ts` are not part of this model. The shapes the history view and slices use are taken from how they are accessed.
