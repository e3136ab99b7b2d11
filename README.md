# Vigil event log and view model, in Dafny

Vigil is an Android application whose accessibility service records UI
events from other applications into a local SQLite table. Its main screen
lists the most recent events, lets the user filter them by event type,
shows whether the service is enabled, and can clear the history. This
project models two parts of it:

- **The event store** (`EventLoggerDatabase`, module `EventLog`). The
  `events` table is a class holding the rows in insertion order and the
  AUTOINCREMENT counter. The counter is the largest id ever handed out.
  `insertEvent`, `clearEvents`, `getAllEvents` and `onUpgrade` are
  methods. Their new state is tied to pure functions on a `Table` value
  (`Inserted`, `Cleared`, `EmptyTable`). The mapping from an
  accessibility event to a row is the function `EntryOf`: fragments are
  joined with `", "`, and absent optional fields stay absent.
  `getAllEvents` is specified as any list that is a permutation of the
  rows and has non-increasing timestamps (`IsFetchOf`). Rows with equal
  timestamps may come back in any order.
- **`MainViewModel`** (module `ViewModel`). The list and string logic is
  written as pure functions:
  - `Page` filters on the selected type and keeps the first 50;
  - `EventTypes` lists the distinct types of the unfiltered fetch;
  - `IsServiceEnabled` splits the enabled-services setting on `:` and
    compares each entry with the component name, ignoring case.

  A class keeps the view model's fields. Its methods are
  `CheckServiceStatus`, `LoadEvents`, `RefreshEvents`, `SelectEventType`
  and `ClearEvents`. A ghost field `fetched` records the latest unfiltered
  fetch, and `Shows()` states that both displayed lists are derived from it.

Helper modules: `Wrappers` (Kotlin nullable values as `Option`), `Strings`
(`joinToString`, `split`, ASCII `equals(ignoreCase = true)`) and `Lists`
(`take`, `distinct`).

Some behaviour of the code is easy to misread; the model follows the code:

- The `text` column is always written. `joinToString()` never yields
  null, so an event with no fragments stores `""`. The column is never
  left null.
- The filter is applied before the cut to 50. So a filtered list is not in
  general part of the unfiltered one (`FilteredPageNotSubset`).
- `distinct()` keeps first-occurrence order, so the type list has a
  definite order (`EventTypesInFirstOccurrenceOrder`). It is not just a set.
- `onUpgrade` drops the table. In SQLite that also deletes the table's
  AUTOINCREMENT counter, so ids restart at 1. `clearEvents` keeps the
  counter.

## Model

| member | source | states |
|---|---|---|
| `Strings.Join` | app/src/main/java/com/jackstoller/vigil/EventLoggerDatabase.kt:37 | `joinToString` keeps every character of every fragment plus one separator per gap, starting with the first fragment |
| `Strings.JoinAppend` | app/src/main/java/com/jackstoller/vigil/EventLoggerDatabase.kt:37 | joining two non-empty fragment lists puts exactly one separator between their joins |
| `Strings.JoinSnoc` | app/src/main/java/com/jackstoller/vigil/EventLoggerDatabase.kt:37 | one more fragment extends the joined text by the separator and that fragment |
| `Strings.Split` | app/src/main/java/com/jackstoller/vigil/MainActivity.kt:322 | `split(":")` always gives at least one piece and no piece contains the delimiter |
| `Strings.JoinSplit` | app/src/main/java/com/jackstoller/vigil/MainActivity.kt:322 | joining the pieces of a split with the delimiter gives back the original string |
| `Strings.SplitJoin` | app/src/main/java/com/jackstoller/vigil/MainActivity.kt:322 | splitting a join of delimiter-free entries gives back exactly those entries |
| `Strings.EqualsIgnoreCase` | app/src/main/java/com/jackstoller/vigil/MainActivity.kt:323 | `equals(…, ignoreCase = true)` holds exactly when the ASCII-lower-cased strings are equal |
| `Strings.EqualsIgnoreCaseEquivalence` | app/src/main/java/com/jackstoller/vigil/MainActivity.kt:323 | comparing ignoring case is reflexive, symmetric and transitive |
| `Lists.Take` | app/src/main/java/com/jackstoller/vigil/MainActivity.kt:344 | `take(n)` is the prefix of length min(n, size) |
| `Lists.Distinct` | app/src/main/java/com/jackstoller/vigil/MainActivity.kt:347 | `distinct()` has no duplicates and holds exactly the values of its input |
| `Lists.DistinctFirstOccurrenceOrder` | app/src/main/java/com/jackstoller/vigil/MainActivity.kt:347 | an earlier distinct value first occurs strictly earlier in the input |
| `Lists.DistinctSameElements` | app/src/main/java/com/jackstoller/vigil/MainActivity.kt:347 | inputs with the same elements have the same distinct values |
| `EventLog.EntryOf` | app/src/main/java/com/jackstoller/vigil/EventLoggerDatabase.kt:32-39 | the row keeps id, time and type; absent package, class and description stay absent, not empty strings, and present ones are kept verbatim; text is always present, `""` for no fragments, the fragment itself for one |
| `EventLog.EntryTextSnoc` | app/src/main/java/com/jackstoller/vigil/EventLoggerDatabase.kt:37 | the stored text is the fragments separated by `", "` |
| `EventLog.Inserted` | app/src/main/java/com/jackstoller/vigil/EventLoggerDatabase.kt:30-41 | an insert adds one row after the unchanged old rows; its id exceeds the old counter; the id invariant is kept |
| `EventLog.Cleared` | app/src/main/java/com/jackstoller/vigil/EventLoggerDatabase.kt:43-46 | a cleared table has no rows and keeps its counter, so the next insert still gets an id above every id issued before |
| `EventLog.ClearedIsEmptyAndIdempotent` | app/src/main/java/com/jackstoller/vigil/EventLoggerDatabase.kt:43-46 | clearing leaves no rows, keeps the counter and the invariant, and clearing twice equals clearing once |
| `EventLog.IdsNeverReused` | app/src/main/java/com/jackstoller/vigil/EventLoggerDatabase.kt:14-46 | over any run of inserts and clears, issued ids strictly increase and all exceed every id issued before; clears do not reset the counter |
| `EventLog.InsertByRecency` | app/src/main/java/com/jackstoller/vigil/EventLoggerDatabase.kt:50 | placing a row by timestamp adds exactly that row |
| `EventLog.InsertByRecencyKeepsOrder` | app/src/main/java/com/jackstoller/vigil/EventLoggerDatabase.kt:50 | placing a row by timestamp keeps a list ordered by timestamp descending |
| `EventLog.FetchLength` | app/src/main/java/com/jackstoller/vigil/EventLoggerDatabase.kt:48-68 | a correct fetch returns as many rows as are stored |
| `EventLog.FetchOfChronologicalLog` | app/src/main/java/com/jackstoller/vigil/EventLoggerDatabase.kt:50 | when timestamps increase with insertion, the only correct fetch is the rows in reverse insertion order |
| `EventLog.InsertedEventIsFetched` | app/src/main/java/com/jackstoller/vigil/EventLoggerDatabase.kt:30-68 | after an insert, every correct fetch contains the row built from the event, with its optional fields as given |
| `EventLog.FetchAfterClearIsEmpty` | app/src/main/java/com/jackstoller/vigil/EventLoggerDatabase.kt:43-68 | after a clear, a fetch returns the empty list |
| `EventLog.EventLoggerDatabase.constructor` | app/src/main/java/com/jackstoller/vigil/EventLoggerDatabase.kt:9-23 | opening keeps an existing table; a missing file gets an empty table with counter 0 |
| `EventLog.EventLoggerDatabase.OnUpgrade` | app/src/main/java/com/jackstoller/vigil/EventLoggerDatabase.kt:25-28 | drop and recreate: no rows and the counter back at 0 |
| `EventLog.EventLoggerDatabase.InsertEvent` | app/src/main/java/com/jackstoller/vigil/EventLoggerDatabase.kt:30-41 | one row appended, earlier rows untouched, new id above every earlier id and the old counter |
| `EventLog.EventLoggerDatabase.ClearEvents` | app/src/main/java/com/jackstoller/vigil/EventLoggerDatabase.kt:43-46 | all rows deleted, counter unchanged |
| `EventLog.EventLoggerDatabase.GetAllEvents` | app/src/main/java/com/jackstoller/vigil/EventLoggerDatabase.kt:48-68 | returns a permutation of the stored rows sorted by timestamp non-increasing; an empty store gives an empty list |
| `ViewModel.OfType` | app/src/main/java/com/jackstoller/vigil/MainActivity.kt:341 | the filter keeps exactly the events of the given type, and nothing else |
| `ViewModel.OfTypeAppend` | app/src/main/java/com/jackstoller/vigil/MainActivity.kt:341 | filtering a concatenation filters each part, so order is preserved |
| `ViewModel.OfTypeAbsent` | app/src/main/java/com/jackstoller/vigil/MainActivity.kt:341 | an unknown type gives an empty filtered list |
| `ViewModel.OfTypeKeepsOrder` | app/src/main/java/com/jackstoller/vigil/MainActivity.kt:340-342 | filtering keeps a timestamp-descending list descending |
| `ViewModel.Matching` | app/src/main/java/com/jackstoller/vigil/MainActivity.kt:340-342 | the filter step keeps only fetched events, only of the selected type if any, and every fetched event that passes |
| `ViewModel.Page` | app/src/main/java/com/jackstoller/vigil/MainActivity.kt:340-344 | the shown list has at most 50 fetched events, all of the selected type if any; with no selection it is the first min(50, n) of the fetch |
| `ViewModel.NoSelectedEventSkipped` | app/src/main/java/com/jackstoller/vigil/MainActivity.kt:340-344 | an event of the selected type with fewer than 50 same-type events before it is shown, at that position |
| `ViewModel.PageKeepsOrder` | app/src/main/java/com/jackstoller/vigil/MainActivity.kt:340-344 | the shown list stays sorted by timestamp descending |
| `ViewModel.FilteredPageNotSubset` | app/src/main/java/com/jackstoller/vigil/MainActivity.kt:340-344 | because the filter precedes the cut, the filtered list can show an event that the unfiltered list does not |
| `ViewModel.MostRecentPage` | app/src/main/java/com/jackstoller/vigil/MainActivity.kt:338-344 | with timestamps increasing by insertion, the unfiltered list is the 50 most recently inserted events, newest first |
| `ViewModel.EventTypes` | app/src/main/java/com/jackstoller/vigil/MainActivity.kt:347 | the type list has no duplicates and holds exactly the types of the unfiltered fetch |
| `ViewModel.EventTypesInFirstOccurrenceOrder` | app/src/main/java/com/jackstoller/vigil/MainActivity.kt:347 | types are listed in order of first occurrence in the fetch |
| `ViewModel.EventTypesIgnoreTieOrder` | app/src/main/java/com/jackstoller/vigil/MainActivity.kt:347 | two fetches of the same rows offer the same set of types, whatever their tie order |
| `ViewModel.IsServiceEnabled` | app/src/main/java/com/jackstoller/vigil/MainActivity.kt:316-323 | a missing setting means the service is not enabled |
| `ViewModel.ServiceEnabledIffListed` | app/src/main/java/com/jackstoller/vigil/MainActivity.kt:321-323 | for a `:`-joined list of services, the flag holds exactly when one entry equals the component name ignoring case |
| `ViewModel.ServiceEnabledIgnoresCase` | app/src/main/java/com/jackstoller/vigil/MainActivity.kt:323 | the flag depends on the component name only up to case |
| `ViewModel.MainViewModel.constructor` | app/src/main/java/com/jackstoller/vigil/MainActivity.kt:266-285 | starts with empty lists and no selection, then reads the service status once |
| `ViewModel.MainViewModel.CheckServiceStatus` | app/src/main/java/com/jackstoller/vigil/MainActivity.kt:314-324 | sets the flag to whether the setting lists the service, ignoring case |
| `ViewModel.MainViewModel.LoadEvents` | app/src/main/java/com/jackstoller/vigil/MainActivity.kt:335-348 | after a fetch of the store, shows at most 50 events, sorted, of the selected type, and the distinct types of the unfiltered fetch |
| `ViewModel.MainViewModel.RefreshEvents` | app/src/main/java/com/jackstoller/vigil/MainActivity.kt:326-328 | same as loading |
| `ViewModel.MainViewModel.SelectEventType` | app/src/main/java/com/jackstoller/vigil/MainActivity.kt:350-353 | sets the selection and reloads; selecting none shows the head of the fetch again |
| `ViewModel.MainViewModel.ClearEvents` | app/src/main/java/com/jackstoller/vigil/MainActivity.kt:330-333 | clears the store, keeping its counter, and leaves both lists empty |

## Left out

- SQLite itself is not modelled. That covers `ContentValues`, `Cursor`,
  column lookups and opening the file. The table is a sequence of rows
  plus a counter.
- Storage faults are not modelled. When the store fails, `db.insert`
  returns -1 and the event is silently lost, and a failing read raises an
  error. The model assumes every call succeeds.
- `GetAllEvents` places each row by timestamp as it is read. This is one
  correct answer; the real order among equal timestamps is whatever
  SQLite's sort yields. Callers rely only on `IsFetchOf`.
- EventEntry.id: the id is an unbounded integer. `cursor.getInt` reads the
  64-bit rowid into a 32-bit `Int`, and AUTOINCREMENT fails with
  SQLITE_FULL at the largest 64-bit rowid. Neither happens in practice.
- The event type comes from `AccessibilityEvent.eventTypeToString`. Here it
  is an opaque string already rendered (a platform enumeration).
- Text fragments are taken as strings. A null fragment would be rendered
  as `"null"` by `joinToString()`; the model has no null fragments.
- Strings.EqualsIgnoreCase: folds ASCII letters only. Kotlin's
  `ignoreCase` also folds other Unicode letters. Component names are ASCII.
- The settings read and the component name are parameters. These are
  `Settings.Secure.getString` and
  `ComponentName(...).flattenToString()`; both are platform calls.
- Registering the settings observer (`startObservingServiceStatus`) and
  unregistering it (`onCleared`) are platform plumbing and are left out.
  The observer's `onChange` only calls `CheckServiceStatus`. `StateFlow`
  values are plain fields.
- The screen is not modelled: the composables, dialogs, settings intent
  and date formatting. Neither is the accessibility service that forwards
  each event to `InsertEvent`, nor drawable conversion.
- Access to the database file from two processes at once (the service and
  the screen) is concurrency, and is not modelled.
- `OnUpgrade` is only invoked by the platform when the schema version
  rises. At version 1 that never happens; the model states what it would
  do.
