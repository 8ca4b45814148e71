# Workout log of the Dhannu Bhati Gym app

The app logs gym sets. Each set has an exercise, a weight and a number of reps. The history is a list of
entries, one per exercise and calendar day, most recently created first. This project models the logic
that the single React component in `app.js` applies to that history, and proves properties of it:

- **Add Set.** Blank input is refused. Otherwise the set is appended to the first entry of the same
  exercise on the same calendar day, and that entry's date becomes the new timestamp. If there is no
  such entry, a one-set entry is put in front.
- **suggestNextWeight.** Take the last set of the first entry of the exercise that has sets, and add
  2.5 kg or 5 % of its weight, whichever is larger, rounded to 0.1 kg.
- **getLast.** The front entry, or nothing.
- **clearAll.** Empties the log.

There are two modules:

- `WorkoutLog` (`workout_log.dfy`) models the history as values. It holds the datatypes `Exercise`,
  `SetRecord`, `Entry` and `Log = seq<Entry>`, the pure functions that compute each operation's
  result, the two invariants (`OneEntryPerDay` and `SetsNonEmpty`) and the lemmas.
- `LogStore` (`log_store.dfy`) models the component's state the way the app keeps it. `Store.log` is
  an array (`seq`) of `EntryCell` objects. "Add Set" copies that array shallowly and then updates the
  matched entry object in place. That object is shared between the old and the new array. A ghost
  field `Store.stored` holds the log as last written to the device. `AddSet`, `AddSetCopying`,
  `FindIndex`, `SuggestNextWeight`, `GetLast` and `ClearAll` are proved against the `WorkoutLog`
  function of the old state. The helpers `MergeInPlace`, `Replaced` and `Prepended` state their
  sequence updates directly.

Conventions of the model:

- Weights are integers in tenths of a kilogram (60 kg is `600`). So `Math.round(x * 10) / 10` is exact
  integer arithmetic: the 5 % term is the integer nearest to `w / 20`, with halves rounded up, as
  `Math.round` does.
- A timestamp is the ISO-8601 string the app stores. Its calendar day is `ts.split('T')[0]`: the prefix
  before the first `'T'`, or the whole string if there is none.
- The current time `now`, the numbers that `Number(...)` parses from the two text fields, and the
  outcome of each write to the device store (`saveOk`, `deleteOk`) are parameters.

Three behaviours of the code that a reader might not expect. The model follows the code:

- **Clearing after a failed removal.** `clearAll` awaits `removeItem` with no `try`, so `setLog([])`
  runs only after a successful removal (app.js:71-74). `Store.ClearAll` clears only when `deleteOk`
  holds.
- **Failed writes.** `saveLog` calls `setLog` only after a successful write (app.js:33-34). Yet a
  merge changes the shared entry object before the write, so a failed write still changes what is
  shown (see Findings). For a new entry, a failed write changes nothing.
- **Entry order.** A merged entry keeps its position, while a new entry goes to the front
  (app.js:44-48). `LastAfterMergeStaysPut` states the consequence: after a merge into an entry that
  is not in front, getLast shows a different entry.

## Model

| member | source | states |
|---|---|---|
| `WorkoutLog.Day` | app.js:42 | The day is a prefix of the timestamp. It contains no `'T'`. It is either the whole timestamp or is followed by a `'T'`. |
| `WorkoutLog.DayUnique` | app.js:42 | Those three facts determine the day uniquely. So Day is exactly `split('T')[0]`. |
| `WorkoutLog.FirstIndex` | app.js:42 | `findIndex`: -1 or a valid index. A returned index satisfies the predicate. No earlier element does, and no element at all does when the result is -1. |
| `WorkoutLog.FindMatch` | app.js:42 | The `findIndex` that picks the merge target. Its contract is carried by `FindMatchSpec`. |
| `WorkoutLog.FindMatchSpec` | app.js:42 | The merge target is the first entry with the same exercise id and the same calendar day as `now`, or -1 when there is none. |
| `WorkoutLog.NewSet` | app.js:41 | The set record `{weight, reps, time}` of one submission. Its place in the log is stated by `WithSetMerges` and `WithSetPrepends`. |
| `WorkoutLog.WithSet` | app.js:42-48 | The append-or-merge log of an accepted Add Set. Its contract is carried by `WithSetMerges`, `WithSetPrepends`, `WithSetWellFormed`, `WithSetOwnSlot` and `WithSetOtherSlot`. |
| `WorkoutLog.WithSetMerges` | app.js:42-46 | With a match at index i: the length is unchanged. Only entry i changes. Its sets grow by exactly the new set, placed last. Its date becomes `now`. Its id, name, media and position stay. Every other entry is unchanged. |
| `WorkoutLog.WithSetPrepends` | app.js:47-48 | With no match: the new log is the old log behind one new entry. That entry holds exactly the new set, dated `now`, with the selected exercise's id, name and media. |
| `WorkoutLog.AddSet` | app.js:38-49 | The input is refused exactly when the weight or the reps text is empty. Otherwise the result is the append-or-merge log. |
| `WorkoutLog.WithSetWellFormed` | app.js:42-48 | Append-or-merge keeps both invariants: at most one entry per (exercise, day), and no entry with empty sets. |
| `WorkoutLog.AddSetWellFormed` | app.js:38-49 | An accepted Add Set keeps a well-formed log well formed. |
| `WorkoutLog.Replay` | app.js:38-49 | Add Set pressed once per submission, in order. Its contract is carried by `SameDayReplay` and `ReplayIntoExisting`. |
| `WorkoutLog.SameDayReplay` | app.js:42-48 | Start from a log with no entry for an exercise and day, and add any non-empty run of same-day sets for it. The result is exactly one new entry, in front, whose sets are the submitted sets in submission order. The date is the last timestamp. The rest of the log is untouched. |
| `WorkoutLog.ReplayIntoExisting` | app.js:42-46 | Same-day sets for an exercise whose day entry is at index i all go into that entry, after its earlier sets and in order. The length and every other entry are unchanged. |
| `WorkoutLog.WithSetOwnSlot` | app.js:42-48 | After a set is added, its (exercise, day) slot is found at the merge target, or in front for a new entry. The slot holds its earlier sets followed by the new one. |
| `WorkoutLog.WithSetOtherSlot` | app.js:42-48 | Adding a set leaves every other slot's entry as it was. The entry keeps its index after a merge and moves back by one after a new entry is put in front. Its sets are unchanged. |
| `WorkoutLog.SeparateSlots` | app.js:42-48 | For any log, two sets that differ in exercise or in calendar day end up in two different entries. Each entry ends with its own new set, after the sets its slot already held. |
| `WorkoutLog.SeparateNewSlots` | app.js:47-48 | If neither slot has an entry yet, the two sets give two new one-set entries in front of the old log, the later one first. |
| `WorkoutLog.FivePercent` | app.js:59 | `Math.round(w*0.05*10)/10` in tenths is the integer q with 20q-10 <= w < 20q+10, i.e. w/20 rounded half up. |
| `WorkoutLog.NextWeight` | app.js:59-60 | The increment is at least 25 (2.5 kg) and at least the 5 % term, and it is one of those two values. |
| `WorkoutLog.NextWeightExamples` | app.js:59-60 | 60 kg gives 63 kg, and 20 kg gives 22.5 kg. |
| `WorkoutLog.FirstWithSets` | app.js:56-57 | The entry the suggestion reads: the first entry of the exercise that has sets. It is pinned down by `FirstWithSetsAt` and by the contract of `Suggestion`. |
| `WorkoutLog.LastWeight` | app.js:58 | The weight of an entry's last set. The contract of `Suggestion` states what it is used for. |
| `WorkoutLog.Suggestion` | app.js:55-64 | The result is none exactly when no entry of the exercise has sets. Otherwise it is the next weight after the last set of the first such entry in log order, and so at least that weight plus 2.5 kg. |
| `WorkoutLog.SuggestionLocal` | app.js:56-60 | Two logs whose first entries with sets for the exercise end in the same weight give the same suggestion, wherever those entries sit. So the suggestion depends on nothing else. |
| `WorkoutLog.SuggestionAfterWithSet` | app.js:42-60 | After a set of weight w is added, the suggestion is `NextWeight(w)`. This holds when the set opened a new entry, or when the entry it merged into was the exercise's first entry with sets. |
| `WorkoutLog.Last` | app.js:76 | None exactly when the log is empty. Otherwise the log's first entry. |
| `WorkoutLog.Cleared` | app.js:73 | The log that `setLog([])` leaves. `ClearedIsEmpty` states what it shows. |
| `WorkoutLog.ClearedIsEmpty` | app.js:71-76 | A cleared log has no last entry and no suggestion for any exercise. |
| `WorkoutLog.LastAfterNewEntry` | app.js:47-48 | A set that opens a new entry makes that new one-set entry the one getLast returns. |
| `WorkoutLog.LastAfterMergeStaysPut` | app.js:44-46 | A merge into an entry that is not in front leaves getLast unchanged. That front entry is not the updated one. |
| `LogStore.Store.constructor` | app.js:17 | The log starts empty, and so does the stored log. |
| `LogStore.Store.FindIndex` | app.js:42 | The loop over the entry objects returns exactly the merge target of the current log. |
| `LogStore.Store.MergeInPlace` | app.js:45-46 | Pushing the set onto the shared entry object and assigning its date changes only that entry of the log. |
| `LogStore.Store.Prepended` | app.js:48 | `unshift` on the copy: a fresh entry object in front of the unchanged old objects. |
| `LogStore.Store.SharedLog` | app.js:42-49 | The array the app builds has the append-or-merge value. With a match it is the current array, with its shared entry updated. With no match the current log is untouched. |
| `LogStore.Store.AddAccepted` | app.js:31-50 | For accepted input, the shown log becomes the new log when the write succeeds. It also becomes the new log when the write fails but the set was merged. It stays as it was only when a new entry's write fails. The stored log becomes the new log exactly when the write succeeds. |
| `LogStore.Store.AddSet` | app.js:38-50 | Refuses blank input and then changes nothing. Otherwise it behaves as `AddAccepted`. |
| `LogStore.Store.Replaced` | app.js:43-46 | Corrected variant, not the code as written: the copy with a fresh object for the updated entry and the old objects elsewhere. |
| `LogStore.Store.CopiedLog` | app.js:42-49 | Corrected variant, not the code as written: the append-or-merge value, built without changing any existing entry object. |
| `LogStore.Store.AddSetCopying` | app.js:31-50 | Corrected variant, not the code as written: refuses blank input. Otherwise the shown log and the stored log both become the new log exactly when the write succeeds, and are unchanged otherwise. So a shown log equal to the stored log stays equal. |
| `LogStore.Store.SuggestNextWeight` | app.js:55-64 | The early-return scan returns exactly `Suggestion` of the current log. |
| `LogStore.Store.ClearAll` | app.js:71-74 | After a successful removal the shown and the stored log are empty. After a failed one both are unchanged. |
| `LogStore.Store.GetLast` | app.js:76 | Null exactly when the log is empty. Otherwise the front entry object, whose value is `Last` of the log. |
| `LogStore.FailedSaveStillMerges` | app.js:31-50 | From an empty log, a saved set followed by a same-day set whose write fails leaves two sets shown, while the stored log holds one. |
| `LogStore.FailedSaveCopyingKeepsState` | app.js:31-50 | Corrected variant, not the code as written: the same sequence with copying leaves the one saved set shown, as the stored log holds it. |

## Left out

- Rendering, the exercise picker, the text inputs and the `Alert` dialogs (app.js:78-144). A refused
  Add Set is modelled only as "nothing changes" (`added == false`).
- Loading the stored log at startup (`getItem` and `JSON.parse`, app.js:22-29). This is I/O through a
  foreign library. A `Store` starts empty, on a device that holds no log, and `JSON.parse` failures
  are not modelled.
- `JSON.stringify` and the 1000-character export dialog (app.js:66-69). A serialisation round trip
  would need a model of JSON. The write appears as its outcome `saveOk` and, when it succeeds, as the
  ghost field `Store.stored` taking the new log's value.
- `new Date().toISOString()` (app.js:40). The timestamp is the parameter `now`.
- `Number(weight)` and `Number(reps)`, including the `NaN` they give for non-numeric text (app.js:41).
  This is JavaScript number parsing. The parsed weight (in tenths) and reps are parameters, next to the
  raw texts that the blank check reads. `Number(reps)` can be fractional ("5.5"), but the model's reps
  are integers.
- IEEE floating point in `Math.round(x * 10) / 10` (app.js:59-60). Weights are exact tenths, so a
  weight with a finer fraction than 0.1 kg cannot be represented.
- `entry.sets &&` (app.js:57) guards against an entry with no `sets` field at all, which only corrupt
  stored data can produce. In the model every entry has a `sets` sequence.
- Clearing the two input fields after an accepted Add Set (app.js:51-52), and the selected-exercise
  state (app.js:18). The texts and the exercise are parameters.
- The static `SAMPLE_LIBRARY` catalogue (app.js:8-14). The exercise is a parameter.
- Timing of the asynchronous write. `saveLog` is not awaited (app.js:50), so a second press before
  the first write finishes reads the old `log`. The model runs each Add Set to completion before the
  next one starts.
- The `s ? … : 'No history yet'` display (app.js:104). It treats a suggestion of 0 as no history.
  This is rendering.

## Findings

| source | as written | input that shows it | evidently intended | confidence | as-written member | corrected member |
|---|---|---|---|---|---|---|
| app.js:43-46 | `[...log]` copies only the array. `push` and the `date` assignment then change the matched entry object, which the current `log` state shares. This happens before the write, so a failed write still changes what the app shows. | Empty log. Add 60 kg × 5 at `2025-03-01T09:00`; the write succeeds. Add 62.5 kg × 5 at `2025-03-01T09:05`; the write fails. The history shows two sets, and the device store holds one. | The in-memory log changes only when the write succeeds. `setLog` is called only on the success path (app.js:33-34). | medium, not executed | `LogStore.Store.AddSet` (`LogStore.FailedSaveStillMerges`) | `LogStore.Store.AddSetCopying` (`LogStore.FailedSaveCopyingKeepsState`) |
