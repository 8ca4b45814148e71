/**
 * The app's in-memory workout log as the component holds it: an array of
 * entry objects that "Add Set" copies shallowly and whose matched entry it
 * updates in place, so that the old and the new array share that object.
 *
 * The outcome of the write to the device's key-value store, and of its
 * removal, is a parameter (`saveOk`, `deleteOk`): the state changes the
 * component makes after that write happen only when it succeeds.
 */
module LogStore {
  import opened WorkoutLog

  /** A log entry object; only `date` and `sets` are ever updated. */
  class EntryCell {
    var date: string
    const exerciseId: string
    const exerciseName: string
    const media: string
    var sets: seq<SetRecord>

    function Value(): Entry
      reads this
    {
      Entry(date, exerciseId, exerciseName, media, sets)
    }

    constructor (e: Entry)
      ensures Value() == e
    {
      date := e.date;
      exerciseId := e.exerciseId;
      exerciseName := e.exerciseName;
      media := e.media;
      sets := e.sets;
    }
  }

  /** The entry values the cells hold, in order. */
  function Values(cells: seq<EntryCell>): (r: Log)
    reads cells
    ensures |r| == |cells|
    ensures forall i :: 0 <= i < |cells| ==> r[i] == cells[i].Value()
  {
    if cells == [] then [] else [cells[0].Value()] + Values(cells[1..])
  }

  /** No entry object occurs twice. */
  ghost predicate Distinct(cells: seq<EntryCell>)
  {
    forall i, j :: 0 <= i < j < |cells| ==> cells[i] != cells[j]
  }

  class Store {
    /** The component's `log` state. */
    var log: seq<EntryCell>

    /** The log as last written to, or removed from, the device's store. */
    ghost var stored: Log

    /** Every entry of the log is its own object. */
    ghost predicate Valid()
      reads this
    {
      Distinct(log)
    }

    /** The log as the history list shows it. */
    function Snapshot(): Log
      reads this, log
    {
      Values(log)
    }

    /**
     * `useState([])`: the log before anything is loaded or added, on a
     * device that holds no log yet.
     */
    constructor ()
      ensures Valid() && Snapshot() == [] && stored == []
    {
      log := [];
      stored := [];
    }

    /**
     * The `findIndex` of "Add Set": the first entry of exercise `id` on the
     * calendar day of `now`, or -1.
     */
    method FindIndex(id: string, now: string) returns (i: int)
      ensures i == FindMatch(Snapshot(), id, now)
    {
      ghost var s := Snapshot();
      FindMatchSpec(s, id, now);
      i := 0;
      while i < |log|
        invariant 0 <= i <= |log|
        invariant forall j :: 0 <= j < i ==> !SameSlot(s[j], id, now)
      {
        if log[i].exerciseId == id && Day(log[i].date) == Day(now) {
          assert SameSlot(s[i], id, now);
          return;
        }
        i := i + 1;
      }
      i := -1;
    }

    /** Appends `s` to the entry object at index `i` and stamps it with `now`, in place. */
    method MergeInPlace(i: nat, s: SetRecord, now: string)
      requires Valid() && i < |log|
      modifies log[i]
      ensures Snapshot() == old(Snapshot())[i := old(Snapshot())[i].(sets := old(Snapshot())[i].sets + [s], date := now)]
    {
      ghost var before := Snapshot();
      var cell := log[i];
      cell.sets := cell.sets + [s];
      cell.date := now;
      assert forall j :: 0 <= j < |log| && j != i ==> log[j].Value() == before[j];
    }

    /**
     * A new array of entry objects: a fresh object holding `e` at index
     * `i`, the old objects everywhere else.
     */
    method Replaced(i: nat, e: Entry) returns (newLog: seq<EntryCell>)
      requires Valid() && i < |log|
      ensures Values(newLog) == Snapshot()[i := e]
      ensures Distinct(newLog)
      ensures |newLog| == |log|
      ensures fresh(newLog[i]) && forall j :: 0 <= j < |log| && j != i ==> newLog[j] == log[j]
    {
      var cell := new EntryCell(e);
      newLog := log[i := cell];
      assert Values(newLog) == Snapshot()[i := e];
    }

    /** A new array of entry objects: a fresh object holding `e`, then the old ones. */
    method Prepended(e: Entry) returns (newLog: seq<EntryCell>)
      requires Valid()
      ensures Values(newLog) == [e] + Snapshot()
      ensures Distinct(newLog)
      ensures fresh(newLog[0]) && newLog[1..] == log
    {
      var cell := new EntryCell(e);
      newLog := [cell] + log;
      assert Values(newLog) == [e] + Snapshot();
    }

    /**
     * The new array "Add Set" saves, built as the app builds it: the
     * matched entry object, shared with the current array, is updated in
     * place; otherwise a fresh one-set entry object is put in front of a
     * copy of the array.
     */
    method SharedLog(ex: Exercise, weight: int, reps: int, now: string) returns (newLog: seq<EntryCell>)
      requires Valid()
      modifies log
      ensures Values(newLog) == WithSet(old(Snapshot()), ex, weight, reps, now)
      ensures Distinct(newLog)
      ensures forall j :: 0 <= j < |newLog| ==> newLog[j] in log || fresh(newLog[j])
      ensures FindMatch(old(Snapshot()), ex.id, now) >= 0 ==> newLog == log
      ensures FindMatch(old(Snapshot()), ex.id, now) < 0 ==> Snapshot() == old(Snapshot())
    {
      ghost var before := Snapshot();
      var setItem := NewSet(weight, reps, now);
      var lastIndex := FindIndex(ex.id, now);
      if lastIndex >= 0 {
        MergeInPlace(lastIndex, setItem, now);
        assert WithSet(before, ex, weight, reps, now)
            == before[lastIndex := before[lastIndex].(sets := before[lastIndex].sets + [setItem], date := now)];
        newLog := log;
      } else {
        var created := Entry(now, ex.id, ex.name, ex.media, [setItem]);
        assert WithSet(before, ex, weight, reps, now) == [created] + before;
        newLog := Prepended(created);
      }
    }

    /**
     * An accepted "Add Set" as written: the matched entry object is updated
     * in place before the write, and the component's `log` is replaced by
     * the new array only when the write succeeds. The device holds the new
     * log exactly when the write succeeds, so a merge whose write fails
     * leaves the shown log ahead of the stored one.
     */
    method AddAccepted(ex: Exercise, weight: int, reps: int, now: string, saveOk: bool)
      requires Valid()
      modifies this, log
      ensures Valid()
      ensures forall j :: 0 <= j < |log| ==> log[j] in old(log) || fresh(log[j])
      ensures Snapshot() ==
        if saveOk || FindMatch(old(Snapshot()), ex.id, now) >= 0
        then WithSet(old(Snapshot()), ex, weight, reps, now)
        else old(Snapshot())
      ensures stored == if saveOk then WithSet(old(Snapshot()), ex, weight, reps, now) else old(stored)
    {
      ghost var target := WithSet(Snapshot(), ex, weight, reps, now);
      ghost var merged := FindMatch(Snapshot(), ex.id, now) >= 0;
      var newLog := SharedLog(ex, weight, reps, now);
      assert Values(newLog) == target;
      if saveOk {
        stored := target;
        log := newLog;
        assert Snapshot() == target;
      } else if merged {
        assert Snapshot() == target;
      }
    }

    /** "Add Set" as written; a refused input changes nothing. */
    method AddSet(ex: Exercise, weightText: string, repsText: string,
                  weight: int, reps: int, now: string, saveOk: bool) returns (added: bool)
      requires Valid()
      modifies this, log
      ensures Valid()
      ensures forall j :: 0 <= j < |log| ==> log[j] in old(log) || fresh(log[j])
      ensures added <==> WorkoutLog.AddSet(old(Snapshot()), ex, weightText, repsText, weight, reps, now).Ok?
      ensures !added ==> log == old(log) && Snapshot() == old(Snapshot())
      ensures added ==> (Snapshot() ==
        if saveOk || FindMatch(old(Snapshot()), ex.id, now) >= 0
        then WithSet(old(Snapshot()), ex, weight, reps, now)
        else old(Snapshot()))
      ensures stored == if added && saveOk then WithSet(old(Snapshot()), ex, weight, reps, now) else old(stored)
    {
      if weightText == "" || repsText == "" {
        added := false;
        return;
      }
      added := true;
      AddAccepted(ex, weight, reps, now, saveOk);
    }

    /**
     * The new array "Add Set" saves when no entry object is shared: a fresh
     * object replaces the matched entry, or a fresh one-set entry object is
     * put in front.
     */
    method CopiedLog(ex: Exercise, weight: int, reps: int, now: string) returns (newLog: seq<EntryCell>)
      requires Valid()
      ensures Values(newLog) == WithSet(Snapshot(), ex, weight, reps, now)
      ensures Distinct(newLog)
      ensures forall j :: 0 <= j < |newLog| ==> newLog[j] in log || fresh(newLog[j])
    {
      ghost var before := Snapshot();
      var setItem := NewSet(weight, reps, now);
      var lastIndex := FindIndex(ex.id, now);
      if lastIndex >= 0 {
        var matched := log[lastIndex].Value();
        var updated := matched.(sets := matched.sets + [setItem], date := now);
        assert WithSet(before, ex, weight, reps, now) == before[lastIndex := updated];
        newLog := Replaced(lastIndex, updated);
      } else {
        var created := Entry(now, ex.id, ex.name, ex.media, [setItem]);
        assert WithSet(before, ex, weight, reps, now) == [created] + before;
        newLog := Prepended(created);
      }
    }

    /**
     * "Add Set" building a new entry object instead of updating the shared
     * one: nothing the component holds changes unless the write succeeds,
     * so the shown log stays equal to the stored one.
     */
    method AddSetCopying(ex: Exercise, weightText: string, repsText: string,
                         weight: int, reps: int, now: string, saveOk: bool) returns (added: bool)
      requires Valid()
      modifies this
      ensures Valid()
      ensures forall j :: 0 <= j < |log| ==> log[j] in old(log) || fresh(log[j])
      ensures added <==> WorkoutLog.AddSet(old(Snapshot()), ex, weightText, repsText, weight, reps, now).Ok?
      ensures !added ==> log == old(log) && Snapshot() == old(Snapshot())
      ensures added ==> (Snapshot() ==
        if saveOk then WithSet(old(Snapshot()), ex, weight, reps, now) else old(Snapshot()))
      ensures stored == if added && saveOk then WithSet(old(Snapshot()), ex, weight, reps, now) else old(stored)
      ensures old(Snapshot()) == old(stored) ==> Snapshot() == stored
    {
      if weightText == "" || repsText == "" {
        added := false;
        return;
      }
      added := true;
      var newLog := CopiedLog(ex, weight, reps, now);
      if saveOk {
        stored := Values(newLog);
        log := newLog;
      }
    }

    /**
     * `suggestNextWeight(id)`: scans the log in order and suggests from the
     * last set of the first entry of `id` that has sets.
     */
    method SuggestNextWeight(id: string) returns (r: Option<int>)
      ensures r == Suggestion(Snapshot(), id)
    {
      ghost var s := Snapshot();
      for k := 0 to |log|
        invariant forall j :: 0 <= j < k ==> !HasSetsFor(s[j], id)
      {
        var entry := log[k];
        if entry.exerciseId == id && |entry.sets| > 0 {
          var lastWeight := entry.sets[|entry.sets| - 1].weight;
          FirstWithSetsAt(s, id, k);
          return Some(NextWeight(lastWeight));
        }
      }
      return None;
    }

    /** "Clear all data": the log becomes empty once the stored copy is removed. */
    method ClearAll(deleteOk: bool)
      requires Valid()
      modifies this
      ensures Valid()
      ensures Snapshot() == if deleteOk then Cleared() else old(Snapshot())
      ensures stored == if deleteOk then Cleared() else old(stored)
    {
      if deleteOk {
        stored := [];
        log := [];
      }
    }

    /** `getLast()`: the front entry object, or null when the log is empty. */
    method GetLast() returns (c: EntryCell?)
      ensures c == null <==> Last(Snapshot()).None?
      ensures c != null ==> Last(Snapshot()) == Some(c.Value()) && c == log[0]
    {
      c := if |log| > 0 then log[0] else null;
    }
  }

  /**
   * A merge whose write fails still shows up: into an empty log, a saved
   * set and then a set on the same day whose write fails leave the front
   * entry with two sets shown, while the stored log holds one.
   */
  method FailedSaveStillMerges(ex: Exercise, first: string, second: string) returns (shown: nat, ghost kept: nat)
    requires Day(first) == Day(second)
    ensures shown == 2 && kept == 1
  {
    var store := new Store();
    var ok := store.AddSet(ex, "60", "5", 600, 5, first, true);
    ghost var e := Entry(first, ex.id, ex.name, ex.media, [NewSet(600, 5, first)]);
    assert store.Snapshot() == [e];
    assert SameSlot(e, ex.id, second);
    assert FindMatch([e], ex.id, second) == 0;
    ok := store.AddSet(ex, "62.5", "5", 625, 5, second, false);
    assert store.Snapshot()[0].sets == [NewSet(600, 5, first), NewSet(625, 5, second)];
    shown := |store.Snapshot()[0].sets|;
    kept := |store.stored[0].sets|;
  }

  /**
   * With a new entry object per merge, the failed write leaves the one saved
   * set shown, as the stored log holds it.
   */
  method FailedSaveCopyingKeepsState(ex: Exercise, first: string, second: string) returns (shown: nat, ghost kept: nat)
    requires Day(first) == Day(second)
    ensures shown == 1 && kept == 1
  {
    var store := new Store();
    var ok := store.AddSetCopying(ex, "60", "5", 600, 5, first, true);
    ok := store.AddSetCopying(ex, "62.5", "5", 625, 5, second, false);
    shown := |store.Snapshot()[0].sets|;
    kept := |store.stored[0].sets|;
  }
}
