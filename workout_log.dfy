/**
 * The workout log of the gym app as plain values: exercises, set records,
 * log entries, the append-or-merge rule of "Add Set", the next-weight
 * suggestion and the "last entry" query, with the invariants they keep.
 *
 * Weights are integers in tenths of a kilogram (60.0 kg is 600), so the
 * suggestion's 0.1 kg rounding is exact integer arithmetic. Timestamps are
 * the ISO-8601 strings the app stores; a timestamp's calendar day is its
 * prefix before the first 'T'.
 */
module WorkoutLog {

  datatype Option<T> = None | Some(value: T)

  /** An entry of the static exercise catalogue. */
  datatype Exercise = Exercise(id: string, name: string, media: string)

  /** One performed set; `weight` in tenths of a kilogram. */
  datatype SetRecord = SetRecord(weight: int, reps: int, time: string)

  /** One exercise's activity on one calendar day. */
  datatype Entry = Entry(date: string, exerciseId: string, exerciseName: string,
                         media: string, sets: seq<SetRecord>)

  /** The whole history, most recently created entry first. */
  type Log = seq<Entry>

  /** Why "Add Set" refused to log anything. */
  datatype AddError = MissingInput

  datatype Result<T> = Ok(value: T) | Err(error: AddError)

  // ---------------------------------------------------------------------
  // Calendar days

  /** `ts.split('T')[0]`: everything before the first 'T', or all of `ts`. */
  function Day(ts: string): (d: string)
    ensures d <= ts
    ensures 'T' !in d
    ensures |d| < |ts| ==> ts[|d|] == 'T'
  {
    if ts == [] || ts[0] == 'T' then [] else [ts[0]] + Day(ts[1..])
  }

  /** The three facts of Day's contract determine the day uniquely. */
  lemma {:induction false} DayUnique(ts: string, d: string)
    requires d <= ts && 'T' !in d && (|d| < |ts| ==> ts[|d|] == 'T')
    ensures d == Day(ts)
  {
    if ts != [] && ts[0] != 'T' {
      assert d != [];
      assert d[0] == ts[0];
      assert d[1..] <= ts[1..];
      assert 'T' !in d[1..] by { forall k | 0 <= k < |d| - 1 ensures d[1..][k] != 'T' { assert d[1..][k] == d[k + 1]; } }
      DayUnique(ts[1..], d[1..]);
      assert d == [d[0]] + d[1..];
    }
  }

  // ---------------------------------------------------------------------
  // Searching the log

  /** `s.findIndex(p)`: the first index whose element satisfies `p`, or -1. */
  function FirstIndex<T>(s: seq<T>, p: T -> bool): (i: int)
    ensures -1 <= i < |s|
    ensures 0 <= i ==> p(s[i])
    ensures forall j :: 0 <= j < |s| && (i < 0 || j < i) ==> !p(s[j])
  {
    if s == [] then -1
    else if p(s[0]) then 0
    else
      var k := FirstIndex(s[1..], p);
      if k < 0 then -1 else k + 1
  }

  /** An entry holds the sets of exercise `id` on the calendar day of `now`. */
  predicate SameSlot(e: Entry, id: string, now: string)
  {
    e.exerciseId == id && Day(e.date) == Day(now)
  }

  /** The entry "Add Set" merges into, or -1 when it creates a new one. */
  function FindMatch(log: Log, id: string, now: string): int
  {
    FirstIndex(log, e => SameSlot(e, id, now))
  }

  lemma FindMatchSpec(log: Log, id: string, now: string)
    ensures var i := FindMatch(log, id, now);
      && -1 <= i < |log|
      && (0 <= i ==> SameSlot(log[i], id, now))
      && (forall j :: 0 <= j < |log| && (i < 0 || j < i) ==> !SameSlot(log[j], id, now))
  {
  }

  // ---------------------------------------------------------------------
  // Invariants of the log

  /** At most one entry per (exercise, calendar day). */
  ghost predicate OneEntryPerDay(log: Log)
  {
    forall i, j :: 0 <= i < j < |log| ==>
      !(log[i].exerciseId == log[j].exerciseId && Day(log[i].date) == Day(log[j].date))
  }

  /** No entry has an empty list of sets. */
  ghost predicate SetsNonEmpty(log: Log)
  {
    forall i :: 0 <= i < |log| ==> log[i].sets != []
  }

  ghost predicate WellFormed(log: Log)
  {
    OneEntryPerDay(log) && SetsNonEmpty(log)
  }

  // ---------------------------------------------------------------------
  // Add Set

  /** The set recorded when the user submits `weight` and `reps` at `now`. */
  function NewSet(weight: int, reps: int, now: string): SetRecord
  {
    SetRecord(weight, reps, now)
  }

  /**
   * The log "Add Set" saves for an accepted input: the set is appended to
   * the first entry of the same exercise and day, whose date becomes `now`,
   * and which keeps its position; without such an entry a one-set entry
   * carrying the exercise's id, name and media is put in front.
   */
  function WithSet(log: Log, ex: Exercise, weight: int, reps: int, now: string): Log
  {
    var i := FindMatch(log, ex.id, now);
    if i >= 0 then
      log[i := log[i].(sets := log[i].sets + [NewSet(weight, reps, now)], date := now)]
    else
      [Entry(now, ex.id, ex.name, ex.media, [NewSet(weight, reps, now)])] + log
  }

  /**
   * With a matching entry: the log keeps its length, only the first
   * matching entry changes, its sets grow by the new set at the end, its
   * date becomes `now`, and it keeps its exercise, name, media and position.
   */
  lemma WithSetMerges(log: Log, ex: Exercise, weight: int, reps: int, now: string)
    requires FindMatch(log, ex.id, now) >= 0
    ensures var r, i := WithSet(log, ex, weight, reps, now), FindMatch(log, ex.id, now);
      && |r| == |log|
      && SameSlot(log[i], ex.id, now)
      && (forall j :: 0 <= j < i ==> !SameSlot(log[j], ex.id, now))
      && r[i].sets == log[i].sets + [NewSet(weight, reps, now)]
      && r[i].date == now
      && r[i].exerciseId == log[i].exerciseId
      && r[i].exerciseName == log[i].exerciseName
      && r[i].media == log[i].media
      && (forall j :: 0 <= j < |log| && j != i ==> r[j] == log[j])
  {
    FindMatchSpec(log, ex.id, now);
  }

  /**
   * Without a matching entry: the new log is the old one behind a new
   * entry holding exactly the new set and the exercise's id, name and media.
   */
  lemma WithSetPrepends(log: Log, ex: Exercise, weight: int, reps: int, now: string)
    requires FindMatch(log, ex.id, now) < 0
    ensures var r := WithSet(log, ex, weight, reps, now);
      && (forall j :: 0 <= j < |log| ==> !SameSlot(log[j], ex.id, now))
      && |r| == |log| + 1
      && r[0].sets == [NewSet(weight, reps, now)]
      && r[0].date == now
      && r[0].exerciseId == ex.id
      && r[0].exerciseName == ex.name
      && r[0].media == ex.media
      && r[1..] == log
  {
    FindMatchSpec(log, ex.id, now);
  }

  /**
   * "Add Set" as a whole: a blank weight or reps text is refused; otherwise
   * the result is the new log.
   */
  function AddSet(log: Log, ex: Exercise, weightText: string, repsText: string,
                  weight: int, reps: int, now: string): (r: Result<Log>)
    ensures r.Err? <==> weightText == "" || repsText == ""
    ensures r.Ok? ==> r.value == WithSet(log, ex, weight, reps, now)
  {
    if weightText == "" || repsText == "" then Err(MissingInput)
    else Ok(WithSet(log, ex, weight, reps, now))
  }

  /** Adding a set keeps both invariants of the log. */
  lemma WithSetWellFormed(log: Log, ex: Exercise, weight: int, reps: int, now: string)
    requires WellFormed(log)
    ensures WellFormed(WithSet(log, ex, weight, reps, now))
  {
    var r := WithSet(log, ex, weight, reps, now);
    FindMatchSpec(log, ex.id, now);
    var m := FindMatch(log, ex.id, now);
    if m >= 0 {
      assert Day(r[m].date) == Day(log[m].date);
      forall i, j | 0 <= i < j < |r|
        ensures !(r[i].exerciseId == r[j].exerciseId && Day(r[i].date) == Day(r[j].date))
      {
        assert r[i].exerciseId == log[i].exerciseId && Day(r[i].date) == Day(log[i].date);
        assert r[j].exerciseId == log[j].exerciseId && Day(r[j].date) == Day(log[j].date);
      }
    } else {
      forall i, j | 0 <= i < j < |r|
        ensures !(r[i].exerciseId == r[j].exerciseId && Day(r[i].date) == Day(r[j].date))
      {
        assert r[j] == log[j - 1];
        if i == 0 {
          assert !SameSlot(log[j - 1], ex.id, now);
        } else {
          assert r[i] == log[i - 1];
        }
      }
      assert forall i :: 1 <= i < |r| ==> r[i] == log[i - 1];
    }
  }

  /** An accepted "Add Set" keeps a well-formed log well formed. */
  lemma AddSetWellFormed(log: Log, ex: Exercise, weightText: string, repsText: string,
                         weight: int, reps: int, now: string)
    requires WellFormed(log)
    ensures AddSet(log, ex, weightText, repsText, weight, reps, now).Ok? ==>
      WellFormed(AddSet(log, ex, weightText, repsText, weight, reps, now).value)
  {
    if weightText != "" && repsText != "" {
      WithSetWellFormed(log, ex, weight, reps, now);
    }
  }

  // ---------------------------------------------------------------------
  // Several submissions

  /** What the user submits on one press of "Add Set". */
  datatype Submission = Submission(weight: int, reps: int, time: string)

  /** The log after the submissions, in order, for exercise `ex`. */
  function Replay(log: Log, ex: Exercise, subs: seq<Submission>): Log
    decreases |subs|
  {
    if subs == [] then log
    else
      var n := |subs| - 1;
      WithSet(Replay(log, ex, subs[..n]), ex, subs[n].weight, subs[n].reps, subs[n].time)
  }

  /** The set records the submissions produce, in submission order. */
  function Records(subs: seq<Submission>): seq<SetRecord>
  {
    seq(|subs|, k requires 0 <= k < |subs| => NewSet(subs[k].weight, subs[k].reps, subs[k].time))
  }

  /**
   * Submissions for one exercise, all on calendar day `d`, into a log with
   * no entry for that exercise and day, give exactly one new entry, in
   * front, holding the submitted sets in submission order; the rest of the
   * log is untouched.
   */
  lemma {:induction false} SameDayReplay(log: Log, ex: Exercise, subs: seq<Submission>, d: string)
    requires subs != []
    requires forall k :: 0 <= k < |subs| ==> Day(subs[k].time) == d
    requires forall j :: 0 <= j < |log| ==> !(log[j].exerciseId == ex.id && Day(log[j].date) == d)
    ensures var r := Replay(log, ex, subs);
      && |r| == |log| + 1
      && r[0].exerciseId == ex.id && r[0].exerciseName == ex.name && r[0].media == ex.media
      && r[0].date == subs[|subs| - 1].time && Day(r[0].date) == d
      && r[0].sets == Records(subs)
      && r[1..] == log
      && (forall j :: 1 <= j < |r| ==> !(r[j].exerciseId == ex.id && Day(r[j].date) == d))
  {
    var n := |subs| - 1;
    var s := subs[n];
    var prev := Replay(log, ex, subs[..n]);
    assert Replay(log, ex, subs) == WithSet(prev, ex, s.weight, s.reps, s.time);
    FindMatchSpec(prev, ex.id, s.time);
    if n == 0 {
      assert prev == log;
      assert FindMatch(prev, ex.id, s.time) < 0;
      assert Records(subs) == [NewSet(s.weight, s.reps, s.time)];
    } else {
      forall k | 0 <= k < n ensures Day(subs[..n][k].time) == d { assert subs[..n][k] == subs[k]; }
      SameDayReplay(log, ex, subs[..n], d);
      assert SameSlot(prev[0], ex.id, s.time);
      assert FindMatch(prev, ex.id, s.time) == 0;
      var r := Replay(log, ex, subs);
      assert r[0].sets == Records(subs[..n]) + [NewSet(s.weight, s.reps, s.time)];
      assert Records(subs) == Records(subs[..n]) + [NewSet(s.weight, s.reps, s.time)] by {
        forall k | 0 <= k < |subs|
          ensures Records(subs)[k] == (Records(subs[..n]) + [NewSet(s.weight, s.reps, s.time)])[k]
        {
          if k < n { assert subs[..n][k] == subs[k]; }
        }
      }
      assert r[1..] == prev[1..] by {
        assert forall j :: 1 <= j < |r| ==> r[j] == prev[j];
      }
    }
  }

  /**
   * Submissions for one exercise, all on calendar day `d`, into a log whose
   * first entry for that exercise and day is at index `i`, all land in that
   * entry, after its earlier sets and in submission order; the log keeps its
   * length and every other entry.
   */
  lemma {:induction false} ReplayIntoExisting(log: Log, ex: Exercise, subs: seq<Submission>, d: string, i: nat)
    requires i < |log| && log[i].exerciseId == ex.id && Day(log[i].date) == d
    requires forall j :: 0 <= j < i ==> !(log[j].exerciseId == ex.id && Day(log[j].date) == d)
    requires forall k :: 0 <= k < |subs| ==> Day(subs[k].time) == d
    ensures var r := Replay(log, ex, subs);
      && |r| == |log|
      && r[i].exerciseId == ex.id && r[i].exerciseName == log[i].exerciseName && r[i].media == log[i].media
      && Day(r[i].date) == d
      && r[i].sets == log[i].sets + Records(subs)
      && (forall j :: 0 <= j < |log| && j != i ==> r[j] == log[j])
  {
    if subs == [] {
      assert Records(subs) == [];
    } else {
      var n := |subs| - 1;
      var s := subs[n];
      var prev := Replay(log, ex, subs[..n]);
      forall k | 0 <= k < n ensures Day(subs[..n][k].time) == d { assert subs[..n][k] == subs[k]; }
      ReplayIntoExisting(log, ex, subs[..n], d, i);
      FindMatchSpec(prev, ex.id, s.time);
      assert SameSlot(prev[i], ex.id, s.time);
      assert forall j :: 0 <= j < i ==> prev[j] == log[j];
      assert FindMatch(prev, ex.id, s.time) == i;
      WithSetMerges(prev, ex, s.weight, s.reps, s.time);
      assert Replay(log, ex, subs) == WithSet(prev, ex, s.weight, s.reps, s.time);
      assert Records(subs) == Records(subs[..n]) + [NewSet(s.weight, s.reps, s.time)] by {
        forall k | 0 <= k < |subs|
          ensures Records(subs)[k] == (Records(subs[..n]) + [NewSet(s.weight, s.reps, s.time)])[k]
        {
          if k < n { assert subs[..n][k] == subs[k]; }
        }
      }
    }
  }

  /** The sets already logged for exercise `id` on the day of `t`. */
  function SlotSets(log: Log, id: string, t: string): seq<SetRecord>
  {
    var m := FindMatch(log, id, t);
    if m >= 0 then log[m].sets else []
  }

  /**
   * After a set is added, its own slot is found at the merge target (or in
   * front, for a new entry), and holds the slot's earlier sets followed by
   * the new one.
   */
  lemma WithSetOwnSlot(log: Log, ex: Exercise, weight: int, reps: int, now: string)
    ensures var r, m := WithSet(log, ex, weight, reps, now), FindMatch(log, ex.id, now);
      && FindMatch(r, ex.id, now) == (if m >= 0 then m else 0)
      && SlotSets(r, ex.id, now) == SlotSets(log, ex.id, now) + [NewSet(weight, reps, now)]
  {
    var r := WithSet(log, ex, weight, reps, now);
    var m := FindMatch(log, ex.id, now);
    FindMatchSpec(log, ex.id, now);
    FindMatchSpec(r, ex.id, now);
    if m >= 0 {
      assert SameSlot(r[m], ex.id, now);
      assert forall j :: 0 <= j < m ==> r[j] == log[j];
    } else {
      assert SameSlot(r[0], ex.id, now);
    }
  }

  /**
   * Adding a set leaves every other slot alone: its entry is the same
   * entry, at the same index after a merge and one further back after a new
   * entry is put in front, and it holds the same sets.
   */
  lemma WithSetOtherSlot(log: Log, ex: Exercise, weight: int, reps: int, now: string, id: string, t: string)
    requires ex.id != id || Day(now) != Day(t)
    ensures var r, m, k := WithSet(log, ex, weight, reps, now), FindMatch(log, ex.id, now), FindMatch(log, id, t);
      && FindMatch(r, id, t) == (if k < 0 || m >= 0 then k else k + 1)
      && (k >= 0 ==> r[FindMatch(r, id, t)] == log[k])
      && SlotSets(r, id, t) == SlotSets(log, id, t)
  {
    var r := WithSet(log, ex, weight, reps, now);
    var m := FindMatch(log, ex.id, now);
    var k := FindMatch(log, id, t);
    FindMatchSpec(log, ex.id, now);
    FindMatchSpec(log, id, t);
    FindMatchSpec(r, id, t);
    if m >= 0 {
      assert !SameSlot(r[m], id, t);
      assert forall j :: 0 <= j < |log| && j != m ==> r[j] == log[j];
      if k >= 0 {
        assert k != m;
        assert SameSlot(r[k], id, t);
      }
    } else {
      assert !SameSlot(r[0], id, t);
      assert forall j :: 1 <= j < |r| ==> r[j] == log[j - 1];
      if k >= 0 {
        assert SameSlot(r[k + 1], id, t);
      }
    }
  }

  /**
   * Two submissions that differ in exercise or in calendar day go to two
   * different entries, whatever the log: each slot ends with its own new
   * set, after the sets it already held.
   */
  lemma SeparateSlots(log: Log, ex1: Exercise, s1: Submission, ex2: Exercise, s2: Submission)
    requires ex1.id != ex2.id || Day(s1.time) != Day(s2.time)
    ensures var r := WithSet(WithSet(log, ex1, s1.weight, s1.reps, s1.time), ex2, s2.weight, s2.reps, s2.time);
      var a, b := FindMatch(r, ex1.id, s1.time), FindMatch(r, ex2.id, s2.time);
      && 0 <= a < |r| && 0 <= b < |r| && a != b
      && r[a].sets == SlotSets(log, ex1.id, s1.time) + [NewSet(s1.weight, s1.reps, s1.time)]
      && r[b].sets == SlotSets(log, ex2.id, s2.time) + [NewSet(s2.weight, s2.reps, s2.time)]
  {
    var mid := WithSet(log, ex1, s1.weight, s1.reps, s1.time);
    var r := WithSet(mid, ex2, s2.weight, s2.reps, s2.time);
    WithSetOwnSlot(log, ex1, s1.weight, s1.reps, s1.time);
    WithSetOtherSlot(log, ex1, s1.weight, s1.reps, s1.time, ex2.id, s2.time);
    WithSetOwnSlot(mid, ex2, s2.weight, s2.reps, s2.time);
    WithSetOtherSlot(mid, ex2, s2.weight, s2.reps, s2.time, ex1.id, s1.time);
    FindMatchSpec(r, ex1.id, s1.time);
    FindMatchSpec(r, ex2.id, s2.time);
  }

  /**
   * Into a log with an entry for neither slot, the two submissions give two
   * new one-set entries in front, the later one first.
   */
  lemma SeparateNewSlots(log: Log, ex1: Exercise, s1: Submission, ex2: Exercise, s2: Submission)
    requires ex1.id != ex2.id || Day(s1.time) != Day(s2.time)
    requires FindMatch(log, ex1.id, s1.time) < 0 && FindMatch(log, ex2.id, s2.time) < 0
    ensures var r := WithSet(WithSet(log, ex1, s1.weight, s1.reps, s1.time), ex2, s2.weight, s2.reps, s2.time);
      && |r| == |log| + 2
      && r[0].exerciseId == ex2.id && r[0].sets == [NewSet(s2.weight, s2.reps, s2.time)]
      && r[1].exerciseId == ex1.id && r[1].sets == [NewSet(s1.weight, s1.reps, s1.time)]
      && r[2..] == log
  {
    var mid := WithSet(log, ex1, s1.weight, s1.reps, s1.time);
    WithSetOtherSlot(log, ex1, s1.weight, s1.reps, s1.time, ex2.id, s2.time);
  }

  // ---------------------------------------------------------------------
  // Next-weight suggestion

  /**
   * `Math.round(w * 0.05 * 10) / 10` kg for a weight of `w` tenths, in
   * tenths: the integer nearest to w / 20, halves rounded up.
   */
  function FivePercent(w: int): (q: int)
    ensures 20 * q - 10 <= w < 20 * q + 10
  {
    (w + 10) / 20
  }

  /**
   * The suggested next weight for a last weight of `w` tenths:
   * `w + max(25, FivePercent(w))`, i.e. at least 2.5 kg more.
   */
  function NextWeight(w: int): (r: int)
    ensures r - w >= 25
    ensures r - w >= FivePercent(w)
    ensures r - w == 25 || r - w == FivePercent(w)
  {
    var add := if FivePercent(w) > 25 then FivePercent(w) else 25;
    w + add
  }

  /** 60 kg gives 63 kg; 20 kg gives 22.5 kg. */
  lemma NextWeightExamples()
    ensures NextWeight(600) == 630
    ensures NextWeight(200) == 225
  {
  }

  /** An entry of exercise `id` that has at least one set. */
  predicate HasSetsFor(e: Entry, id: string)
  {
    e.exerciseId == id && |e.sets| > 0
  }

  /** The entry the suggestion reads: the first of exercise `id` with sets, or -1. */
  function FirstWithSets(log: Log, id: string): int
  {
    FirstIndex(log, e => HasSetsFor(e, id))
  }

  /** The weight of the last set of an entry. */
  function LastWeight(e: Entry): int
    requires e.sets != []
  {
    e.sets[|e.sets| - 1].weight
  }

  /**
   * `suggestNextWeight(id)`: None when no entry of exercise `id` has sets;
   * otherwise the next weight after the last set of the first such entry.
   */
  function Suggestion(log: Log, id: string): (r: Option<int>)
    ensures r.None? <==> forall j :: 0 <= j < |log| ==> !HasSetsFor(log[j], id)
    ensures r.Some? ==> exists i ::
      && 0 <= i < |log| && HasSetsFor(log[i], id)
      && (forall j :: 0 <= j < i ==> !HasSetsFor(log[j], id))
      && r.value == NextWeight(LastWeight(log[i]))
    ensures r.Some? ==> exists i ::
      && 0 <= i < |log| && HasSetsFor(log[i], id)
      && r.value >= LastWeight(log[i]) + 25
  {
    var i := FirstWithSets(log, id);
    if i < 0 then None else Some(NextWeight(LastWeight(log[i])))
  }

  /**
   * Only the first entry of the exercise with sets matters: two logs whose
   * first such entries, wherever they sit, end in the same weight suggest
   * the same.
   */
  lemma SuggestionLocal(log1: Log, log2: Log, id: string, i1: nat, i2: nat)
    requires i1 < |log1| && HasSetsFor(log1[i1], id)
    requires forall j :: 0 <= j < i1 ==> !HasSetsFor(log1[j], id)
    requires i2 < |log2| && HasSetsFor(log2[i2], id)
    requires forall j :: 0 <= j < i2 ==> !HasSetsFor(log2[j], id)
    requires LastWeight(log1[i1]) == LastWeight(log2[i2])
    ensures Suggestion(log1, id) == Suggestion(log2, id) == Some(NextWeight(LastWeight(log1[i1])))
  {
    FirstWithSetsAt(log1, id, i1);
    FirstWithSetsAt(log2, id, i2);
  }

  lemma FirstWithSetsAt(log: Log, id: string, i: nat)
    requires i < |log| && HasSetsFor(log[i], id)
    requires forall j :: 0 <= j < i ==> !HasSetsFor(log[j], id)
    ensures FirstWithSets(log, id) == i
  {
    var k := FirstWithSets(log, id);
    assert (e => HasSetsFor(e, id))(log[i]);
    if k < i {
      assert (e => HasSetsFor(e, id))(log[k]);
    }
  }

  /**
   * After a set of weight `w` is added, the suggestion for that exercise
   * is based on `w`, unless an earlier entry of the same exercise (from
   * another day) precedes the entry the set was merged into.
   */
  lemma SuggestionAfterWithSet(log: Log, ex: Exercise, weight: int, reps: int, now: string)
    requires FindMatch(log, ex.id, now) >= 0 ==> FirstWithSets(log, ex.id) == FindMatch(log, ex.id, now)
    ensures Suggestion(WithSet(log, ex, weight, reps, now), ex.id) == Some(NextWeight(weight))
  {
    var r := WithSet(log, ex, weight, reps, now);
    var m := FindMatch(log, ex.id, now);
    FindMatchSpec(log, ex.id, now);
    if m >= 0 {
      var f := FirstWithSets(log, ex.id);
      assert forall j :: 0 <= j < m ==> !HasSetsFor(log[j], ex.id) by {
        forall j | 0 <= j < m ensures !HasSetsFor(log[j], ex.id) {
          assert !(e => HasSetsFor(e, ex.id))(log[j]);
        }
      }
      FirstWithSetsAt(r, ex.id, m);
    } else {
      FirstWithSetsAt(r, ex.id, 0);
    }
  }

  // ---------------------------------------------------------------------
  // Last entry and clearing

  /** `getLast()`: the head of the log, or None when it is empty. */
  function Last(log: Log): (r: Option<Entry>)
    ensures r.None? <==> |log| == 0
    ensures r.Some? ==> r.value == log[0]
  {
    if |log| > 0 then Some(log[0]) else None
  }

  /** The log after "Clear all data". */
  function Cleared(): Log
  {
    []
  }

  /** A cleared log has no last entry and no suggestion for any exercise. */
  lemma ClearedIsEmpty(id: string)
    ensures Last(Cleared()) == None
    ensures Suggestion(Cleared(), id) == None
  {
  }

  /** A set that opens a new entry makes that entry the last one shown. */
  lemma LastAfterNewEntry(log: Log, ex: Exercise, weight: int, reps: int, now: string)
    requires FindMatch(log, ex.id, now) < 0
    ensures Last(WithSet(log, ex, weight, reps, now))
         == Some(Entry(now, ex.id, ex.name, ex.media, [NewSet(weight, reps, now)]))
  {
    var r := WithSet(log, ex, weight, reps, now);
    assert r[0] == Entry(now, ex.id, ex.name, ex.media, [NewSet(weight, reps, now)]);
  }

  /**
   * A set merged into an entry that is not in front leaves the log's head
   * where it was: the last entry shown is then not the one just updated.
   */
  lemma LastAfterMergeStaysPut(log: Log, ex: Exercise, weight: int, reps: int, now: string)
    requires FindMatch(log, ex.id, now) > 0
    ensures Last(WithSet(log, ex, weight, reps, now)) == Last(log)
    ensures Last(WithSet(log, ex, weight, reps, now)).value.exerciseId != ex.id
         || Day(Last(WithSet(log, ex, weight, reps, now)).value.date) != Day(now)
  {
    FindMatchSpec(log, ex.id, now);
    assert !SameSlot(log[0], ex.id, now);
  }
}
