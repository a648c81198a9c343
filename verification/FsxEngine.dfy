/** The batch engine: journaled execution of a plan, rollback, and recovery from the journal. */
module FsxEngine {
  import opened FsxLog
  import opened FsxNames
  import opened FsxPlan
  import opened FsxPolicy
  import opened FsxReplay
  import opened FsxRestart
  import opened FsxRollback
  import opened FsxSound
  import opened FsxStore
  import opened FsxUndo
  import opened Text

  /** The journal file as its parser sees it. */
  datatype Journal = Absent | Blank | Malformed | Log(entries: seq<Marked>, committed: bool)

  /** What survives if the process dies at this moment. */
  datatype Snapshot = Snapshot(world: World, journal: Journal)

  // ----- What a crash may find -----

  /** An open journal that a run has written, and regular files, if any, under its restore staging names. */
  ghost predicate Formed(s: Snapshot, o: Origin) {
    && s.journal.Log? && !s.journal.committed
    && LogForm(s.journal.entries, o) && RegularAt(s.world.disk, Stagings(s.journal.entries))
  }

  /** Recovering a journal succeeds and restores exactly if every file, followed by itself, returns. */
  lemma FormedOutcome(s: Snapshot, o: Origin)
    requires Formed(s, o)
    ensures var r := RecoverAll(s.world, s.journal.entries);
      r.Ok? && SameOutside(r.value.disk, o.initial, Temps(o)) <==>
        FilesReturn(s.world.disk, s.journal.entries, o.initial, Temps(o))
  {
    hide RecoverAll, UndoAll, FilesReturn, SameOutside, AllRespect, Pins, Acceptable, Apart, Loose, Stagings;
    RecoverIsUndo(s.world, s.journal.entries, Temps(o), o.serial);
    LogFormReplays(s.journal.entries, o);
    FormKeepsOff(s.journal.entries, Temps(o));
    RestartIff(s.world, s.journal.entries, o.initial, Temps(o));
  }

  /** The files are all as they were, or all as the plan wants them; and which of the two it is can
      be told from the journal. */
  ghost predicate CrashSafe(s: Snapshot, o: Origin, goal: Option<View>, orderly: bool) {
    match s.journal
    case Log(entries, false) => Recoverable(s.world, entries, o) && Formed(s, o) && (orderly ==> Reentrant(entries))
    case Log(_, true) => goal == Some(ViewOf(s.world.disk, Temps(o)))
    case _ => goal == Some(ViewOf(s.world.disk, Temps(o))) || SameOutside(s.world.disk, o.initial, Temps(o))
  }

  /** The same undo with the same mark; the step number may differ. */
  predicate SameRecord(a: Marked, b: Marked) {
    a.undo == b.undo && a.restored == b.restored
  }

  lemma UndoSameRecord(w: World, a: Marked, b: Marked)
    requires SameRecord(a, b)
    ensures UndoOne(w, a) == UndoOne(w, b)
  {
  }

  /** The journals differ at most in the mark of record i - 1. */
  ghost predicate SameButMark(before: Journal, after: Journal, i: nat) {
    && before.Log? && after.Log? && before.committed == after.committed
    && 0 < i <= |before.entries| == |after.entries|
    && after.entries[i - 1].undo == before.entries[i - 1].undo
    && forall j :: 0 <= j < |before.entries| && j != i - 1 ==> after.entries[j] == before.entries[j]
  }

  datatype RecoverResult = RecoverResult(ok: bool, rolledBack: nat, skipped: nat, complete: bool)

  /** The first i entries of the journal are those of the undo stack. */
  ghost predicate SameBelow(j: Journal, stack: seq<Marked>, i: nat) {
    && j.Log? && i <= |j.entries| == |stack|
    && forall k :: 0 <= k < i ==> SameRecord(j.entries[k], stack[k])
  }

  lemma StackIsBelow(j: Journal, stack: seq<Marked>)
    requires j.Log? && |j.entries| == |stack|
    requires forall i :: 0 <= i < |stack| ==> SameRecord(j.entries[i], stack[i])
    ensures SameBelow(j, stack, |stack|)
  {
  }

  lemma SameBelowStep(before: Journal, after: Journal, stack: seq<Marked>, i: nat)
    requires SameBelow(before, stack, i) && 0 < i && SameButMark(before, after, i)
    ensures SameBelow(after, stack, i - 1)
  {
  }

  /** The journal holds this record at this place. */
  ghost predicate EntryIs(entries: seq<Marked>, m: Marked, e: nat) {
    e < |entries| && SameRecord(entries[e], m)
  }

  /** Each of the first i records of the stack is in the journal, with the same mark. */
  ghost predicate OnRecord(j: Journal, stack: seq<Marked>, i: nat) {
    j.Log? && i <= |stack| && forall l :: 0 <= l < i ==> IsOnRecord(j.entries, stack[l])
  }

  ghost predicate IsOnRecord(entries: seq<Marked>, m: Marked) {
    exists e :: EntryIs(entries, m, e)
  }

  ghost function IndexOf(entries: seq<Marked>, m: Marked): (e: nat)
    requires IsOnRecord(entries, m)
    ensures e < |entries| && SameRecord(entries[e], m)
  {
    var e :| EntryIs(entries, m, e);
    e
  }

  lemma OnRecordSnoc(j: Journal, stack: seq<Marked>, entry: Marked, m: Marked)
    requires OnRecord(j, stack, |stack|) && SameRecord(entry, m)
    ensures OnRecord(j.(entries := j.entries + [entry]), stack, |stack|)
    ensures OnRecord(j.(entries := j.entries + [entry]), stack + [m], |stack| + 1)
  {
    var longer := j.entries + [entry];
    assert EntryIs(longer, m, |j.entries|);
    forall l | 0 <= l < |stack| ensures IsOnRecord(longer, stack[l]) {
      var e :| EntryIs(j.entries, stack[l], e);
      assert EntryIs(longer, stack[l], e);
    }
  }

  lemma WitnessesDiffer(log: seq<Marked>, l: nat, k: nat)
    requires Acceptable(log) && l < k < |log|
    ensures log[l].undo.ReplaceFile? && log[k].undo.ReplaceFile? ==> log[l].undo.from != log[k].undo.from
  {
    hide ValidStamp, IsStagingName, HasRemoval, AllAbsolute;
    assert AcceptableNext(log[..k], log[k].undo);
    assert log[..k][l] == log[l];
  }

  /** Marking the journal's entry for one record leaves the earlier records of the stack on record. */
  lemma OnRecordStep(before: Journal, after: Journal, stack: seq<Marked>, i: nat, e: nat)
    requires OnRecord(before, stack, i) && 0 < i && SameButMark(before, after, e + 1) && Acceptable(stack)
    requires SameRecord(before.entries[e], stack[i - 1])
    requires after == before || stack[i - 1].undo.ReplaceFile?
    ensures OnRecord(after, stack, i - 1)
  {
    hide Acceptable;
    forall l | 0 <= l < i - 1 ensures IsOnRecord(after.entries, stack[l]) {
      assert IsOnRecord(before.entries, stack[l]);
      var f :| EntryIs(before.entries, stack[l], f);
      WitnessesDiffer(stack, l, i - 1);
      assert EntryIs(after.entries, stack[l], f);
    }
  }

  lemma RestartableStart(w: World, j: Journal, o: Origin)
    requires Restartable(Snapshot(w, j), o)
    ensures Recovering(w, j.entries, |j.entries|, o, Pins(j.entries)) && EachRestartable([], o)
  {
    hide Recoverable, Reentrant, Pins;
    RecoveringStart(w, j.entries, o);
  }

  lemma RestoresLast(w: World, log: seq<Marked>, i: nat, o: Origin)
    requires 0 < i <= |log|
    ensures Restores(w, log[..i], o.initial, Temps(o)) ==>
      UndoOne(w, log[i - 1]).Ok? && Restores(UndoOne(w, log[i - 1]).value, log[..i - 1], o.initial, Temps(o))
  {
    hide UndoOne;
    assert log[..i] == log[..i - 1] + [log[i - 1]];
    UndoAllSnoc(w, log[..i - 1], log[i - 1]);
  }

  lemma RestoresNothing(w: World, o: Origin)
    ensures Restores(w, [], o.initial, Temps(o)) ==> SameOutside(w.disk, o.initial, Temps(o))
  {
  }

  lemma RecoverAllLast(w: World, log: seq<Marked>, i: nat)
    requires 0 < i <= |log|
    ensures RecoverAll(w, log[..i])
      == if RecoverOne(w, log[i - 1]).Err? then RecoverOne(w,
        log[i - 1]) else RecoverAll(RecoverOne(w, log[i - 1]).value, log[..i - 1])
    ensures RecoverOne(w, log[i - 1]).Ok? ==>
      UndoneCount(w, log[..i]) == (if RecoverOne(w, log[i - 1]).value == w then 0 else 1) +
        UndoneCount(RecoverOne(w, log[i - 1]).value, log[..i - 1])
  {
    assert log[..i][..i - 1] == log[..i - 1];
  }

  /** A crash of a run has left an open journal that recovery can start from. */
  ghost predicate Started(w: World, j: Journal, o: Origin) {
    j.Log? && !j.committed && Recoverable(w, j.entries, o)
  }

  lemma RecoverableReplays(w: World, log: seq<Marked>, o: Origin)
    requires Recoverable(w, log, o)
    ensures RecoverAll(w, log).Ok? && SameOutside(RecoverAll(w, log).value.disk, o.initial, Temps(o))
  {
    hide Acceptable, Pins, RecoverAll, UndoAll;
    RecoverIsUndo(w, log, Temps(o), o.serial);
  }

  /** Crash atomicity: whatever state a crash of a run leaves behind, either its journal is open and
      recovering it succeeds and gives the initial files back, or there is nothing to recover and the
      files are all as they were or all as the plan wants them.  A COMMIT in the journal means the
      latter. */
  lemma CrashOutcome(s: Snapshot, o: Origin, goal: Option<View>, orderly: bool)
    requires CrashSafe(s, o, goal, orderly)
    ensures s.journal.Log? && !s.journal.committed ==>
      var r := RecoverAll(s.world, s.journal.entries);
      r.Ok? && ViewOf(r.value.disk, Temps(o)) == ViewOf(o.initial, Temps(o))
    ensures s.journal.Log? && s.journal.committed ==> goal == Some(ViewOf(s.world.disk, Temps(o)))
    ensures !s.journal.Log? ==>
      goal == Some(ViewOf(s.world.disk, Temps(o))) || ViewOf(s.world.disk, Temps(o)) == ViewOf(o.initial, Temps(o))
  {
    hide RecoverAll, Recoverable, ViewOf, SameOutside;
    if s.journal.Log? && !s.journal.committed {
      RecoverableReplays(s.world, s.journal.entries, o);
      SameViewIff(RecoverAll(s.world, s.journal.entries).value.disk, o.initial, Temps(o));
    }
    SameViewIff(s.world.disk, o.initial, Temps(o));
  }

  lemma MarkingKeepsAcceptable(log: seq<Marked>, after: seq<Marked>, i: nat)
    requires Acceptable(log) && i < |log|
    requires after == log || after == log[i := log[i].(restored := true)]
    ensures Acceptable(after)
  {
    hide AcceptableNext;
    forall j | 0 <= j < |after| ensures AcceptableNext(after[..j], after[j].undo) {
      assert AcceptableNext(log[..j], log[j].undo);
      SameUndosNext(log[..j], after[..j], log[j].undo);
    }
  }

  /** Recovery may be cut short here and started again. */
  ghost predicate Restartable(s: Snapshot, o: Origin) {
    && s.journal.Log? && !s.journal.committed
    && Recoverable(s.world, s.journal.entries, o) && Reentrant(s.journal.entries)
  }

  lemma RestartableIsOpen(s: Snapshot, o: Origin)
    requires Restartable(s, o)
    ensures s.journal.Log? && !s.journal.committed
  {
  }

  ghost predicate EachRestartable(snapshots: seq<Snapshot>, o: Origin) {
    forall s :: s in snapshots ==> Restartable(s, o)
  }

  ghost predicate EachFormed(snapshots: seq<Snapshot>, o: Origin) {
    forall s :: s in snapshots ==> Formed(s, o)
  }

  lemma NothingMidway(o: Origin)
    ensures EachFormed([], o) && EachRestartable([], o) && EachRestartable([][..0], o)
  {
  }

  lemma MidwayMore(a: seq<Snapshot>, b: seq<Snapshot>, s: Snapshot, o: Origin)
    ensures EachFormed(a, o) && EachFormed(b, o) && Formed(s, o) ==> EachFormed(a + b + [s], o)
    ensures EachRestartable(a, o) && EachRestartable(b, o) && Restartable(s, o) ==> EachRestartable(a + b + [s], o)
  {
    hide Restartable, Formed;
  }

  lemma NothingToRecover(w: World, log: seq<Marked>)
    requires log == []
    ensures RecoverAll(w, log) == Ok(w) && UndoneCount(w, log) == 0
  {
  }

  ghost predicate AllRestartable(worlds: seq<World>, j: Journal, o: Origin) {
    forall w :: w in worlds ==> Restartable(Snapshot(w, j), o)
  }

  ghost function SnapshotsOf(worlds: seq<World>, j: Journal): (s: seq<Snapshot>)
    ensures |s| == |worlds| && forall i :: 0 <= i < |s| ==> s[i] == Snapshot(worlds[i], j)
  {
    seq(|worlds|, i requires 0 <= i < |worlds| => Snapshot(worlds[i], j))
  }

  /** In the journal of a run a marker finds the record it is meant for. */
  lemma FormFinds(log: seq<Marked>, i: nat, o: Origin)
    requires LogForm(log, o) && i < |log| && log[i].undo.ReplaceFile?
    ensures FindReplacement(log, log[i].undo.from) == Some(i)
  {
    hide AllRespect, RemovesStagingOnly, Acceptable, Apart, FindReplacement;
    MarkerFindsItsRecord(log, i);
  }

  lemma FormMarked(w: World, log: seq<Marked>, i: nat, o: Origin)
    requires Formed(Snapshot(w, Log(log, false)), o) && i < |log|
    ensures Formed(Snapshot(w, Log(log[i := log[i].(restored := true)], false)), o)
  {
    hide LogForm, RegularAt, Stagings;
    SameUndosLogForm(log, log[i := log[i].(restored := true)], o);
  }

  lemma FormUndone(w: World, log: seq<Marked>, i: nat, o: Origin)
    requires Formed(Snapshot(w, Log(log, false)), o) && i < |log| && UndoOne(w, log[i]).Ok?
    ensures Formed(Snapshot(UndoOne(w, log[i]).value, Log(log, false)), o)
  {
    hide LogForm, ReplayForm, RegularAt, Stagings, UndoOne;
    LogFormReplays(log, o);
    FormKeepsStagings(log, Temps(o), i);
    UndoKeepsRegular(w, log[i], Stagings(log));
  }

  lemma FormTouched(before: World, after: World, log: seq<Marked>, staging: Path, o: Origin)
    requires Formed(Snapshot(before, Log(log, false)), o) && StagingTouched(before.disk, after.disk, staging)
    ensures Formed(Snapshot(after, Log(log, false)), o)
  {
    hide LogForm, Stagings, SameExcept, RegularAt;
    RegularAfterWrite(before.disk, after.disk, staging, Stagings(log));
  }

  /** The worlds a restore passes through, with the journal of a run. */
  lemma RestoreIsFormed(before: World, seen: seq<World>, after: World, j: Journal, i: nat, o: Origin)
    requires Formed(Snapshot(before, j), o) && 0 < i <= |j.entries| && j.entries[i - 1].undo.ReplaceFile?
    requires after == before || StagingTouched(before.disk, after.disk, j.entries[i - 1].undo.staging)
      || UndoOne(before, j.entries[i - 1]) == Ok(after)
    requires forall s :: s in seen ==> StagingTouched(before.disk, s.disk, j.entries[i - 1].undo.staging) || s == after
    ensures EachFormed(SnapshotsOf(seen, j), o) && Formed(Snapshot(after, j), o)
  {
    hide LogForm, RegularAt, Stagings, StagingTouched, UndoOne;
    var log := j.entries;
    assert j == Log(log, false);
    if after != before && UndoOne(before, log[i - 1]) == Ok(after) {
      FormUndone(before, log, i - 1, o);
    } else if after != before {
      FormTouched(before, after, log, log[i - 1].undo.staging, o);
    }
    forall s | s in SnapshotsOf(seen, j) ensures Formed(s, o) {
      var w :| w in seen && s == Snapshot(w, j);
      if w != after {
        FormTouched(before, w, log, log[i - 1].undo.staging, o);
      }
    }
  }

  /** The worlds a restore passes through are all ones from which recovery can start again. */
  lemma RestoreIsRestartable(
    before: World, seen: seq<World>, after: World, log: seq<Marked>, k: nat, o: Origin, pinned: set<Path>)
    requires Recovering(before, log, k, o, pinned) && 0 < k <= |log| && log[k - 1].undo.ReplaceFile?
    requires seen != [] || after != before ==> !log[k - 1].restored
    requires seen != [] || after != before ==>
      log[k - 1].undo.staging in before.disk ==> before.disk[log[k - 1].undo.staging].regular
    requires after == before || StagingTouched(before.disk, after.disk, log[k - 1].undo.staging)
      || UndoOne(before, log[k - 1]) == Ok(after)
    requires forall s :: s in seen ==> StagingTouched(before.disk, s.disk, log[k - 1].undo.staging) || s == after
    ensures Recovering(after, log, k, o, pinned)
    ensures AllRestartable(seen, Log(log, false), o)
  {
    hide Halfway, StagingTouched, UndoOne, Acceptable, RemovesStagingOnly, Pins, Recoverable, Reentrant, TempsFrom;
    StagingOfReplacement(log, k - 1, Temps(o));
    if after != before && UndoOne(before, log[k - 1]) == Ok(after) {
      HalfwayReplaced(before, log, k, o, pinned);
    } else if after != before {
      HalfwayStaging(before, after, log, k, o, pinned);
    }
    assert Recovering(after, log, k, o, pinned);
    forall s | s in seen ensures Restartable(Snapshot(s, Log(log, false)), o) {
      if s != after {
        HalfwayStaging(before, s, log, k, o, pinned);
      }
      RecoveringIsRecoverable(s, log, k, o, pinned);
    }
  }

  function WithMarker(j: Journal, from: Path): Journal {
    if !j.Log? || j.committed then Malformed
    else
      var found := FindReplacement(j.entries, from);
      if found.None? || j.entries[found.value].restored then Malformed
      else j.(entries := j.entries[found.value := j.entries[found.value].(restored := true)])
  }

  ghost predicate AllSafe(snapshots: seq<Snapshot>, o: Origin, goal: Option<View>, orderly: bool) {
    forall i :: 0 <= i < |snapshots| ==> CrashSafe(snapshots[i], o, goal, orderly)
  }

  lemma AllSafeSnoc(snapshots: seq<Snapshot>, s: Snapshot, o: Origin, goal: Option<View>, orderly: bool)
    requires AllSafe(snapshots, o, goal, orderly) && CrashSafe(s, o, goal, orderly)
    ensures AllSafe(snapshots + [s], o, goal, orderly)
  {
    hide CrashSafe;
  }

  lemma SoundIsRecoverable(w: World, log: seq<Marked>, pinned: set<Path>, next: nat, o: Origin)
    requires Sound(w, log, pinned, next, o)
    ensures Recoverable(w, log, o)
  {
    hide Restores, Acceptable, RemovesStagingOnly, Unused;
    var pins := Pins(log);
    forall p | p in pins ensures p in pinned {
      var i :| 0 <= i < |log| && log[i].undo.ReplaceFile? && (log[i].undo.from == p || log[i].undo.newWitness == p);
      assert Respects(log[i].undo, pinned, {});
    }
    forall i | 0 <= i < |log| ensures Respects(log[i].undo, pins, {}) {
      assert Respects(log[i].undo, pinned, {});
    }
  }

  lemma GoodIsFormed(w: World, j: Journal, pinned: set<Path>, next: nat, o: Origin, c: Course)
    requires j.Log? && !j.committed && GoodLog(w, j.entries, pinned, next, o, c)
    ensures Recoverable(w, j.entries, o) && Formed(Snapshot(w, j), o) && (c.orderly ==> Reentrant(j.entries))
  {
    hide Sound, Restores, AllRespect, Pins, RemovesStagingOnly, Acceptable, RegularAt, Stagings, Reentrant, Bounded;
    hide Apart;
    SoundIsRecoverable(w, j.entries, pinned, next, o);
  }

  /** Writing a staging file changes no other name, and leaves at most this file to be taken care of. */
  lemma StagedOnly(before: Disk, after: Disk, temp: Path, target: Path, cleanup: seq<Path>, temps: iset<Path>)
    requires temp in temps && target !in temps && SameExcept(after, before, {temp})
    ensures ViewOf(after, temps) == ViewOf(before, temps)
    ensures (target in after <==> target in before) && (target in after ==> after[target] == before[target])
    ensures Tidy(before, cleanup, temps, {}) ==> Tidy(after, cleanup, temps, {temp})
  {
    hide ViewOf, Tidy, SameExcept;
    ViewIgnoresTemp(after, before, temp, temps);
    SameExceptAt(after, before, {temp}, target);
    if Tidy(before, cleanup, temps, {}) {
      TidyAfterWrite(before, after, cleanup, temps, {}, {temp});
      assert {} + {temp} == {temp};
    }
  }

  /** A visible name that was free at first and that the plan has put nothing at is free. */
  lemma TargetIsFree(w: World, log: seq<Marked>, o: Origin, c: Course, p: Path)
    requires Restores(w, log, o.initial, Temps(o)) && RemovesStagingOnly(log, Temps(o)) && Shape(log, Temps(o), c) &&
      c.orderly
    requires p !in Temps(o) && p !in c.takes && p !in ViewOf(o.initial, Temps(o))
    ensures p !in w.disk
  {
    hide Restores, RemovesStagingOnly, TempsFrom, Apart, Reentrant;
    if p in w.disk {
      NewFilesAreTaken(w, log, o, p);
    }
  }

  lemma TidyAfterReplace(w: World, temp: Path, u: Undo, cleanup: seq<Path>, temps: iset<Path>)
    requires u.ReplaceFile? && temp !in PathsOf(u) && temp in w.disk && u.to !in temps
    requires Tidy(w.disk, cleanup, temps, {temp, u.from, u.newWitness})
    ensures Tidy(Renamed(w, temp, u.to).disk, cleanup + [u.from, u.newWitness], temps, {})
  {
    TidyAfterMove(w, temp, u.to, cleanup, temps, {temp, u.from, u.newWitness});
    assert {temp, u.from, u.newWitness} - {temp} == {u.from, u.newWitness};
    TidyCollected(Renamed(w, temp, u.to).disk, cleanup, temps, u.from, u.newWitness);
  }

  datatype RunResult = RunResult(
    ok: bool,
    steps: seq<StepReport>,
    completed: nat,
    skipped: nat,
    rolledBackSteps: nat,
    rollbackAttempted: bool,
    rollbackComplete: bool)

  lemma NothingSeen(o: Origin, goal: Option<View>, orderly: bool)
    ensures AllSafe([], o, goal, orderly) && EachRestartable([], o)
  {
  }

  /** A new run may overwrite the journal. */
  predicate CanStart(j: Journal) {
    j.Absent? || j.Blank? || (j.Log? && j.committed)
  }

  ghost predicate Separate(journalPath: Path, plan: seq<Action>, o: Options) {
    forall k :: 0 <= k < |plan| ==> forall p :: p in PathsNamed(plan[k], o) ==> !Overlap(journalPath, p)
  }

  /** The run is not refused: the journal is separate from all the plan works on, and can be started. */
  ghost predicate MayRun(journalPath: Path, plan: seq<Action>, o: Options, j: Journal) {
    Separate(journalPath, plan, o) && CanStart(j)
  }

  class Engine {
    var disk: Disk
    var clock: nat
    var nextSerial: nat
    var journal: Journal
    var undoStack: seq<Marked>
    var currentStep: nat
    var cleanup: seq<Path>

    /** How many times the operating system has refused an operation. */
    ghost var faults: nat
    /** Witness files that open replacement records depend on. */
    ghost var pinned: set<Path>
    /** The states a crash could have left behind so far, from the journal header up to the start of a
        rollback, and from the removal of the journal on; `Run` returns those of the rollback itself. */
    ghost var snapshots: seq<Snapshot>
    ghost var origin: Origin
    ghost var goal: Option<View>
    /** The journal holds a record that the undo stack lacks: an append failed and yet was durable. */
    ghost var desynced: bool
    /** Whether the plan is orderly, and how far the run has got in it. */
    ghost var course: Course

    function Now(): World
      reads `disk, `clock
    {
      World(disk, clock)
    }

    ghost predicate SoundLog(log: seq<Marked>)
      reads `disk, `clock, `pinned, `nextSerial, `origin, `course
    {
      GoodLog(Now(), log, pinned, nextSerial, origin, course)
    }

    ghost predicate Settled()
      reads `disk, `pinned, `cleanup, `nextSerial, `origin
    {
      && origin.serial <= nextSerial
      && (forall p :: p in disk ==> p !in TempsFrom(nextSerial))
      && (forall p :: p in pinned ==> p in Temps(origin) && p !in TempsFrom(nextSerial))
      && (forall p :: p in cleanup ==> p in Temps(origin))
    }

    /** The invariant of a run between its journal header and its COMMIT. */
    ghost predicate Forward()
      reads this
    {
      && journal.Log? && !journal.committed
      && SoundLog(undoStack) && SoundLog(journal.entries)
      && Settled()
      && InStep()
      && AllSafe(snapshots, origin, goal, course.orderly)
    }

    /** The undo stack speaks of steps up to the current one, and of what the journal records. */
    ghost predicate InStep()
      reads `undoStack, `currentStep, `journal, `desynced
    {
      && (forall i :: 0 <= i < |undoStack| ==> undoStack[i].step <= currentStep)
      && OnRecord(journal, undoStack, |undoStack|)
      && (desynced || StackOnRecord())
    }

    /** The journal records exactly the steps on the undo stack. */
    ghost predicate StackOnRecord()
      reads `undoStack, `journal
    {
      && journal.Log? && !journal.committed && |journal.entries| == |undoStack|
      && forall i :: 0 <= i < |undoStack| ==> SameRecord(journal.entries[i], undoStack[i])
    }

    ghost predicate IsScratch(p: Path)
      reads `disk, `undoStack, `pinned, `origin, `journal, `nextSerial
    {
      && journal.Log?
      && Scratch(disk, undoStack, pinned, origin, p) && Scratch(disk, journal.entries, pinned, origin, p)
      && p !in TempsFrom(nextSerial) && IsAbsolute(p)
    }

    ghost predicate IsVisible(p: Path)
      reads `origin
    {
      p !in Temps(origin) && IsAbsolute(p)
    }

    /** Nothing in either log speaks of the path. */
    ghost predicate IsUnmentioned(p: Path)
      reads `undoStack, `journal
    {
      journal.Log? && !Mentions(undoStack, p) && !Mentions(journal.entries, p)
    }

    ghost function VisibleFiles(): View
      reads `disk, `origin
    {
      ViewOf(disk, Temps(origin))
    }

    /** The only staging files on the disk are those to be deleted after COMMIT, and `extra`. */
    ghost predicate TidyBut(extra: set<Path>)
      reads `disk, `cleanup, `origin
    {
      Tidy(disk, cleanup, Temps(origin), extra)
    }

    /** No staging file of the run is left on the disk. */
    ghost predicate NoLitter()
      reads `disk, `origin
    {
      forall p :: p in disk ==> p !in Temps(origin)
    }

    /** Both logs hold the record that removes the staging file. */
    ghost predicate IsRemoved(p: Path)
      reads `undoStack, `journal
    {
      journal.Log? && HasRemoval(undoStack, p) && HasRemoval(journal.entries, p)
    }

    ghost method Observe()
      requires CrashSafe(Snapshot(Now(), journal), origin, goal, course.orderly)
      requires AllSafe(snapshots, origin, goal, course.orderly)
      modifies `snapshots
      ensures AllSafe(snapshots, origin, goal, course.orderly)
    {
      AllSafeSnoc(snapshots, Snapshot(Now(), journal), origin, goal, course.orderly);
      snapshots := snapshots + [Snapshot(Now(), journal)];
    }

    /** A crash while the logs are sound. */
    ghost method ObserveForward()
      requires journal.Log? && !journal.committed && SoundLog(journal.entries)
      requires AllSafe(snapshots, origin, goal, course.orderly)
      modifies `snapshots
      ensures AllSafe(snapshots, origin, goal, course.orderly)
    {
      hide InStep, GoodLog, Recoverable, Reentrant, TempsFrom, AllSafe, RegularAt, Stagings, LogForm;
      GoodIsFormed(Now(), journal, pinned, nextSerial, origin, course);
      Observe();
    }

    method MakeTempPath(base: Path, tag: string) returns (p: Path)
      requires Forward() && IsAbsolute(base)
      modifies `nextSerial
      ensures Forward() && IsScratch(p) && IsUnmentioned(p) && p !in disk && IsStagingName(p)
      ensures p in TempsFrom(old(nextSerial)) && TempsFrom(nextSerial) <= TempsFrom(old(nextSerial))
      ensures forall q {:trigger IsScratch(q)} :: old(IsScratch(q)) ==> IsScratch(q)
      ensures forall q {:trigger IsUnmentioned(q)} :: old(IsUnmentioned(q)) ==> IsUnmentioned(q)
    {
      hide InStep, Restores, AllRespect, Acceptable, Shape, AllSafe, Mentions, TempsFrom, RemovesStagingOnly;
      hide RegularAt, Stagings;
      var now: nat := *;
      p := TempName(base, tag, now, nextSerial);
      TempNameIsStaging(base, tag, now, nextSerial);
      NextNameFresh(base, tag, now, nextSerial);
      TempsShrink(nextSerial, nextSerial + 1);
      TempsShrink(origin.serial, nextSerial);
      GoodLater(Now(), undoStack, pinned, nextSerial, origin, course);
      GoodLater(Now(), journal.entries, pinned, nextSerial, origin, course);
      assert !Mentions(undoStack, p) && !Mentions(journal.entries, p);
      UnmentionedOnlyRemoved(undoStack, p);
      UnmentionedOnlyRemoved(journal.entries, p);
      nextSerial := nextSerial + 1;
    }

    /** One write to a staging file. */
    method PutTemp(temp: Path, data: string)
      requires Forward() && IsScratch(temp)
      modifies `disk, `clock, `snapshots
      ensures Forward() && IsScratch(temp)
      ensures SameExcept(disk, old(disk), {temp})
      ensures temp in disk && disk[temp].regular && disk[temp].data == data && ValidStamp(disk[temp].stamp)
      ensures forall q {:trigger IsScratch(q)} :: old(IsScratch(q)) ==> IsScratch(q)
    {
      hide InStep, GoodLog, AllSafe, TempsFrom, OnlyRemoved, ValidStamp;
      StampAtValid(clock);
      ghost var before := Now();
      var after := Stored(Now(), temp, data);
      GoodWrite(after, before, undoStack, pinned, nextSerial, origin, course, temp);
      GoodWrite(after, before, journal.entries, pinned, nextSerial, origin, course, temp);
      disk, clock := after.disk, after.clock;
      ObserveForward();
    }

    method DropTemp(temp: Path)
      requires Forward() && IsScratch(temp)
      modifies `disk, `clock, `snapshots
      ensures Forward() && IsScratch(temp)
      ensures disk == old(disk) - {temp}
      ensures forall q {:trigger IsScratch(q)} :: old(IsScratch(q)) ==> IsScratch(q)
    {
      hide InStep, GoodLog, AllSafe, TempsFrom, OnlyRemoved, ValidStamp;
      ghost var before := Now();
      var after := Removed(Now(), temp);
      GoodWrite(after, before, undoStack, pinned, nextSerial, origin, course, temp);
      GoodWrite(after, before, journal.entries, pinned, nextSerial, origin, course, temp);
      disk, clock := after.disk, after.clock;
      ObserveForward();
    }

    /** `write_temporary_file`: a failed write may leave anything or nothing under the staging name. */
    method WriteTemporaryFile(temp: Path, data: string) returns (ok: bool)
      requires Forward() && IsScratch(temp)
      modifies `disk, `clock, `faults, `snapshots
      ensures Forward() && IsScratch(temp)
      ensures SameExcept(disk, old(disk), {temp})
      ensures ok ==> faults == old(faults) && temp in disk && disk[temp].regular && disk[temp].data == data
      ensures ok ==> ValidStamp(disk[temp].stamp)
      ensures !ok ==> old(faults) < faults
      ensures forall q {:trigger IsScratch(q)} :: old(IsScratch(q)) ==> IsScratch(q)
    {
      hide InStep, GoodLog, AllSafe, TempsFrom, OnlyRemoved, ValidStamp;
      var refused: bool := *;
      if refused {
        faults := faults + 1;
        return false;
      }
      var partly: string := *;
      PutTemp(temp, partly);
      refused := *;
      if refused {
        faults := faults + 1;
        var removed: bool := *;
        if removed {
          DropTemp(temp);
        }
        return false;
      }
      PutTemp(temp, data);
      ok := true;
    }

    /** `copy_to_temporary_file`: copies a regular file to a staging name. */
    method CopyToTemporaryFile(src: Path, temp: Path) returns (ok: bool)
      requires Forward() && IsScratch(temp) && src != temp
      modifies `disk, `clock, `faults, `snapshots
      ensures Forward() && IsScratch(temp)
      ensures SameExcept(disk, old(disk), {temp})
      ensures ok ==> src in old(disk) && old(disk)[src].regular
      ensures ok ==>
        faults == old(faults) && temp in disk && disk[temp].regular && disk[temp].data == old(disk)[src].data
      ensures ok ==> ValidStamp(disk[temp].stamp)
      ensures !ok ==> src !in old(disk) || !old(disk)[src].regular || old(faults) < faults
      ensures old(faults) <= faults
      ensures forall q {:trigger IsScratch(q)} :: old(IsScratch(q)) ==> IsScratch(q)
    {
      hide InStep, GoodLog, AllSafe, TempsFrom, OnlyRemoved, ValidStamp;
      if src !in disk || !disk[src].regular {
        return false;
      }
      ok := WriteTemporaryFile(temp, disk[src].data);
    }

    /** `record_undo`: the record is made durable before it is pushed.  A failed append may
        nevertheless have reached the journal. */
    method RecordUndo(u: Undo) returns (ok: bool)
      requires Forward()
      requires SoundLog(undoStack + [Marked(u, false, currentStep)]) && SoundLog(journal.entries + [Marked(u)])
      modifies `journal, `undoStack, `desynced, `faults, `snapshots
      ensures Forward()
      ensures ok ==> undoStack == old(undoStack) + [Marked(u, false, currentStep)]
      ensures ok ==> journal == Log(old(journal.entries) + [Marked(u)], false) && faults == old(faults)
      ensures !ok ==> undoStack == old(undoStack) && old(faults) < faults
      ensures !ok ==> journal == old(journal) || journal == Log(old(journal.entries) + [Marked(u)], false)
    {
      hide GoodLog, AllSafe, TempsFrom, OnRecord;
      var longer := Log(journal.entries + [Marked(u)], false);
      OnRecordSnoc(journal, undoStack, Marked(u), Marked(u, false, currentStep));
      var refused: bool := *;
      if refused {
        faults := faults + 1;
        var durable: bool := *;
        if durable {
          journal := longer;
          desynced := true;
          ObserveForward();
        }
        return false;
      }
      journal := longer;
      ObserveForward();
      undoStack := undoStack + [Marked(u, false, currentStep)];
      ok := true;
    }

    /** `record_temporary_cleanup` */
    method RecordRemoval(temp: Path) returns (ok: bool)
      requires Forward() && IsScratch(temp) && (course.orderly ==> IsUnmentioned(temp))
      modifies `journal, `undoStack, `desynced, `faults, `snapshots
      ensures Forward()
      ensures ok ==> undoStack == old(undoStack) + [Marked(RemovePath(temp), false, currentStep)]
      ensures ok ==> journal == Log(old(journal.entries) + [Marked(RemovePath(temp))], false) && faults == old(faults)
      ensures !ok ==> undoStack == old(undoStack) && old(faults) < faults
      ensures forall q {:trigger IsScratch(q)} :: old(IsScratch(q)) ==> IsScratch(q)
      ensures forall q {:trigger IsUnmentioned(q)} :: old(IsUnmentioned(q)) && q != temp ==> IsUnmentioned(q)
      ensures ok ==> IsRemoved(temp)
      ensures forall q {:trigger IsRemoved(q)} :: old(IsRemoved(q)) ==> IsRemoved(q)
    {
      hide InStep, GoodLog, AllSafe, TempsFrom, HasRemoval;
      ghost var stack, entries := undoStack, journal.entries;
      var onStack, onDisk := Marked(RemovePath(temp), false, currentStep), Marked(RemovePath(temp));
      GoodRemoval(Now(), stack, onStack, pinned, nextSerial, origin, course, temp);
      GoodRemoval(Now(), entries, onDisk, pinned, nextSerial, origin, course, temp);
      ok := RecordUndo(RemovePath(temp));
      forall q | old(IsScratch(q)) ensures IsScratch(q) {
        OnlyRemovedSnoc(stack, onStack, q);
        OnlyRemovedSnoc(entries, onDisk, q);
      }
      HasRemovalSnoc(stack, onStack, temp);
      HasRemovalSnoc(entries, onDisk, temp);
      forall q | old(IsRemoved(q)) ensures IsRemoved(q) {
        HasRemovalSnoc(stack, onStack, q);
        HasRemovalSnoc(entries, onDisk, q);
      }
      forall q | old(IsUnmentioned(q)) && q != temp ensures IsUnmentioned(q) {
        MentionsSnoc(stack, onStack, q);
        MentionsSnoc(entries, onDisk, q);
      }
    }

    /** The path is visible or a staging file in the making. */
    ghost predicate IsMovable(p: Path)
      reads `disk, `undoStack, `pinned, `origin, `journal, `nextSerial
    {
      IsVisible(p) || IsScratch(p)
    }

    /** Records that `from` is to be moved back to `to`, before anything is at `from`. */
    method RecordMove(from: Path, to: Path) returns (ok: bool)
      requires Forward() && from !in disk && IsMovable(from) && IsMovable(to)
      requires course.orderly ==> FitsCourse(MovePath(from, to), Temps(origin), course)
      modifies `journal, `undoStack, `desynced, `faults, `snapshots
      ensures Forward()
      ensures ok ==> undoStack == old(undoStack) + [Marked(MovePath(from, to), false, currentStep)]
      ensures ok ==> journal == Log(old(journal.entries) + [Marked(MovePath(from, to))], false) && faults == old(faults)
      ensures !ok ==> undoStack == old(undoStack) && old(faults) < faults
      ensures forall q {:trigger IsScratch(q)} :: old(IsScratch(q)) && q != from && q != to ==> IsScratch(q)
    {
      hide InStep, GoodLog, AllSafe, TempsFrom, UndoOne, OnlyRemoved, IsAbsolute;
      TempsShrink(origin.serial, nextSerial);
      var onStack, onDisk := Marked(MovePath(from, to), false, currentStep), Marked(MovePath(from, to));
      GoodMoveRecord(Now(), undoStack, onStack, pinned, nextSerial, origin, course);
      GoodMoveRecord(Now(), journal.entries, onDisk, pinned, nextSerial, origin, course);
      ghost var stack, entries := undoStack, journal.entries;
      ok := RecordUndo(MovePath(from, to));
      forall q | old(IsScratch(q)) && q != from && q != to ensures IsScratch(q) {
        OnlyRemovedSnoc(stack, onStack, q);
        OnlyRemovedSnoc(entries, onDisk, q);
      }
    }

    /** Both logs end in this record. */
    ghost predicate LastRecorded(u: Undo)
      reads `undoStack, `journal
    {
      && undoStack != [] && undoStack[|undoStack| - 1].undo == u && !undoStack[|undoStack| - 1].restored
      && journal.Log? && journal.entries != []
      && journal.entries[|journal.entries| - 1].undo == u && !journal.entries[|journal.entries| - 1].restored
    }

    /** All that a replacement needs before it is recorded: private witnesses with known stamps, whose
        removal and that of the restore staging name is already on record. */
    ghost predicate Prepared(u: Undo)
      reads `disk, `undoStack, `pinned, `origin, `journal, `nextSerial
    {
      && u.ReplaceFile? && ReadyToReplace(disk, u) && IsVisible(u.to)
      && IsScratch(u.from) && IsScratch(u.newWitness) && IsScratch(u.staging)
      && IsRemoved(u.from) && IsRemoved(u.newWitness) && IsRemoved(u.staging)
      && u.from != u.newWitness && u.from != u.staging && u.newWitness != u.staging
      && ValidStamp(u.oldStamp) && ValidStamp(u.newStamp)
      && IsStagingName(u.from) && IsStagingName(u.newWitness) && IsStagingName(u.staging)
    }

    /** Records a replacement that is about to be made, pinning its witnesses. */
    method RecordReplace(u: Undo) returns (ok: bool)
      requires Forward() && Prepared(u)
      modifies `journal, `undoStack, `desynced, `faults, `pinned, `snapshots
      ensures Forward() && pinned == old(pinned) + {u.from, u.newWitness}
      ensures ok ==> LastRecorded(u) && faults == old(faults)
      ensures !ok ==> old(faults) < faults
      ensures forall q {:trigger IsScratch(q)} :: old(IsScratch(q)) && q !in PathsOf(u) ==> IsScratch(q)
    {
      hide InStep, GoodLog, AllSafe, UndoOne, Mentions, ValidStamp, TempsFrom, HasRemoval, IsStagingName;
      hide ReadyToReplace, IsAbsolute;
      ghost var stack, entries := undoStack, journal.entries;
      var onStack, onDisk := Marked(u, false, currentStep), Marked(u);
      TempsShrink(origin.serial, nextSerial);
      GoodReplaceRecord(Now(), stack, onStack, pinned, nextSerial, origin, course);
      GoodReplaceRecord(Now(), entries, onDisk, pinned, nextSerial, origin, course);
      GoodPin(Now(), stack, pinned, nextSerial, origin, course, u.from, u.newWitness);
      GoodPin(Now(), entries, pinned, nextSerial, origin, course, u.from, u.newWitness);
      pinned := pinned + {u.from, u.newWitness};
      ok := RecordUndo(u);
      forall q | old(IsScratch(q)) && q !in PathsOf(u) ensures IsScratch(q) {
        OnlyRemovedSnoc(stack, onStack, q);
        OnlyRemovedSnoc(entries, onDisk, q);
      }
    }

    /** `move_path_without_overwrite`, after its inverse has been recorded. */
    method MoveWithoutOverwrite(from: Path, to: Path) returns (ok: bool)
      requires Forward() && LastRecorded(MovePath(to, from))
      requires from !in pinned && to !in pinned && to !in TempsFrom(nextSerial)
      modifies `disk, `clock, `faults, `snapshots
      ensures Forward()
      ensures ok ==> from in old(disk) && to !in old(disk) && faults == old(faults)
      ensures ok ==> Now() == Renamed(old(Now()), from, to)
      ensures !ok ==> Now() == old(Now()) && old(faults) <= faults
      ensures !ok ==> from !in disk || to in disk || old(faults) < faults
      ensures forall q {:trigger IsScratch(q)} :: old(IsScratch(q)) && q != from && q != to ==> IsScratch(q)
    {
      hide InStep, GoodLog, AllSafe, TempsFrom, UndoOne, OnlyRemoved, IsAbsolute;
      if from !in disk || to in disk {
        return false;
      }
      var refused: bool := *;
      if refused {
        faults := faults + 1;
        return false;
      }
      GoodMove(Now(), undoStack, from, to, pinned, nextSerial, origin, course);
      GoodMove(Now(), journal.entries, from, to, pinned, nextSerial, origin, course);
      var after := Renamed(Now(), from, to);
      disk, clock := after.disk, after.clock;
      ObserveForward();
      ok := true;
    }

    /** `replace_existing_file`, after the replacement has been recorded. */
    method ReplaceExistingFile(temp: Path, u: Undo) returns (ok: bool)
      requires Forward() && u.ReplaceFile? && LastRecorded(u) && ReadyToReplace(disk, u)
      requires IsScratch(temp) && temp in disk && disk[temp].data == disk[u.newWitness].data
      modifies `disk, `clock, `faults, `snapshots
      ensures Forward()
      ensures ok ==> Now() == Renamed(old(Now()), temp, u.to) && faults == old(faults)
      ensures !ok ==> Now() == old(Now()) && old(faults) < faults
    {
      hide InStep, GoodLog, AllSafe, TempsFrom, UndoOne, Scratch, ReadyToReplace, WitnessesIntact, Renamed;
      ReadyTarget(disk, u);
      var refused: bool := *;
      if refused {
        faults := faults + 1;
        return false;
      }
      GoodReplace(Now(), undoStack, u, temp, pinned, nextSerial, origin, course);
      GoodReplace(Now(), journal.entries, u, temp, pinned, nextSerial, origin, course);
      RenamedKeys(Now(), temp, u.to);
      var after := Renamed(Now(), temp, u.to);
      disk, clock := after.disk, after.clock;
      ObserveForward();
      ok := true;
    }

    // ----- The five operations -----

    /** What an operation reports, against what it should have done. */
    ghost predicate Reported(before: View, a: Action, o: Options, ok: bool, skipped: bool, refused: bool)
      reads `disk, `origin
    {
      var effect := ActionEffect(before, a, o);
      && (ok && skipped ==> effect.Skipped? && VisibleFiles() == before)
      && (ok && !skipped ==> effect == Done(VisibleFiles()))
      && (!ok ==> effect.Failed? || refused)
    }

    /** The removal of a witness is recorded, and the witness copied. */
    method CopyWitness(src: Path, copy: Path) returns (ok: bool)
      requires Forward() && IsScratch(copy) && IsUnmentioned(copy)
      requires src != copy && src in disk && disk[src].regular
      modifies `disk, `clock, `journal, `undoStack, `desynced, `faults, `snapshots
      ensures Forward()
      ensures ok ==> faults == old(faults) && SameExcept(disk, old(disk), {copy})
      ensures ok ==> copy in disk && disk[copy].regular && disk[copy].data == old(disk)[src].data
      ensures ok ==> ValidStamp(disk[copy].stamp) && IsRemoved(copy)
      ensures !ok ==> old(faults) < faults
      ensures forall q {:trigger IsScratch(q)} :: old(IsScratch(q)) ==> IsScratch(q)
      ensures forall q {:trigger IsUnmentioned(q)} :: old(IsUnmentioned(q)) && q != copy ==> IsUnmentioned(q)
      ensures forall q {:trigger IsRemoved(q)} :: old(IsRemoved(q)) ==> IsRemoved(q)
    {
      hide Forward, Scratch, Mentions, HasRemoval, ValidStamp, SameExcept, TempsFrom, IsAbsolute;
      ok := RecordRemoval(copy);
      if !ok { return; }
      ok := CopyToTemporaryFile(src, copy);
    }

    /** Both witnesses of a replacement are recorded and copied, and the restore staging name is recorded. */
    method CopyWitnesses(temp: Path, target: Path, previousBackup: Path, newWitness: Path, restoreStaging: Path)
      returns (ok: bool)
      requires Forward() && IsScratch(temp) && temp in disk && IsVisible(target) && target in disk
      requires disk[target].regular && disk[temp].regular
      requires IsScratch(previousBackup) && IsScratch(newWitness) && IsScratch(restoreStaging)
      requires IsUnmentioned(previousBackup) && IsUnmentioned(newWitness) && IsUnmentioned(restoreStaging)
      requires previousBackup != newWitness && newWitness != restoreStaging && restoreStaging != previousBackup
      requires temp !in {previousBackup, newWitness, restoreStaging} &&
        target !in {previousBackup, newWitness, restoreStaging}
      modifies `disk, `clock, `journal, `undoStack, `desynced, `faults, `snapshots
      ensures Forward()
      ensures ok ==> faults == old(faults) && SameExcept(disk, old(disk), {previousBackup, newWitness})
      ensures ok ==>
        previousBackup in disk && newWitness in disk && disk[previousBackup].regular && disk[newWitness].regular
      ensures ok ==>
        disk[previousBackup].data == old(disk)[target].data && disk[newWitness].data == old(disk)[temp].data
      ensures ok ==> ValidStamp(disk[previousBackup].stamp) && ValidStamp(disk[newWitness].stamp)
      ensures ok ==> IsRemoved(previousBackup) && IsRemoved(newWitness) && IsRemoved(restoreStaging)
      ensures ok ==> IsScratch(temp) && IsScratch(previousBackup) && IsScratch(newWitness) && IsScratch(restoreStaging)
      ensures !ok ==> old(faults) < faults
    {
      hide Forward, Scratch, Mentions, HasRemoval, ValidStamp, SameExcept, TempsFrom, IsAbsolute;
      ghost var d0 := disk;
      ok := CopyWitness(target, previousBackup);
      if !ok { return; }
      ghost var d1 := disk;
      SameExceptAt(d1, d0, {previousBackup}, temp);
      ok := CopyWitness(temp, newWitness);
      if !ok { return; }
      SameExceptBoth(d0, d1, disk, previousBackup, newWitness);
      ok := RecordRemoval(restoreStaging);
    }

    /** The three staging names of a replacement. */
    method NameReplacement(temp: Path, target: Path)
      returns (previousBackup: Path, newWitness: Path, restoreStaging: Path)
      requires Forward() && IsScratch(temp) && IsVisible(target)
      modifies `nextSerial
      ensures Forward() && IsScratch(temp)
      ensures IsScratch(previousBackup) && IsScratch(newWitness) && IsScratch(restoreStaging)
      ensures IsUnmentioned(previousBackup) && IsUnmentioned(newWitness) && IsUnmentioned(restoreStaging)
      ensures IsStagingName(previousBackup) && IsStagingName(newWitness) && IsStagingName(restoreStaging)
      ensures previousBackup !in disk && newWitness !in disk && restoreStaging !in disk
      ensures previousBackup != newWitness && newWitness != restoreStaging && restoreStaging != previousBackup
      ensures {temp, target} !! {previousBackup, newWitness, restoreStaging}
    {
      hide InStep, GoodLog, AllSafe, TempsFrom, OnlyRemoved, Mentions, SoundLog, IsStagingName, IsAbsolute;
      TempsShrink(origin.serial, nextSerial);
      previousBackup := MakeTempPath(target, "old");
      newWitness := MakeTempPath(target, "witness");
      restoreStaging := MakeTempPath(target, "restore");
    }

    /** The witnesses and the restore staging name of a replacement are made ready. */
    method PrepareReplacement(temp: Path, target: Path) returns (ok: bool, u: Undo)
      requires Forward() && IsScratch(temp) && temp in disk && disk[temp].regular
      requires IsVisible(target) && target in disk && disk[target].regular
      modifies `disk, `clock, `nextSerial, `journal, `undoStack, `desynced, `faults, `snapshots
      ensures Forward()
      ensures ok ==> faults == old(faults) && VisibleFiles() == old(VisibleFiles())
      ensures ok ==> u.ReplaceFile? && (old(TidyBut({temp})) ==> TidyBut({temp, u.from, u.newWitness}))
      ensures ok ==> Prepared(u) && u.to == target && temp !in PathsOf(u)
      ensures ok ==> IsScratch(temp) && temp in disk && disk[temp] == old(disk)[temp]
      ensures ok ==> disk[u.newWitness].data == disk[temp].data
      ensures !ok ==> old(faults) < faults
    {
      hide InStep, GoodLog, AllSafe, TempsFrom, UndoOne, Mentions, OnlyRemoved, ValidStamp, HasRemoval, Tidy;
      hide SameExcept, IsAbsolute, IsStagingName, ViewOf, AllRespect, SoundLog;
      ghost var d0 := disk;
      u := RemovePath(temp);
      var previousBackup, newWitness, restoreStaging := NameReplacement(temp, target);
      ok := CopyWitnesses(temp, target, previousBackup, newWitness, restoreStaging);
      if !ok { return; }
      if Tidy(d0, cleanup, Temps(origin), {temp}) {
        TidyAfterWrite(d0, disk, cleanup, Temps(origin), {temp}, {previousBackup, newWitness});
        assert {temp} + {previousBackup, newWitness} == {temp, previousBackup, newWitness};
      }
      ViewAfterCopies(disk, d0, previousBackup, newWitness, Temps(origin));
      SameExceptAt(disk, d0, {previousBackup, newWitness}, target);
      SameExceptAt(disk, d0, {previousBackup, newWitness}, restoreStaging);
      SameExceptAt(disk, d0, {previousBackup, newWitness}, temp);
      var inspected: bool := *;
      if !inspected {
        faults := faults + 1;
        ok := false;
        return;
      }
      u := ReplaceFile(previousBackup, target, newWitness, restoreStaging,
        disk[previousBackup].stamp, disk[newWitness].stamp);
    }

    /** The last part of a write to an existing file: the replacement is recorded, and the staging
        file takes the place of the target. */
    method ReplaceTarget(temp: Path, target: Path) returns (ok: bool)
      requires Forward() && IsScratch(temp) && temp in disk && disk[temp].regular
      requires IsVisible(target) && target in disk && disk[target].regular
      modifies `disk, `clock, `nextSerial, `journal, `undoStack, `desynced, `cleanup, `faults, `pinned, `snapshots
      ensures Forward()
      ensures ok ==> faults == old(faults)
      ensures ok ==> VisibleFiles() == old(VisibleFiles())[target := Content(true, old(disk)[temp].data)]
      ensures !ok ==> old(faults) < faults
      ensures ok && old(TidyBut({temp})) ==> TidyBut({})
    {
      hide InStep, GoodLog, AllSafe, TempsFrom, UndoOne, Mentions, OnlyRemoved, ValidStamp, HasRemoval, PathsOf, Tidy;
      hide SameExcept, IsAbsolute, IsStagingName, ViewOf, Renamed, AllRespect, ReadyToReplace, SoundLog;
      var u: Undo;
      ok, u := PrepareReplacement(temp, target);
      if !ok { return; }
      ok := RecordReplace(u);
      if !ok { return; }
      ok := PublishReplacement(temp, u, {temp, u.from, u.newWitness});
    }

    /** The staging file holds what the new witness of a replacement holds, and all names are in order. */
    ghost predicate Publishable(temp: Path, u: Undo)
      requires u.ReplaceFile? && temp in disk
      reads `disk, `origin
    {
      && ReadyToReplace(disk, u) && disk[temp].regular && disk[temp].data == disk[u.newWitness].data
      && IsVisible(u.to) && u.from in Temps(origin) && u.newWitness in Temps(origin) && temp !in PathsOf(u)
    }

    /** The staging file takes the place of the target of the replacement just recorded; its
        witnesses are to be deleted after COMMIT. */
    method PublishReplacement(temp: Path, u: Undo, ghost staged: set<Path>) returns (ok: bool)
      requires u.ReplaceFile?
      requires temp in disk && Publishable(temp, u) && staged == {temp, u.from, u.newWitness}
      requires Forward() && LastRecorded(u) && IsScratch(temp)
      modifies `disk, `clock, `cleanup, `faults, `snapshots
      ensures Forward()
      ensures ok ==> faults == old(faults)
      ensures ok ==> VisibleFiles() == old(VisibleFiles())[u.to := Content(true, old(disk)[temp].data)]
      ensures !ok ==> old(faults) < faults
      ensures ok && old(TidyBut(staged)) ==> TidyBut({})
    {
      hide InStep, GoodLog, AllSafe, TempsFrom, UndoOne, Mentions, OnlyRemoved, PathsOf, Tidy;
      hide SameExcept, IsAbsolute, ViewOf, Renamed, ReadyToReplace, SoundLog;
      ViewAfterPublish(Now(), temp, u.to, Temps(origin));
      if TidyBut({temp, u.from, u.newWitness}) {
        TidyAfterReplace(Now(), temp, u, cleanup, Temps(origin));
      }
      ok := ReplaceExistingFile(temp, u);
      if !ok { return; }
      cleanup := cleanup + [u.from, u.newWitness];
    }

    /** Records the removal of a staging file that has just been written; if that fails the file is
        deleted again, which may fail too. */
    method KeepStaged(temp: Path) returns (ok: bool)
      requires Forward() && IsScratch(temp) && IsUnmentioned(temp)
      modifies `disk, `clock, `journal, `undoStack, `desynced, `faults, `snapshots
      ensures Forward()
      ensures ok ==> IsScratch(temp) && Now() == old(Now()) && faults == old(faults)
      ensures !ok ==> old(faults) < faults
    {
      hide InStep, GoodLog, AllSafe, TempsFrom, SoundLog, Scratch, Settled;
      ok := RecordRemoval(temp);
      if !ok {
        var removed: bool := *;
        if removed {
          DropTemp(temp);
        }
      }
    }

    /** Moves a path to a destination where nothing is, once its undo is on record. */
    method MoveInto(from: Path, to: Path) returns (ok: bool)
      requires Forward() && to !in disk && IsVisible(to)
      requires IsMovable(from) && (course.orderly ==> FitsCourse(MovePath(to, from), Temps(origin), course))
      modifies `disk, `clock, `journal, `undoStack, `desynced, `faults, `snapshots
      ensures Forward() && old(faults) <= faults
      ensures ok ==> from in old(disk) && faults == old(faults) && Now() == Renamed(old(Now()), from, to)
      ensures !ok ==> from !in disk || old(faults) < faults
      ensures !ok ==> Now() == old(Now())
    {
      hide InStep, GoodLog, AllSafe, TempsFrom, SoundLog, Renamed;
      TempsShrink(origin.serial, nextSerial);
      ok := RecordMove(to, from);
      if !ok { return; }
      ok := MoveWithoutOverwrite(from, to);
    }

    /** The new contents are written to a staging file of their own. */
    method StageData(target: Path, data: string) returns (ok: bool, temp: Path)
      requires Forward() && IsVisible(target)
      modifies `disk, `clock, `nextSerial, `journal, `undoStack, `desynced, `faults, `snapshots
      ensures Forward()
      ensures ok ==> VisibleFiles() == old(VisibleFiles()) && (target in disk <==> target in old(disk))
      ensures ok ==> target in disk ==> disk[target] == old(disk)[target]
      ensures ok ==>
        faults == old(faults) && IsScratch(temp) && temp in disk && disk[temp].regular && disk[temp].data == data
      ensures ok && old(TidyBut({})) ==> TidyBut({temp})
      ensures !ok ==> old(faults) < faults
    {
      hide InStep, GoodLog, AllSafe, TempsFrom, UndoOne, Mentions, OnlyRemoved, ValidStamp, SoundLog, Tidy;
      hide SameExcept, IsAbsolute, IsStagingName, ViewOf;
      ghost var d0 := disk;
      TempsShrink(origin.serial, nextSerial);
      temp := MakeTempPath(target, "new");
      ok := WriteTemporaryFile(temp, data);
      StagedOnly(d0, disk, temp, target, cleanup, Temps(origin));
      if !ok { return; }
      ok := KeepStaged(temp);
    }

    /** `write_file_atomic` */
    method WriteFileAtomic(target: Path, data: string, o: Options) returns (ok: bool, skipped: bool)
      requires Forward() && IsVisible(target) && (course.orderly ==> target in course.takes && target !in course.brings)
      modifies `disk, `clock, `nextSerial, `journal, `undoStack, `desynced, `cleanup, `faults, `pinned, `snapshots
      ensures Forward() && old(faults) <= faults
      ensures ok && old(TidyBut({})) ==> TidyBut({})
      ensures Reported(old(VisibleFiles()), AtomicWrite(target, data), o, ok, skipped, old(faults) < faults)
    {
      hide InStep, GoodLog, AllSafe, TempsFrom, UndoOne, Mentions, OnlyRemoved, ValidStamp, SoundLog, Tidy;
      hide SameExcept, IsAbsolute, IsStagingName, ViewOf, Renamed;
      SeenAt(disk, target, Temps(origin));
      skipped := false;
      if target in disk {
        if !disk[target].regular {
          return false, false;
        }
        if o.policy.SkipExisting? {
          return true, true;
        }
        if o.policy.FailOnConflict? {
          return false, false;
        }
      }
      var temp;
      ok, temp := StageData(target, data);
      if !ok { return; }
      if target in disk {
        ok := ReplaceTarget(temp, target);
        return;
      }
      ViewAfterPublish(Now(), temp, target, Temps(origin));
      if TidyBut({temp}) {
        TidyAfterMove(Now(), temp, target, cleanup, Temps(origin), {temp});
        assert {temp} - {temp} == {};
      }
      ok := MoveInto(temp, target);
    }

    /** Moves an existing entry out of the way to a path where nothing is. */
    method MoveAway(from: Path, to: Path) returns (ok: bool)
      requires Forward() && from in disk && IsVisible(from) && to !in disk && IsMovable(to)
      requires course.orderly ==> FitsCourse(MovePath(to, from), Temps(origin), course)
      modifies `disk, `clock, `journal, `undoStack, `desynced, `faults, `snapshots
      ensures Forward()
      ensures ok ==> faults == old(faults) && Now() == Renamed(old(Now()), from, to)
      ensures !ok ==> old(faults) < faults
      ensures forall q {:trigger IsScratch(q)} :: old(IsScratch(q)) && q != from && q != to ==> IsScratch(q)
    {
      hide InStep, GoodLog, AllSafe, TempsFrom, SoundLog, Renamed;
      TempsShrink(origin.serial, nextSerial);
      ok := RecordMove(to, from);
      if !ok { return; }
      ok := MoveWithoutOverwrite(from, to);
    }

    /** An older backup in the way of a new one is moved aside and deleted after COMMIT. */
    method MovePriorAway(backup: Path) returns (ok: bool)
      requires Forward() && !course.orderly && backup in disk && IsVisible(backup)
      modifies `disk, `clock, `nextSerial, `journal, `undoStack, `desynced, `cleanup, `faults, `snapshots
      ensures Forward()
      ensures ok ==> faults == old(faults) && backup !in disk && VisibleFiles() == old(VisibleFiles()) - {backup}
      ensures ok ==> forall p :: p in old(disk) && p != backup ==> p in disk
      ensures !ok ==> old(faults) < faults
      ensures ok && old(TidyBut({})) ==> TidyBut({})
    {
      hide InStep, GoodLog, AllSafe, TempsFrom, SoundLog, Renamed, ViewOf, IsAbsolute, Tidy, OnlyRemoved, Mentions;
      TempsShrink(origin.serial, nextSerial);
      var prior := MakeTempPath(backup, "prior");
      ViewAfterStash(Now(), backup, prior, Temps(origin));
      RenamedKeys(Now(), backup, prior);
      if TidyBut({}) {
        TidyAfterStash(Now(), backup, prior, cleanup, Temps(origin), {});
      }
      ok := MoveAway(backup, prior);
      if !ok { return; }
      cleanup := cleanup + [prior];
    }

    /** `move_existing_destination_to_backup` with a backup that is to be kept. */
    method MoveToKeptBackup(dst: Path, backup: Path) returns (ok: bool)
      requires Forward() && !course.orderly && dst in disk && IsVisible(dst) && IsVisible(backup) && dst != backup
      modifies `disk, `clock, `nextSerial, `journal, `undoStack, `desynced, `cleanup, `faults, `snapshots
      ensures Forward()
      ensures ok ==> faults == old(faults) && dst !in disk
      ensures ok ==> dst in old(VisibleFiles()) && VisibleFiles() == Vacated(old(VisibleFiles()), dst, Some(backup))
      ensures !ok ==> old(faults) < faults
      ensures ok && old(TidyBut({})) ==> TidyBut({})
    {
      hide InStep, GoodLog, AllSafe, TempsFrom, SoundLog, Renamed, ViewOf, IsAbsolute, MovedInto, Vacated, Tidy;
      ghost var before := VisibleFiles();
      SeenAt(disk, dst, Temps(origin));
      if backup in disk {
        ok := MovePriorAway(backup);
        if !ok { return; }
      }
      VacateOverOld(before, dst, backup);
      ViewAfterMove(Now(), dst, backup, Temps(origin));
      RenamedKeys(Now(), dst, backup);
      TempsShrink(origin.serial, nextSerial);
      if TidyBut({}) {
        TidyAfterMove(Now(), dst, backup, cleanup, Temps(origin), {});
        assert {} - {dst} == {};
      }
      ok := MoveAway(dst, backup);
    }

    /** `move_existing_destination_to_backup` with a staging name for the backup, which is deleted
        after COMMIT. */
    method MoveToStagedBackup(dst: Path, tag: string, ghost extra: set<Path>) returns (ok: bool)
      requires Forward() && dst in disk && IsVisible(dst) && (course.orderly ==> dst in course.brings)
      modifies `disk, `clock, `nextSerial, `journal, `undoStack, `desynced, `cleanup, `faults, `snapshots
      ensures Forward()
      ensures ok ==> faults == old(faults) && dst !in disk
      ensures ok ==> dst in old(VisibleFiles()) && VisibleFiles() == Vacated(old(VisibleFiles()), dst, None)
      ensures ok ==> forall p :: p in old(disk) && p != dst ==> p in disk && disk[p] == old(disk)[p]
      ensures !ok ==> old(faults) < faults
      ensures ok && old(TidyBut(extra)) ==> TidyBut(extra)
      ensures forall q {:trigger IsScratch(q)} :: old(IsScratch(q)) ==> IsScratch(q)
    {
      hide InStep, GoodLog, AllSafe, TempsFrom, SoundLog, ViewOf, IsAbsolute, IsStagingName, Tidy;
      SeenAt(disk, dst, Temps(origin));
      TempsShrink(origin.serial, nextSerial);
      var backup := MakeTempPath(dst, tag);
      ViewAfterStash(Now(), dst, backup, Temps(origin));
      if TidyBut(extra) {
        TidyAfterStash(Now(), dst, backup, cleanup, Temps(origin), extra);
      }
      ok := MoveAway(dst, backup);
      if !ok { return; }
      cleanup := cleanup + [backup];
    }

    /** The last part of a replace or rename. */
    method PublishVisible(src: Path, dst: Path) returns (ok: bool)
      requires Forward() && IsVisible(src) && IsVisible(dst) && dst !in disk
      requires course.orderly ==> dst in course.takes && dst !in course.brings && src in course.brings
      modifies `disk, `clock, `journal, `undoStack, `desynced, `faults, `snapshots
      ensures Forward() && old(faults) <= faults
      ensures ok ==> src in old(VisibleFiles()) && VisibleFiles() == MovedInto(old(VisibleFiles()), src, dst)
      ensures !ok ==> src !in old(VisibleFiles()) || old(faults) < faults
      ensures ok && old(TidyBut({})) ==> TidyBut({})
    {
      hide InStep, GoodLog, AllSafe, TempsFrom, SoundLog, ViewOf, IsAbsolute, Renamed, MovedInto, Tidy;
      TempsShrink(origin.serial, nextSerial);
      SeenAt(disk, src, Temps(origin));
      if src in disk {
        ViewAfterMove(Now(), src, dst, Temps(origin));
        if TidyBut({}) {
          TidyAfterMove(Now(), src, dst, cleanup, Temps(origin), {});
          assert {} - {src} == {};
        }
      }
      ok := MoveInto(src, dst);
    }

    /** In an orderly plan a file goes to a name that no earlier undo brings back and that, if existing
        files may be overwritten, is free. */
    ghost predicate MayGo(src: Path, dst: Path, o: Options)
      reads `course, `disk
    {
      course.orderly ==>
        && src in course.brings && dst in course.takes
        && (dst !in course.brings || src == dst) && (o.policy.Overwrite? ==> dst !in disk)
    }

    /** `safe_replace_file` */
    method SafeReplaceFile(src: Path, dst: Path, backup: bool, o: Options) returns (ok: bool, skipped: bool)
      requires Forward() && MayGo(src, dst, o)
      requires forall p :: p in PathsNamed(SafeReplace(src, dst, backup), o) ==> IsVisible(p)
      modifies `disk, `clock, `nextSerial, `journal, `undoStack, `desynced, `cleanup, `faults, `snapshots
      ensures Forward() && old(faults) <= faults
      ensures ok && old(TidyBut({})) ==> TidyBut({})
      ensures Reported(old(VisibleFiles()), SafeReplace(src, dst, backup), o, ok, skipped, old(faults) < faults)
    {
      hide InStep, GoodLog, AllSafe, TempsFrom, SoundLog, ViewOf, IsAbsolute, IsWithin, Renamed, MovedInto, Vacated;
      hide Tidy;
      ghost var before := VisibleFiles();
      assert IsVisible(src) && IsVisible(dst);
      SeenAt(disk, src, Temps(origin));
      SeenAt(disk, dst, Temps(origin));
      skipped := false;
      if src !in disk {
        return false, false;
      }
      var keepBackup := backup || o.defaultBackup;
      if keepBackup && o.policy.Overwrite? && dst in disk {
        var retained := BackupPath(dst, o);
        if Overlap(retained, src) || Overlap(retained, dst) {
          return false, false;
        }
      }
      if dst in disk {
        if o.policy.SkipExisting? {
          return true, true;
        }
        if o.policy.FailOnConflict? {
          return false, false;
        }
        if keepBackup {
          assert IsVisible(BackupPath(dst, o));
          ok := MoveToKeptBackup(dst, BackupPath(dst, o));
        } else {
          ok := MoveToStagedBackup(dst, "old", {});
        }
        if !ok { return; }
        VacateThenMove(before, src, dst, if keepBackup then Some(BackupPath(dst, o)) else None);
      }
      ok := PublishVisible(src, dst);
    }

    /** `rename_file` */
    method RenameTo(src: Path, dst: Path, o: Options) returns (ok: bool, skipped: bool)
      requires Forward() && MayGo(src, dst, o) && IsVisible(src) && IsVisible(dst)
      modifies `disk, `clock, `nextSerial, `journal, `undoStack, `desynced, `cleanup, `faults, `snapshots
      ensures Forward() && old(faults) <= faults
      ensures ok && old(TidyBut({})) ==> TidyBut({})
      ensures Reported(old(VisibleFiles()), RenameFile(src, dst), o, ok, skipped, old(faults) < faults)
    {
      hide InStep, GoodLog, AllSafe, TempsFrom, SoundLog, ViewOf, IsAbsolute, IsWithin, Renamed, MovedInto, Vacated;
      hide Tidy;
      ghost var before := VisibleFiles();
      SeenAt(disk, src, Temps(origin));
      SeenAt(disk, dst, Temps(origin));
      skipped := false;
      if src !in disk {
        return false, false;
      }
      if dst in disk {
        if o.policy.SkipExisting? {
          return true, true;
        }
        if o.policy.FailOnConflict? {
          return false, false;
        }
        ok := MoveToStagedBackup(dst, "old", {});
        if !ok { return; }
        VacateThenMove(before, src, dst, None);
      }
      ok := PublishVisible(src, dst);
    }

    /** The last part of a copy: whatever is at the destination makes way for the staged file. */
    method PublishStaged(temp: Path, dst: Path) returns (ok: bool)
      requires Forward() && IsScratch(temp) && temp in disk && IsVisible(dst)
      requires course.orderly ==> dst !in disk && dst in course.takes && dst !in course.brings
      modifies `disk, `clock, `nextSerial, `journal, `undoStack, `desynced, `cleanup, `faults, `snapshots
      ensures Forward() && old(faults) <= faults
      ensures ok ==> VisibleFiles() == old(VisibleFiles())[dst := Content(old(disk)[temp].regular,
        old(disk)[temp].data)]
      ensures !ok ==> old(faults) < faults
      ensures ok && old(TidyBut({temp})) ==> TidyBut({})
    {
      hide InStep, GoodLog, AllSafe, TempsFrom, SoundLog, ViewOf, IsAbsolute, Renamed, OnlyRemoved, Tidy;
      TempsShrink(origin.serial, nextSerial);
      if dst in disk {
        ok := MoveToStagedBackup(dst, "old", {temp});
        if !ok { return; }
      }
      ViewAfterPublish(Now(), temp, dst, Temps(origin));
      if TidyBut({temp}) {
        TidyAfterMove(Now(), temp, dst, cleanup, Temps(origin), {temp});
        assert {temp} - {temp} == {};
      }
      ok := MoveInto(temp, dst);
    }

    /** A regular source is copied to a staging file of the destination. */
    method StageCopy(src: Path, dst: Path) returns (ok: bool, temp: Path)
      requires Forward() && IsVisible(src) && IsVisible(dst) && src in disk
      modifies `disk, `clock, `nextSerial, `journal, `undoStack, `desynced, `faults, `snapshots
      ensures Forward() && old(faults) <= faults
      ensures ok ==> faults == old(faults) && old(disk)[src].regular && IsScratch(temp) && temp in disk
      ensures ok ==> disk[temp].regular && disk[temp].data == old(disk)[src].data
      ensures ok ==> VisibleFiles() == old(VisibleFiles()) && (dst in disk <==> dst in old(disk))
      ensures ok && old(TidyBut({})) ==> TidyBut({temp})
      ensures !ok ==> !old(disk)[src].regular || old(faults) < faults
    {
      hide InStep, GoodLog, AllSafe, TempsFrom, UndoOne, Mentions, OnlyRemoved, ValidStamp, SoundLog, Tidy;
      hide SameExcept, IsAbsolute, IsStagingName, ViewOf;
      ghost var d0 := disk;
      TempsShrink(origin.serial, nextSerial);
      temp := MakeTempPath(dst, "copy");
      ok := CopyToTemporaryFile(src, temp);
      StagedOnly(d0, disk, temp, dst, cleanup, Temps(origin));
      if !ok { return; }
      ok := KeepStaged(temp);
    }

    /** `copy_file_tracked` */
    method CopyFileTracked(src: Path, dst: Path, o: Options) returns (ok: bool, skipped: bool)
      requires Forward() && IsVisible(src) && IsVisible(dst)
      requires course.orderly ==> dst in course.takes && dst !in course.brings && (o.policy.Overwrite? ==> dst !in disk)
      modifies `disk, `clock, `nextSerial, `journal, `undoStack, `desynced, `cleanup, `faults, `snapshots
      ensures Forward() && old(faults) <= faults
      ensures ok && old(TidyBut({})) ==> TidyBut({})
      ensures Reported(old(VisibleFiles()), CopyFile(src, dst), o, ok, skipped, old(faults) < faults)
    {
      hide InStep, GoodLog, AllSafe, TempsFrom, SoundLog, ViewOf, IsAbsolute, Renamed, SameExcept, OnlyRemoved, Tidy;
      ghost var d0 := disk;
      SeenAt(disk, src, Temps(origin));
      SeenAt(disk, dst, Temps(origin));
      skipped := false;
      if src !in disk {
        return false, false;
      }
      if dst in disk && o.policy.SkipExisting? {
        return true, true;
      }
      if dst in disk && o.policy.FailOnConflict? {
        return false, false;
      }
      var temp;
      ok, temp := StageCopy(src, dst);
      if !ok { return; }
      ok := PublishStaged(temp, dst);
    }

    /** `remove_path_tracked` */
    method RemovePathTracked(target: Path, o: Options) returns (ok: bool, skipped: bool)
      requires Forward() && IsVisible(target) && (course.orderly ==> target in course.brings)
      modifies `disk, `clock, `nextSerial, `journal, `undoStack, `desynced, `cleanup, `faults, `snapshots
      ensures Forward() && old(faults) <= faults
      ensures ok && old(TidyBut({})) ==> TidyBut({})
      ensures Reported(old(VisibleFiles()), RemoveTarget(target), o, ok, skipped, old(faults) < faults)
    {
      hide InStep, GoodLog, AllSafe, TempsFrom, SoundLog, ViewOf, IsAbsolute, Tidy;
      SeenAt(disk, target, Temps(origin));
      if target !in disk || o.policy.SkipExisting? {
        return true, true;
      }
      skipped := false;
      ok := MoveToStagedBackup(target, "removed", {});
    }

    // ----- Undoing -----

    /** `restore_replacement`.  `seen` are the worlds a crash on the way could leave behind. */
    method RestoreReplaced(m: Marked) returns (ok: bool, changed: bool, ghost seen: seq<World>)
      requires m.undo.ReplaceFile?
      modifies `disk, `clock, `faults
      ensures old(faults) <= faults
      ensures ok ==> faults == old(faults) && UndoOne(old(Now()), m) == Ok(Now())
      ensures changed <==> ok && Now() != old(Now())
      ensures !ok ==> old(faults) < faults || (UndoOne(old(Now()), m).Err? && Now() == old(Now()))
      ensures !ok ==> Now() == old(Now()) || StagingTouched(old(disk), disk, m.undo.staging)
      ensures seen != [] || Now() != old(Now()) ==> !m.restored && UndoOne(old(Now()), m).Ok?
      ensures seen != [] || Now() != old(Now()) ==> m.undo.staging in old(disk) ==> old(disk)[m.undo.staging].regular
      ensures forall s :: s in seen ==> StagingTouched(old(disk), s.disk, m.undo.staging) || (ok && s == Now())
    {
      var u := m.undo;
      changed := false;
      seen := [];
      if m.restored {
        return true, false, [];
      }
      if !WitnessesIntact(disk, u) {
        return false, false, [];
      }
      if disk[u.to].data == disk[u.from].data {
        return true, false, [];
      }
      if disk[u.to].data != disk[u.newWitness].data || (u.staging in disk && !disk[u.staging].regular) {
        return false, false, [];
      }
      var partly: string := *;
      seen := [Stored(Now(), u.staging, partly)];
      var refused: bool := *;
      if refused {
        faults := faults + 1;
        disk := disk[u.staging := Entry(true, partly, StampAt(clock))];
        return false, false, seen;
      }
      var copied := Stored(Now(), u.staging, disk[u.from].data);
      disk, clock := copied.disk, copied.clock;
      seen := seen + [Now()];
      refused := *;
      if refused {
        faults := faults + 1;
        return false, false, seen;
      }
      var restored := Renamed(Now(), u.staging, u.to);
      disk, clock := restored.disk, restored.clock;
      seen := seen + [Now()];
      return true, true, seen;
    }

    /** Undoing a removal or a move, as both rollback and recovery do it. */
    method UndoPathChange(m: Marked) returns (ok: bool, changed: bool)
      requires !m.undo.ReplaceFile?
      modifies `disk, `clock, `faults
      ensures old(faults) <= faults
      ensures ok ==> faults == old(faults) && UndoOne(old(Now()), m) == Ok(Now())
      ensures changed <==> ok && Now() != old(Now())
      ensures !ok ==> Now() == old(Now()) && (old(faults) < faults || UndoOne(Now(), m).Err?)
    {
      var u := m.undo;
      if u.from !in disk {
        return true, false;
      }
      if u.MovePath? && u.to in disk {
        return false, false;
      }
      if u.RemovePath? && Unremovable(disk, u.from) {
        return false, false;
      }
      var refused: bool := *;
      if refused {
        faults := faults + 1;
        return false, false;
      }
      var after := if u.RemovePath? then Removed(Now(), u.from) else Renamed(Now(), u.from, u.to);
      disk, clock := after.disk, after.clock;
      return true, true;
    }

    /** `journal_write_restored`: marks the record the witness belongs to.  A marker without such a
        record, or a second marker for it, would make the journal unreadable. */
    method AppendRestored(from: Path) returns (ok: bool)
      modifies `journal, `faults
      ensures old(faults) <= faults
      ensures ok ==> faults == old(faults) && journal == WithMarker(old(journal), from)
      ensures !ok ==> old(faults) < faults && (journal == old(journal) || journal == WithMarker(old(journal), from))
    {
      var refused: bool := *;
      if refused {
        faults := faults + 1;
        var durable: bool := *;
        if durable {
          journal := WithMarker(journal, from);
        }
        return false;
      }
      journal := WithMarker(journal, from);
      ok := true;
    }

    /** What recovery keeps true while it works: the first k records are still to be undone. */
    ghost predicate RecoveringAt(k: nat, o: Origin)
      reads `disk, `clock, `journal
    {
      && journal.Log? && !journal.committed && k <= |journal.entries|
      && Recovering(Now(), journal.entries, k, o, Pins(journal.entries))
    }

    /** The record is number i - 1 of a journal that a run has written. */
    ghost predicate OnForm(m: Marked, i: nat, o: Origin)
      reads `disk, `clock, `journal
    {
      Formed(Snapshot(Now(), journal), o) && 0 < i <= |journal.entries| && SameRecord(journal.entries[i - 1], m)
    }

    /** Undoes a replacement and marks it in the journal once it has been restored. */
    method UndoReplacement(m: Marked, ghost formed: bool, ghost tracked: bool, ghost i: nat, ghost o: Origin)
      returns (ok: bool, changed: bool, ghost seen: seq<Snapshot>)
      requires m.undo.ReplaceFile?
      requires formed ==> OnForm(m, i, o)
      requires tracked ==> formed && RecoveringAt(i, o)
      modifies `disk, `clock, `journal, `faults
      ensures old(faults) <= faults
      ensures ok ==> faults == old(faults) && UndoOne(old(Now()), m) == Ok(Now())
      ensures !ok && faults == old(faults) ==> Now() == old(Now()) && UndoOne(Now(), m).Err?
      ensures !ok ==> Now() == old(Now()) || RestoreStopped(old(Now()), Now(), m)
      ensures changed <==> ok && Now() != old(Now())
      ensures journal == old(journal) || (!m.restored && journal == WithMarker(old(journal), m.undo.from))
      ensures formed ==>
        EachFormed(seen, o) && Formed(Snapshot(Now(), journal), o) && SameButMark(old(journal), journal, i)
      ensures tracked ==> EachRestartable(seen, o) && Restartable(Snapshot(Now(), journal), o)
      ensures tracked && ok ==> RecoveringAt(i - 1, o)
    {
      hide Recovering, UndoOne, Acceptable, StagingTouched, Recoverable, Reentrant, Pins, WitnessesIntact, LogForm;
      hide RegularAt, Stagings;
      ghost var start := Now();
      ghost var log := if journal.Log? then journal.entries else [];
      ghost var pins := Pins(log);
      if formed {
        UndoSameRecord(start, log[i - 1], m);
        FormFinds(log, i - 1, o);
      }
      ghost var worlds;
      ok, changed, worlds := RestoreReplaced(m);
      seen := SnapshotsOf(worlds, journal);
      if formed {
        RestoreIsFormed(start, worlds, Now(), journal, i, o);
      }
      if tracked {
        RestoreIsRestartable(start, worlds, Now(), log, i, o, pins);
        RecoveringIsRecoverable(Now(), log, i, o, pins);
      }
      if ok && !m.restored {
        ok := AppendRestored(m.undo.from);
        changed := changed && ok;
        if formed {
          FormMarked(Now(), log, i - 1, o);
        }
        if tracked {
          RecoveringMarked(start, Now(), log, i, o, pins);
          RecoveringIsRecoverable(Now(), log[i - 1 := log[i - 1].(restored := true)], i - 1, o, pins);
        }
      } else if ok && tracked {
        RecoveringStep(start, log, i, o, pins);
      }
    }

    /** Undoes one record, as rollback does or, with `guarded`, as recovery does.  With `formed`, the record
        is number i - 1 of the journal; while a recovery is being `tracked`, all records from i on have
        been undone. */
    method UndoRecord(m: Marked, guarded: bool, ghost formed: bool, ghost tracked: bool, ghost i: nat, ghost o: Origin)
      returns (ok: bool, changed: bool, ghost seen: seq<Snapshot>)
      requires formed ==> OnForm(m, i, o)
      requires tracked ==> formed && RecoveringAt(i, o)
      modifies `disk, `clock, `journal, `faults
      ensures old(faults) <= faults
      ensures ok ==> faults == old(faults) && UndoOne(old(Now()), m) == Ok(Now())
      ensures ok && guarded ==> RecoverOne(old(Now()), m) == Ok(Now())
      ensures !ok && faults == old(faults) ==> Now() == old(Now())
      ensures !ok && faults == old(faults) ==> if guarded then RecoverOne(Now(), m).Err? else UndoOne(Now(), m).Err?
      ensures !ok ==> Now() == old(Now()) || (m.undo.ReplaceFile? && RestoreStopped(old(Now()), Now(), m))
      ensures changed <==> ok && Now() != old(Now())
      ensures journal == old(journal) || (m.undo.ReplaceFile? && !m.restored &&
        journal == WithMarker(old(journal), m.undo.from))
      ensures formed ==>
        EachFormed(seen, o) && Formed(Snapshot(Now(), journal), o) && SameButMark(old(journal), journal, i)
      ensures tracked ==> EachRestartable(seen, o) && Restartable(Snapshot(Now(), journal), o)
      ensures tracked && ok ==> RecoveringAt(i - 1, o)
    {
      hide Recovering, UndoOne, Acceptable, Recoverable, Reentrant, Pins, IsStagingName, LogForm, RegularAt, Stagings;
      hide RestoreStopped;
      ghost var start := Now();
      ghost var log := if journal.Log? then journal.entries else [];
      ghost var pins := Pins(log);
      seen := [];
      if m.undo.ReplaceFile? {
        ok, changed, seen := UndoReplacement(m, formed, tracked, i, o);
        return;
      }
      if formed {
        UndoSameRecord(start, log[i - 1], m);
      }
      if tracked {
        RecoveringIsRecoverable(start, log, i, o, pins);
      }
      if guarded && m.undo.RemovePath? {
        var staging := CarriesStagingInfix(m.undo.from);
        if !staging {
          return false, false, [];
        }
      }
      ok, changed := UndoPathChange(m);
      if formed && ok {
        FormUndone(start, log, i - 1, o);
      }
      if tracked && ok {
        RecoveringStep(start, log, i, o, pins);
        RecoveringIsRecoverable(Now(), log, i - 1, o, pins);
      }
    }

    /** One turn of the recovery loop.  `undos` is the journal as it was read, `start` the disk then. */
    method RecoverRecord(undos: seq<Marked>, i: nat, ghost formed: bool, ghost tracked: bool, ghost o: Origin)
      returns (ok: bool, changed: bool, ghost seen: seq<Snapshot>)
      requires journal.Log? && !journal.committed && 0 < i <= |undos| == |journal.entries| &&
        Acceptable(journal.entries)
      requires forall j :: 0 <= j < i ==> journal.entries[j] == undos[j]
      requires formed ==> Formed(Snapshot(Now(), journal), o)
      requires tracked ==> formed && RecoveringAt(i, o)
      modifies `disk, `clock, `journal, `faults
      ensures old(faults) <= faults
      ensures journal.Log? && !journal.committed && |journal.entries| == |undos| && Acceptable(journal.entries)
      ensures forall j :: 0 <= j < i - 1 ==> journal.entries[j] == undos[j]
      ensures ok ==> faults == old(faults) && RecoverAll(old(Now()), undos[..i]) == RecoverAll(Now(), undos[..i - 1])
      ensures ok ==>
        UndoneCount(old(Now()), undos[..i]) == (if changed then 1 else 0) + UndoneCount(Now(), undos[..i - 1])
      ensures !ok ==> old(faults) < faults || RecoverAll(old(Now()), undos[..i]).Err?
      ensures formed ==> EachFormed(seen, o) && Formed(Snapshot(Now(), journal), o)
      ensures tracked ==> EachRestartable(seen, o) && Restartable(Snapshot(Now(), journal), o)
      ensures tracked && ok ==> RecoveringAt(i - 1, o)
    {
      hide Recovering, UndoOne, Acceptable, Recoverable, Reentrant, Pins, IsStagingName, RecoverOne, LogForm;
      hide RegularAt, Stagings;
      hide EachFormed, EachRestartable, RecoverAll, UndoneCount;
      ghost var before, log := Now(), journal.entries;
      MarkerFindsItsRecordIf(log, i - 1);
      ok, changed, seen := UndoRecord(undos[i - 1], true, formed, tracked, i, o);
      RecoverAllLast(before, undos, i);
      MarkingKeepsAcceptable(log, journal.entries, i - 1);
    }

    /** `RecoverFromJournal` on the journal a run has left behind.  `midway` are the states a crash
        during recovery could leave behind. */
    method RecoverFromJournal(cleanupOnSuccess: bool, ghost o: Origin)
      returns (r: RecoverResult, ghost midway: seq<Snapshot>)
      requires journal.Log? ==> Acceptable(journal.entries)
      modifies `disk, `clock, `journal, `faults
      ensures old(faults) <= faults
      ensures !old(journal).Log? || old(journal).committed ==>
        !r.ok && !r.complete && Now() == old(Now()) && journal == old(journal)
      ensures r.complete ==> old(journal).Log? && RecoverAll(old(Now()), old(journal.entries)) == Ok(Now())
      ensures r.complete ==> r.rolledBack == UndoneCount(old(Now()), old(journal.entries))
      ensures r.complete ==> r.rolledBack + r.skipped == |old(journal.entries)|
      ensures old(journal).Log? && !old(journal).committed && !r.complete ==>
        old(faults) < faults || RecoverAll(old(Now()), old(journal.entries)).Err?
      ensures r.ok ==> r.complete && (cleanupOnSuccess <==> journal == Absent)
      ensures r.complete && !r.ok ==> old(faults) < faults
      ensures old(Formed(Snapshot(Now(), journal), o)) ==>
        EachFormed(midway, o) && (journal == Absent || Formed(Snapshot(Now(), journal), o))
      ensures old(Formed(Snapshot(Now(), journal), o) && Restartable(Snapshot(Now(), journal), o)) ==>
        EachRestartable(midway, o) && (journal == Absent || Restartable(Snapshot(Now(), journal), o))
      ensures Started(old(Now()), old(journal), o) && r.complete ==> SameOutside(disk, o.initial, Temps(o))
      ensures Started(old(Now()), old(journal), o) && old(faults) == faults ==> r.complete
    {
      hide Recovering, Acceptable, Recoverable, Reentrant, Pins, EachRestartable, EachFormed, SameOutside;
      hide LogForm, RegularAt, Stagings, RecoverAll, UndoneCount;
      midway := [];
      r := RecoverResult(false, 0, 0, false);
      if !journal.Log? || journal.committed {
        return;
      }
      ghost var start := Now();
      if Started(start, journal, o) {
        RecoverableReplays(start, journal.entries, o);
      }
      ghost var formed := Formed(Snapshot(start, journal), o);
      ghost var tracked := formed && Restartable(Snapshot(start, journal), o);
      NothingMidway(o);
      if tracked {
        RestartableStart(start, journal, o);
      }
      var undos := journal.entries;
      var i := |undos|;
      var rolledBack, skipped := 0, 0;
      assert undos[..i] == undos;
      while 0 < i
        invariant 0 <= i <= |undos|
        invariant old(faults) == faults
        invariant journal.Log? && !journal.committed && |journal.entries| == |undos|
        invariant Acceptable(journal.entries)
        invariant forall j :: 0 <= j < i ==> journal.entries[j] == undos[j]
        invariant RecoverAll(start, undos) == RecoverAll(Now(), undos[..i])
        invariant UndoneCount(start, undos) == rolledBack + UndoneCount(Now(), undos[..i])
        invariant rolledBack + skipped == |undos| - i
        invariant formed ==> Formed(Snapshot(Now(), journal), o) && EachFormed(midway, o)
        invariant tracked ==>
          RecoveringAt(i, o) && Restartable(Snapshot(Now(), journal), o) && EachRestartable(midway, o)
      {
        var ok, changed;
        ghost var seen;
        ok, changed, seen := RecoverRecord(undos, i, formed, tracked, o);
        MidwayMore(midway, seen, Snapshot(Now(), journal), o);
        midway := midway + seen + [Snapshot(Now(), journal)];
        if !ok {
          r := RecoverResult(false, rolledBack, skipped, false);
          return;
        }
        rolledBack, skipped := if changed then rolledBack + 1 else rolledBack, if changed then skipped else skipped + 1;
        i := i - 1;
      }
      NothingToRecover(Now(), undos[..0]);
      r := RecoverResult(true, rolledBack, skipped, true);
      if cleanupOnSuccess {
        var refused: bool := *;
        if refused {
          faults := faults + 1;
          r := r.(ok := false);
        } else {
          journal := Absent;
        }
      }
    }

    /** One turn of the rollback loop: a record that overlaps a failed one is not touched. */
    method RollbackOne(
      i: nat, blocked: seq<Path>, strict: bool, ghost complete: bool, ghost attempts: seq<Attempt>,
      ghost start: World, ghost calm: bool, ghost formed: bool, ghost tracked: bool)
      returns (failed: bool, undone: bool, ghost a: Attempt, ghost seen: seq<Snapshot>)
      requires 0 < i <= |undoStack| && |attempts| == |undoStack| - i
      requires InProgress(undoStack, attempts, blocked, start, Now(), strict, complete, false, calm)
      requires formed ==> FormedFor(i)
      requires tracked ==> formed && complete && RecoveringAt(i, origin) && SameBelow(journal, undoStack, i)
      modifies `disk, `clock, `journal, `faults
      ensures old(faults) <= faults
      ensures a == Attempt(undoStack[i - 1], old(Now()), Now(), failed, undone)
      ensures InProgress(undoStack, attempts + [a], if failed then blocked + PathList(a.record.undo) else blocked,
        start, Now(), strict, complete && !failed, failed && strict, calm && old(faults) == faults)
      ensures failed && complete && old(faults) == faults ==> UndoOne(old(Now()), undoStack[i - 1]).Err?
      ensures !failed ==> UndoOne(old(Now()), undoStack[i - 1]) == Ok(Now())
      ensures formed ==> EachFormed(seen, origin) && FormedFor(i - 1)
      ensures tracked ==> EachRestartable(seen, origin) && Restartable(Snapshot(Now(), journal), origin)
      ensures tracked && !failed ==> RecoveringAt(i - 1, origin) && SameBelow(journal, undoStack, i - 1)
    {
      hide RestoreStopped, Restartable, UndoOne, AllLawful, Clashes, BlocksFailed, PathsOf, Overlap, InProgress;
      hide StopsAtFailure, FailuresExplained, FormedFor, RecoveringAt, SameBelow, EachFormed, EachRestartable;
      hide WithMarker;
      ghost var before, startFaults := Now(), faults;
      var m := undoStack[i - 1];
      ProgressUse(undoStack, attempts, blocked, start, Now(), strict, complete, false, calm);
      BlockedMeansClash(blocked, attempts, m.undo);
      var overlaps := OverlapsBlocked(m.undo, blocked);
      if overlaps {
        failed, undone, seen := true, false, [];
        NothingMidway(origin);
        if formed {
          OneRecordLess(i);
        }
      } else {
        var ok;
        ok, undone, seen := UndoStacked(i, formed, tracked);
        failed := !ok;
      }
      a := Attempt(m, before, Now(), failed, undone);
      LawfulSnoc(attempts, a);
      ProgressStep(undoStack, attempts, blocked, start, strict, complete, calm, a, calm && faults == startFaults);
    }

    lemma OneRecordLess(i: nat)
      requires 0 < i && FormedFor(i)
      ensures FormedFor(i - 1)
    {
      hide Formed, Acceptable;
    }

    /** Undoes record i - 1 of the undo stack. */
    method UndoStacked(i: nat, ghost formed: bool, ghost tracked: bool)
      returns (ok: bool, undone: bool, ghost seen: seq<Snapshot>)
      requires 0 < i <= |undoStack|
      requires formed ==> FormedFor(i)
      requires tracked ==> formed && RecoveringAt(i, origin) && SameBelow(journal, undoStack, i)
      modifies `disk, `clock, `journal, `faults
      ensures old(faults) <= faults
      ensures ok ==> faults == old(faults) && UndoOne(old(Now()), undoStack[i - 1]) == Ok(Now())
      ensures !ok && faults == old(faults) ==> Now() == old(Now()) && UndoOne(Now(), undoStack[i - 1]).Err?
      ensures !ok ==>
        || Now() == old(Now())
        || (undoStack[i - 1].undo.ReplaceFile? && RestoreStopped(old(Now()), Now(), undoStack[i - 1]))
      ensures undone <==> ok && Now() != old(Now())
      ensures formed ==> EachFormed(seen, origin) && FormedFor(i - 1)
      ensures tracked ==> EachRestartable(seen, origin) && Restartable(Snapshot(Now(), journal), origin)
      ensures tracked && ok ==> RecoveringAt(i - 1, origin) && SameBelow(journal, undoStack, i - 1)
    {
      hide Recovering, RestoreStopped, Restartable, UndoOne, Acceptable, LogForm, RegularAt, Stagings, Pins;
      hide EachFormed, EachRestartable;
      ghost var entered := journal;
      var m := undoStack[i - 1];
      ghost var e := i;
      if formed && !tracked {
        e := IndexOf(journal.entries, m) + 1;
      }
      ok, undone, seen := UndoRecord(m, false, formed, tracked, e, origin);
      if formed {
        OnRecordStep(entered, journal, undoStack, i, e - 1);
      }
      if tracked {
        SameBelowStep(entered, journal, undoStack, i);
      }
    }

    /** The journal is that of a run, and holds the first i records of the undo stack. */
    ghost predicate FormedFor(i: nat)
      reads `disk, `clock, `journal, `undoStack, `origin
    {
      Formed(Snapshot(Now(), journal), origin) && OnRecord(journal, undoStack, i) && Acceptable(undoStack)
    }

    /** `rollback`.  It makes no assumption about the disk: other writers may have been at work.  `midway`
        are the states a crash could leave behind, the first `steady` of them before any undo fails. */
    method Rollback(steps: seq<StepReport>, strict: bool)
      returns (reports: seq<StepReport>, rolledBackSteps: nat, complete: bool, ghost attempts: seq<Attempt>,
        ghost midway: seq<Snapshot>, ghost steady: nat)
      requires forall i :: 0 <= i < |undoStack| ==> undoStack[i].step < |steps|
      modifies `disk, `clock, `journal, `faults
      ensures old(faults) <= faults
      ensures FromTheTop(undoStack, attempts) && AllLawful(attempts)
      ensures attempts != [] ==> attempts[0].before == old(Now()) && attempts[|attempts| - 1].after == Now()
      ensures attempts == [] ==> Now() == old(Now())
      ensures strict ==> StopsAtFailure(attempts)
      ensures |attempts| < |undoStack| ==> strict && attempts != [] && attempts[|attempts| - 1].failed
      ensures complete <==> AllSucceeded(attempts)
      ensures FairReports(undoStack, attempts, steps, reports) && rolledBackSteps == CountRolledBack(reports)
      ensures Restores(old(Now()), undoStack, origin.initial, Temps(origin)) && complete ==>
        SameOutside(disk, origin.initial, Temps(origin))
      ensures Restores(old(Now()), undoStack, origin.initial, Temps(origin)) && old(faults) == faults ==> complete
      ensures old(faults) == faults ==> FailuresExplained(attempts)
      ensures steady <= |midway| && (complete ==> steady == |midway|)
      ensures old(FormedFor(|undoStack|)) ==> EachFormed(midway, origin) && Formed(Snapshot(Now(), journal), origin)
      ensures old(FormedFor(|undoStack|) && StackOnRecord() && Restartable(Snapshot(Now(), journal), origin)) ==>
        EachRestartable(midway[..steady], origin)
    {
      hide Recovering, Restores, Restartable, UndoOne, AllLawful, LawfulAlone, Acceptable, Pins, SameOutside;
      hide InProgress, SameBelow;
      hide EachRestartable, EachFormed, Retold, Reentrant, QuietFrom, TempsFrom, FairReports, FormedFor, Formed;
      hide OnRecord, MidwayAt;
      hide Tallied, BlocksFailed, CountStep, PathsOf, RolledBack, StepFailed, AllSucceeded, StopsAtFailure, FromTheTop;
      hide FailuresExplained, FailureExplained;
      ghost var start := Now();
      attempts, midway, steady := [], [], 0;
      complete := true;
      var remaining := CountRecords(undoStack, |steps|);
      var changed := seq(|steps|, _ => false);
      reports := seq(|steps|, s requires 0 <= s < |steps| => StepReport(steps[s].ok, steps[s].skipped, false, false,
        false));
      TalliedStart(undoStack, steps, reports, changed, remaining);
      ProgressStart(undoStack, start, strict);
      var blocked: seq<Path> := [];
      ghost var formed := FormedFor(|undoStack|);
      ghost var tracked := formed && StackOnRecord() && Restartable(Snapshot(start, journal), origin);
      MidwayStart(formed, tracked);
      ghost var restoring := Restores(start, undoStack, origin.initial, Temps(origin));
      var i := |undoStack|;
      var stop := false;
      assert undoStack[..i] == undoStack;
      while 0 < i && !stop
        invariant 0 <= i <= |undoStack| && |attempts| == |undoStack| - i
        invariant old(faults) <= faults
        invariant InProgress(undoStack, attempts, blocked, start, Now(), strict, complete, stop, old(faults) == faults)
        invariant stop ==> !complete
        invariant Tallied(undoStack, attempts, steps, reports, changed, remaining)
        invariant |reports| == |changed| == |remaining| == |steps|
        invariant restoring && complete ==> Restores(Now(), undoStack[..i], origin.initial, Temps(origin))
        invariant restoring && old(faults) == faults ==> complete
        invariant MidwayAt(i, midway, steady, complete, formed, tracked)
      {
        var m := undoStack[i - 1];
        RestoresLast(Now(), undoStack, i, origin);
        var failed, undone;
        ghost var a;
        failed, undone, a, midway, steady :=
          RollbackTurn(i, blocked, strict, complete, attempts, start, old(faults) ==
            faults, midway, steady, formed, tracked);
        TalliedStep(undoStack, attempts, steps, reports, changed, remaining, a, m.step);
        attempts := attempts + [a];
        remaining := remaining[m.step := remaining[m.step] - 1];
        reports := reports[m.step := Retold(reports[m.step], failed)];
        if failed {
          complete := false;
          blocked := blocked + PathList(m.undo);
          stop := strict;
        }
        changed := changed[m.step := changed[m.step] || undone];
        i := i - 1;
      }
      if restoring && complete {
        assert undoStack[..0] == [];
        RestoresNothing(Now(), origin);
      }
      MidwayEnd(i, midway, steady, complete, formed, tracked);
      ProgressUse(undoStack, attempts, blocked, start, Now(), strict, complete, stop, old(faults) == faults);
      reports, rolledBackSteps := Verdicts(undoStack, attempts, steps, reports, changed, remaining);
    }

    /** The states seen so far in a rollback with i records still to be tried. */
    ghost predicate MidwayAt(
      i: nat, midway: seq<Snapshot>, steady: nat, complete: bool, formed: bool, tracked: bool)
      reads `disk, `clock, `journal, `undoStack, `origin
    {
      && steady <= |midway| && (complete ==> steady == |midway|)
      && (formed ==> FormedFor(i) && EachFormed(midway, origin))
      && (tracked ==> EachRestartable(midway[..steady], origin))
      && (tracked && complete ==> formed && RecoveringAt(i, origin) && SameBelow(journal, undoStack, i))
    }

    lemma MidwayStart(formed: bool, tracked: bool)
      requires formed ==> FormedFor(|undoStack|)
      requires tracked ==> formed && StackOnRecord() && Restartable(Snapshot(Now(), journal), origin)
      ensures MidwayAt(|undoStack|, [], 0, true, formed, tracked)
    {
      hide FormedFor, Restartable, Recovering, EachFormed, EachRestartable;
      NothingMidway(origin);
      if tracked {
        RestartableStart(Now(), journal, origin);
        RestartableIsOpen(Snapshot(Now(), journal), origin);
        StackIsBelow(journal, undoStack);
      }
    }

    lemma MidwayEnd(i: nat, midway: seq<Snapshot>, steady: nat, complete: bool, formed: bool, tracked: bool)
      requires MidwayAt(i, midway, steady, complete, formed, tracked)
      ensures steady <= |midway| && (complete ==> steady == |midway|)
      ensures formed ==> EachFormed(midway, origin) && Formed(Snapshot(Now(), journal), origin)
      ensures tracked ==> EachRestartable(midway[..steady], origin)
    {
      hide EachFormed, EachRestartable, Formed, RecoveringAt, SameBelow, OnRecord, Acceptable;
    }

    /** One turn of the rollback loop together with the states it passes through; those up to the first
        failure are steady. */
    method RollbackTurn(
      i: nat, blocked: seq<Path>, strict: bool, ghost complete: bool, ghost attempts: seq<Attempt>,
      ghost start: World, ghost calm: bool, ghost midway: seq<Snapshot>, ghost steady: nat, ghost formed: bool,
        ghost tracked: bool)
      returns (failed: bool, undone: bool, ghost a: Attempt, ghost more: seq<Snapshot>, ghost steadyMore: nat)
      requires 0 < i <= |undoStack| && |attempts| == |undoStack| - i
      requires InProgress(undoStack, attempts, blocked, start, Now(), strict, complete, false, calm)
      requires MidwayAt(i, midway, steady, complete, formed, tracked)
      modifies `disk, `clock, `journal, `faults
      ensures old(faults) <= faults
      ensures a == Attempt(undoStack[i - 1], old(Now()), Now(), failed, undone)
      ensures InProgress(undoStack, attempts + [a], if failed then blocked + PathList(a.record.undo) else blocked,
        start, Now(), strict, complete && !failed, failed && strict, calm && old(faults) == faults)
      ensures failed && complete && old(faults) == faults ==> UndoOne(old(Now()), undoStack[i - 1]).Err?
      ensures !failed ==> UndoOne(old(Now()), undoStack[i - 1]) == Ok(Now())
      ensures MidwayAt(i - 1, more, steadyMore, complete && !failed, formed, tracked)
    {
      hide EachFormed, EachRestartable, Formed, Restartable, RecoveringAt, SameBelow, InProgress, UndoOne, PathList;
      hide OnRecord;
      ghost var seen;
      failed, undone, a, seen := RollbackOne(i, blocked, strict, complete, attempts, start, calm, formed, tracked &&
        complete);
      var s := Snapshot(Now(), journal);
      more := midway + seen + [s];
      MidwayMore(midway, seen, s, origin);
      steadyMore := if complete then |more| else steady;
      assert midway[..|midway|] == midway && more[..|more|] == more && more[..steady] == midway[..steady];
    }

    // ----- Run -----

    /** `journal_is_separate`: the journal overlaps no path the plan names. */
    method JournalIsSeparate(journalPath: Path, plan: seq<Action>, o: Options) returns (separate: bool)
      ensures separate <==> Separate(journalPath, plan, o)
    {
      hide Overlap;
      var i := 0;
      while i < |plan|
        invariant 0 <= i <= |plan|
        invariant forall k :: 0 <= k < i ==> forall p :: p in PathsNamed(plan[k], o) ==> !Overlap(journalPath, p)
      {
        var a := plan[i];
        if (a.SafeReplace? || a.RenameFile? || a.CopyFile?) && Overlap(journalPath, a.src) {
          assert a.src in PathsNamed(plan[i], o);
          return false;
        }
        if Overlap(journalPath, a.dst) {
          assert a.dst in PathsNamed(plan[i], o);
          return false;
        }
        if KeepsBackup(a, o) && Overlap(journalPath, BackupPath(a.dst, o)) {
          assert BackupPath(a.dst, o) in PathsNamed(plan[i], o);
          return false;
        }
        i := i + 1;
      }
      separate := true;
    }

    /** The action fits how far the run has got in an orderly plan. */
    ghost predicate Fits(a: Action, o: Options)
      reads `course, `disk
    {
      course.orderly ==>
        && Takes(a) <= course.takes && Brings(a) <= course.brings
        && (Takes(a) !! course.brings || Takes(a) == Brings(a))
        && (o.policy.Overwrite? && !a.AtomicWrite? ==> Takes(a) !! disk.Keys)
    }

    /** The run gets to the next action of the plan. */
    ghost method Advance(plan: seq<Action>, o: Options, i: nat)
      requires Forward() && i < |plan| && forall p :: p in PathsNamed(plan[i], o) ==> IsVisible(p)
      requires course.orderly ==> OrderlyAt(plan, o, ViewOf(origin.initial, Temps(origin)), i)
      requires course == Course(course.orderly, AllTakes(plan[..i]), AllBrings(plan[..i]))
      modifies `course
      ensures Forward() && Fits(plan[i], o)
      ensures course == Course(old(course.orderly), AllTakes(plan[..i + 1]), AllBrings(plan[..i + 1]))
    {
      hide InStep, Restores, AllRespect, Unused, RemovesStagingOnly, Acceptable, AllSafe, TempsFrom, Shape, RegularAt;
      hide Settled;
      hide AllTakes, AllBrings, ReplacesVisible, Bounded, Reentrant, Apart, IsAbsolute, CrashSafe, Stagings;
      TakesStep(plan, i);
      if course.orderly && o.policy.Overwrite? && !plan[i].AtomicWrite? {
        forall p | p in Takes(plan[i]) ensures p !in disk {
          assert p in PathsNamed(plan[i], o);
          TargetIsFree(Now(), undoStack, origin, course, p);
        }
      }
      var further := Course(course.orderly, AllTakes(plan[..i + 1]), AllBrings(plan[..i + 1]));
      GoodFurther(Now(), undoStack, pinned, nextSerial, origin, course, further);
      GoodFurther(Now(), journal.entries, pinned, nextSerial, origin, course, further);
      course := further;
    }

    /** One step of a plan. */
    method Execute(a: Action, o: Options) returns (ok: bool, skipped: bool)
      requires Forward() && Fits(a, o)
      requires forall p :: p in PathsNamed(a, o) ==> IsVisible(p)
      modifies `disk, `clock, `nextSerial, `journal, `undoStack, `desynced, `cleanup, `faults, `pinned, `snapshots
      ensures Forward() && old(faults) <= faults
      ensures ok && old(TidyBut({})) ==> TidyBut({})
      ensures Reported(old(VisibleFiles()), a, o, ok, skipped, old(faults) < faults)
    {
      hide Forward, IsVisible, Reported, Tidy;
      match a
      case AtomicWrite(dst, payload) => ok, skipped := WriteFileAtomic(dst, payload, o);
      case SafeReplace(src, dst, backup) => ok, skipped := SafeReplaceFile(src, dst, backup, o);
      case RenameFile(src, dst) => ok, skipped := RenameTo(src, dst, o);
      case CopyFile(src, dst) => ok, skipped := CopyFileTracked(src, dst, o);
      case RemoveTarget(dst) => ok, skipped := RemovePathTracked(dst, o);
    }

    ghost predicate Safe()
      reads `snapshots, `origin, `goal, `course
    {
      AllSafe(snapshots, origin, goal, course.orderly)
    }

    /** A process that has just started a run. */
    ghost predicate Starting()
      reads this
    {
      && origin == Origin(disk, nextSerial)
      && undoStack == [] && cleanup == [] && pinned == {} && snapshots == [] && !desynced
      && (forall p :: p in disk ==> p !in TempsFrom(nextSerial))
    }

    /** `journal_can_start` and `journal_write_header` */
    method StartJournal() returns (ok: bool)
      requires Starting()
      modifies `journal, `faults, `snapshots
      ensures ok ==> CanStart(old(journal)) && Forward() && faults == old(faults) && origin == Origin(disk, nextSerial)
      ensures !ok ==> Safe() && old(faults) <= faults
      ensures !ok && CanStart(old(journal)) ==> old(faults) < faults
      ensures !CanStart(old(journal)) ==> journal == old(journal)
    {
      hide Shape;
      if !CanStart(journal) {
        return false;
      }
      GoodEmpty(Now(), nextSerial, origin, course);
      var refused: bool := *;
      if refused {
        faults := faults + 1;
        return false;
      }
      journal := Blank;
      Observe();
      refused := *;
      if refused {
        faults := faults + 1;
        return false;
      }
      journal := Log([], false);
      ObserveForward();
      ok := true;
    }

    /** `journal_write_commit`: from here on the plan has happened. */
    method Commit() returns (ok: bool)
      requires Forward() && goal == Some(VisibleFiles())
      modifies `journal, `faults, `snapshots
      ensures Safe()
      ensures ok ==> journal == Log(old(journal.entries), true) && faults == old(faults)
      ensures !ok ==> old(faults) < faults
    {
      hide GoodLog, AllSafe, TempsFrom, ViewOf, Recoverable, SameOutside;
      var refused: bool := *;
      if refused {
        faults := faults + 1;
        var durable: bool := *;
        if durable {
          journal := journal.(committed := true);
          Observe();
        }
        return false;
      }
      journal := journal.(committed := true);
      Observe();
      ok := true;
    }

    /** `cleanup_after_success`: each removal may fail and is not tried again. */
    method CleanupAfterSuccess()
      requires journal.Log? && journal.committed && Safe() && goal == Some(VisibleFiles())
      requires forall p :: p in cleanup ==> p in Temps(origin)
      modifies `disk, `clock, `faults, `snapshots
      ensures Safe() && VisibleFiles() == old(VisibleFiles()) && old(faults) <= faults
      ensures faults == old(faults) && old(TidyBut({})) ==> NoLitter()
    {
      hide AllSafe, TempsFrom, ViewOf, SameExcept;
      var i := 0;
      while i < |cleanup|
        invariant 0 <= i <= |cleanup|
        invariant forall p :: p in disk ==> p in old(disk)
        invariant faults == old(faults) ==> forall k :: 0 <= k < i ==> cleanup[k] !in disk
        invariant Safe() && VisibleFiles() == old(VisibleFiles()) && old(faults) <= faults
      {
        var refused: bool := *;
        if refused {
          faults := faults + 1;
        } else {
          ghost var before := disk;
          RemovedSame(Now(), cleanup[i]);
          var after := Removed(Now(), cleanup[i]);
          disk, clock := after.disk, after.clock;
          ViewIgnoresTemp(disk, before, cleanup[i], Temps(origin));
          Observe();
        }
        i := i + 1;
      }
    }

    /** The journal is deleted once it is no longer needed. */
    method DropJournal()
      requires Safe() && (goal == Some(VisibleFiles()) || SameOutside(disk, origin.initial, Temps(origin)))
      modifies `journal, `faults, `snapshots
      ensures Safe()
      ensures (journal == Absent && faults == old(faults)) || (journal == old(journal) && old(faults) < faults)
    {
      hide AllSafe, TempsFrom, ViewOf, SameOutside, Recoverable;
      var refused: bool := *;
      if refused {
        faults := faults + 1;
        return;
      }
      journal := Absent;
      Observe();
    }

    /** The undo stack speaks of the first i steps only. */
    ghost predicate StepsUpTo(i: nat)
      reads `undoStack
    {
      forall k :: 0 <= k < |undoStack| ==> undoStack[k].step < i
    }

    lemma StepsAreUpTo()
      requires Forward()
      ensures StepsUpTo(currentStep + 1)
    {
    }

    method SetStep(i: nat)
      requires Forward() && StepsUpTo(i)
      modifies `currentStep
      ensures Forward() && currentStep == i
    {
      hide SoundLog, Settled, AllSafe, OnRecord;
      currentStep := i;
    }

    /** The main loop of `Run`: without `failFast` it goes on after a failed step. */
    method ExecutePlan(plan: seq<Action>, o: Options)
      returns (steps: seq<StepReport>, completed: nat, skippedSteps: nat, failed: bool)
      requires Forward() && undoStack == []
      requires goal == PlanEffect(VisibleFiles(), plan, o)
      requires course == Course(Orderly(plan, o, ViewOf(origin.initial, Temps(origin))), {}, {})
      requires forall k :: 0 <= k < |plan| ==> forall p :: p in PathsNamed(plan[k], o) ==> IsVisible(p)
      modifies `disk, `clock, `nextSerial, `journal, `undoStack, `currentStep, `desynced, `cleanup, `faults, `pinned,
        `snapshots, `course
      ensures Forward() && old(faults) <= faults && |steps| <= |plan| && course.orderly == old(course.orderly)
      ensures forall i :: 0 <= i < |undoStack| ==> undoStack[i].step < |steps|
      ensures failed ==> goal.None? || old(faults) < faults
      ensures !failed ==> goal == Some(VisibleFiles()) && completed + skippedSteps == |plan| == |steps|
      ensures failed <==> !AllOk(steps)
      ensures !failed && old(TidyBut({})) ==> TidyBut({})
      ensures |steps| < |plan| ==> o.failFast && failed
    {
      hide SoundLog, Settled, StackOnRecord, AllSafe, AllOk, PlanEffect, ActionEffect, IsVisible, ViewOf, TempsFrom;
      hide Tidy;
      hide OrderlyAt, PathsNamed, Fits, OnRecord, Forward, AllTakes, AllBrings;
      ghost var before := VisibleFiles();
      steps, completed, skippedSteps, failed := [], 0, 0, false;
      var i := 0;
      NothingDone(before, plan, o);
      NothingTaken(plan);
      NoSteps();
      while i < |plan|
        invariant 0 <= i <= |plan| && |steps| == i
        invariant Forward() && old(faults) <= faults
        invariant if i == 0 then undoStack == [] else currentStep == i - 1
        invariant StepsUpTo(i)
        invariant !failed ==> PlanEffect(before, plan[..i], o) == Some(VisibleFiles())
        invariant !failed ==> completed + skippedSteps == i
        invariant failed ==> PlanEffect(before, plan[..i], o).None? || old(faults) < faults
        invariant !failed && old(TidyBut({})) ==> TidyBut({})
        invariant failed <==> !AllOk(steps)
        invariant course == Course(old(course.orderly), AllTakes(plan[..i]), AllBrings(plan[..i]))
      {
        PlanStep(before, plan, o, i);
        Advance(plan, o, i);
        SetStep(i);
        var ok, skipped := Execute(plan[i], o);
        AllOkSnoc(steps, StepReport(ok, skipped, false, false, false));
        steps := steps + [StepReport(ok, skipped, false, false, false)];
        StepsAreUpTo();
        i := i + 1;
        if !ok {
          failed := true;
          if o.failFast {
            break;
          }
        } else if skipped {
          skippedSteps := skippedSteps + 1;
        } else {
          completed := completed + 1;
        }
      }
      if failed && PlanEffect(before, plan[..i], o).None? {
        PlanStaysFailed(before, plan, o, i);
      }
      assert plan[..|plan|] == plan;
    }

    /** A failed run is rolled back; its journal is deleted if that was complete. */
    method RollBackRun(r: RunResult, strict: bool)
      returns (after: RunResult, ghost midway: seq<Snapshot>, ghost steady: nat)
      requires Forward()
      requires forall i :: 0 <= i < |undoStack| ==> undoStack[i].step < |r.steps|
      modifies `disk, `clock, `journal, `faults, `snapshots
      ensures Safe() && old(faults) <= faults
      ensures after.ok == r.ok && after.rollbackAttempted
      ensures EachFormed(midway, origin) && steady <= |midway| && (faults == old(faults) ==> steady == |midway|)
      ensures course.orderly && !desynced ==> EachRestartable(midway[..steady], origin)
      ensures after.rollbackComplete ==> SameOutside(disk, origin.initial, Temps(origin))
      ensures journal == Absent ==> after.rollbackComplete
      ensures journal != Absent ==> Formed(Snapshot(Now(), journal), origin)
      ensures faults == old(faults) ==> after.rollbackComplete && journal == Absent
    {
      hide Shape, AllSafe, TempsFrom, EachRestartable, EachFormed, SameOutside, UndoAll, Settled, AllRespect;
      hide RegularAt, Stagings;
      hide LogForm, OnRecord;
      GoodIsFormed(Now(), journal, pinned, nextSerial, origin, course);
      var steps, rolledBack, complete;
      ghost var attempts;
      steps, rolledBack, complete, attempts, midway, steady := Rollback(r.steps, strict);
      after := r.(steps := steps, rolledBackSteps := rolledBack, rollbackAttempted := true,
        rollbackComplete := complete);
      if complete {
        DropJournal();
      }
    }

    /** The rest of a run once its journal has been started. */
    method RunStarted(plan: seq<Action>, o: Options)
      returns (r: RunResult, ghost midway: seq<Snapshot>, ghost steady: nat)
      requires Forward() && undoStack == []
      requires goal == PlanEffect(VisibleFiles(), plan, o)
      requires course == Course(Orderly(plan, o, ViewOf(origin.initial, Temps(origin))), {}, {})
      requires forall k :: 0 <= k < |plan| ==> forall p :: p in PathsNamed(plan[k], o) ==> IsVisible(p)
      modifies `disk, `clock, `nextSerial, `journal, `undoStack, `currentStep, `desynced, `cleanup, `faults, `pinned,
        `snapshots, `course
      ensures Safe() && old(faults) <= faults && course.orderly == old(course.orderly)
      ensures EachFormed(midway, origin) && steady <= |midway| && (faults == old(faults) ==> steady == |midway|)
      ensures course.orderly && !desynced ==> EachRestartable(midway[..steady], origin)
      ensures r.ok ==> goal == Some(VisibleFiles()) && (journal == Absent || (journal.Log? && journal.committed))
      ensures r.ok && faults == old(faults) && old(TidyBut({})) ==> NoLitter()
      ensures r.ok ==> AllOk(r.steps) && r.completed + r.skipped == |plan| == |r.steps|
      ensures r.ok && o.keepJournal ==> journal != Absent
      ensures r.ok && journal != Absent ==> o.keepJournal || old(faults) < faults
      ensures faults == old(faults) ==> (r.ok <==> goal.Some?)
      ensures r.rollbackComplete ==> SameOutside(disk, origin.initial, Temps(origin))
      ensures faults == old(faults) && !r.ok && o.failFast ==>
        r.rollbackAttempted && r.rollbackComplete && journal == Absent
      ensures faults == old(faults) && !r.ok && !o.failFast ==> !r.rollbackAttempted && Started(Now(), journal, origin)
    {
      hide Sound, Shape, RegularAt, StackOnRecord, AllSafe, PlanEffect, ViewOf, TempsFrom, IsVisible, EachRestartable;
      hide EachFormed, Recoverable, AllOk, SameOutside, Tidy, NoLitter;
      hide Shape, RegularAt, Stagings, OnRecord, Orderly;
      midway, steady := [], 0;
      NothingMidway(origin);
      var steps, completed, skippedSteps, failed := ExecutePlan(plan, o);
      r := RunResult(false, steps, completed, skippedSteps, 0, false, false);
      if failed {
        SoundIsRecoverable(Now(), journal.entries, pinned, nextSerial, origin);
        if o.failFast {
          r, midway, steady := RollBackRun(r, o.strictRollback);
        }
        return;
      }
      var committed := Commit();
      if !committed { return; }
      CleanupAfterSuccess();
      if !o.keepJournal {
        DropJournal();
      }
      r := r.(ok := true);
    }

    /** Where a run starts and what it is meant to reach. */
    ghost method Begin(plan: seq<Action>, o: Options)
      requires undoStack == [] && cleanup == []
      requires forall p :: p in disk ==> p !in TempsFrom(nextSerial)
      modifies `origin, `goal, `course, `pinned, `snapshots, `desynced
      ensures Starting() && Safe() && TidyBut({})
      ensures goal == PlanEffect(VisibleFiles(), plan, o)
      ensures course == Course(Orderly(plan, o, VisibleFiles()), {}, {})
    {
      hide PlanEffect, ViewOf, TempsFrom, AllSafe, Tidy;
      origin := Origin(disk, nextSerial);
      goal := PlanEffect(VisibleFiles(), plan, o);
      course := Course(Orderly(plan, o, VisibleFiles()), {}, {});
      pinned, snapshots, desynced := {}, [], false;
      NothingSeen(origin, goal, course.orderly);
      TidyAtStart(disk, Temps(origin));
    }

    /** `Run`.  `midway` are the states a crash during rollback could leave behind, the first `steady` of
        them before any operation of the rollback is refused. */
    method Run(plan: seq<Action>, o: Options, journalPath: Path)
      returns (r: RunResult, ghost midway: seq<Snapshot>, ghost steady: nat)
      requires undoStack == [] && cleanup == []
      requires forall p :: p in disk ==> p !in TempsFrom(nextSerial)
      requires forall k :: 0 <= k < |plan| ==>
        forall p :: p in PathsNamed(plan[k], o) ==> p !in TempsFrom(nextSerial) && IsAbsolute(p)
      modifies this
      // Where the run started and what it is meant to reach.
      ensures origin == Origin(old(disk), old(nextSerial))
      ensures goal == PlanEffect(ViewOf(old(disk), Temps(origin)), plan, o)
      ensures course.orderly == Orderly(plan, o, ViewOf(old(disk), Temps(origin)))
      // Every state a crash could leave behind outside the rollback: see CrashOutcome.
      ensures AllSafe(snapshots, origin, goal, course.orderly)
      // Every state a crash could leave behind during the rollback: see FormedOutcome for any plan, and
      // for an orderly plan the next recovery restores, as long as nothing is refused and the journal
      // holds no record whose append was reported as failed.
      ensures EachFormed(midway, origin) && steady <= |midway| && (faults == old(faults) ==> steady == |midway|)
      ensures course.orderly && !desynced ==> EachRestartable(midway[..steady], origin)
      // A run that is refused changes nothing.
      ensures !MayRun(journalPath, plan, o, old(journal)) ==>
        !r.ok && disk == old(disk) && journal == old(journal)
      // A run that succeeds has done the whole plan and leaves no open journal.
      ensures r.ok ==> goal == Some(VisibleFiles()) && (journal == Absent || (journal.Log? && journal.committed))
      ensures r.ok ==> AllOk(r.steps) && r.completed + r.skipped == |plan| == |r.steps|
      // Unless it may overwrite it keeps every existing file it is not told to take away.
      ensures r.ok && !o.policy.Overwrite? ==> KeepsExisting(old(disk), disk, plan)
      ensures o.policy.FailOnConflict? && HitsExisting(old(disk), plan) ==> !r.ok
      // It keeps its journal if asked to, and otherwise only if the deletion was refused.
      ensures r.ok && o.keepJournal ==> journal != Absent
      ensures r.ok && journal != Absent ==> o.keepJournal || old(faults) < faults
      ensures r.ok && faults == old(faults) ==> NoLitter()
      // Without refused operations it succeeds exactly if the plan can be done.
      ensures MayRun(journalPath, plan, o, old(journal)) && faults == old(faults) ==>
        (r.ok <==> goal.Some?)
      // A run that fails fast puts everything back.
      ensures r.rollbackComplete ==> SameOutside(disk, origin.initial, Temps(origin))
      ensures MayRun(journalPath, plan, o, old(journal)) && faults == old(faults) && !r.ok && o.failFast ==>
        r.rollbackAttempted && r.rollbackComplete && journal == Absent
      // A run that goes on after a failure leaves a journal that recovery can start from.
      ensures MayRun(journalPath, plan, o, old(journal)) && faults == old(faults) && !r.ok && !o.failFast ==>
        !r.rollbackAttempted && Started(Now(), journal, origin)
    {
      hide SoundLog, Settled, InStep, AllSafe, PlanEffect, ViewOf, TempsFrom, IsAbsolute, EachRestartable, EachFormed;
      hide Recoverable, AllOk;
      hide PathsNamed, Overlap, Reentrant, CrashSafe, Forward, CanStart, Separate, Started, SameOutside, Tidy;
      hide NoLitter, Orderly, KeepsExisting, HitsExisting;
      ghost var files := disk;
      midway, steady := [], 0;
      r := RunResult(false, [], 0, 0, 0, false, false);
      Begin(plan, o);
      NothingMidway(origin);
      NothingSeen(origin, goal, course.orderly);
      currentStep := 0;
      var separate := JournalIsSeparate(journalPath, plan, o);
      if !separate { return; }
      var started := StartJournal();
      if !started { return; }
      r, midway, steady := RunStarted(plan, o);
      if r.ok {
        PoliciesOnDisk(files, disk, Temps(origin), plan, o);
      }
    }
  }
}
