/** What a rollback does to the disk, as a log of attempts; what it must not do whatever other
    writers have done to the disk in the meantime; and what it reports. */
module FsxRollback {
  import opened FsxNames
  import opened FsxReplay
  import opened FsxSound
  import opened FsxStore
  import opened FsxUndo
  import opened Text

  /** The record that was tried, the disk before and after, and the verdict. */
  datatype Attempt = Attempt(record: Marked, before: World, after: World, failed: bool, undone: bool)

  /** A restore that was refused on its way: it has got no further than its staging file, or all is
      restored and only the marker is missing. */
  ghost predicate RestoreStopped(before: World, after: World, m: Marked)
    requires m.undo.ReplaceFile?
  {
    StagingTouched(before.disk, after.disk, m.undo.staging) || UndoOne(before, m) == Ok(after)
  }

  /** The paths a record works on. */
  function PathList(u: Undo): (paths: seq<Path>)
    ensures forall p :: p in paths <==> p in PathsOf(u)
  {
    match u
    case RemovePath(from) => [from]
    case MovePath(from, to) => [from, to]
    case ReplaceFile(from, to, newWitness, staging, _, _) => [from, to, newWitness, staging]
  }

  /** One record works on a path that is, contains or lies within a path of the other. */
  ghost predicate Clashes(a: Undo, b: Undo) {
    exists p, q :: p in PathsOf(a) && q in PathsOf(b) && Overlap(p, q)
  }

  ghost predicate BlockedBefore(attempts: seq<Attempt>, k: nat, u: Undo) {
    exists j :: 0 <= j < k && j < |attempts| && attempts[j].failed && Clashes(u, attempts[j].record.undo)
  }

  /** A single attempt in isolation. */
  ghost predicate LawfulAlone(a: Attempt) {
    && (!a.failed ==> UndoOne(a.before, a.record) == Ok(a.after))
    && (a.failed ==> a.after == a.before || (a.record.undo.ReplaceFile? && RestoreStopped(a.before, a.after, a.record)))
    && (a.undone <==> !a.failed && a.after != a.before)
  }

  ghost predicate Lawful(attempts: seq<Attempt>, k: nat)
    requires k < |attempts|
  {
    var a := attempts[k];
    && LawfulAlone(a)
    && (BlockedBefore(attempts, k, a.record.undo) ==> a.failed && a.after == a.before)
    && (0 < k ==> attempts[k - 1].after == a.before)
  }

  ghost predicate AllLawful(attempts: seq<Attempt>) {
    forall k :: 0 <= k < |attempts| ==> Lawful(attempts, k)
  }

  /** The attempts are at the records of the stack, last record first. */
  ghost predicate FromTheTop(stack: seq<Marked>, attempts: seq<Attempt>) {
    |attempts| <= |stack| && forall k :: 0 <= k < |attempts| ==> attempts[k].record == stack[|stack| - 1 - k]
  }

  lemma FromTheTopSnoc(stack: seq<Marked>, attempts: seq<Attempt>, a: Attempt)
    requires FromTheTop(stack, attempts) && |attempts| < |stack| && a.record == stack[|stack| - 1 - |attempts|]
    ensures FromTheTop(stack, attempts + [a])
  {
  }

  // ----- Whatever other writers did -----

  /** Undoing a move never puts anything where something is: only a path that was free is filled,
      and only by the very entry that leaves the other path. */
  lemma MoveNeverOverwrites(a: Attempt)
    requires LawfulAlone(a) && a.record.undo.MovePath?
    ensures forall p :: p in a.before.disk && p != a.record.undo.from ==>
      p in a.after.disk && a.after.disk[p] == a.before.disk[p]
    ensures forall p :: p in a.after.disk && p !in a.before.disk ==> p == a.record.undo.to
    ensures a.after != a.before ==>
      a.record.undo.from in a.before.disk && a.record.undo.to !in a.before.disk && a.record.undo.from !in a.after.disk
      && a.record.undo.to in a.after.disk &&
        a.after.disk[a.record.undo.to].data == a.before.disk[a.record.undo.from].data
  {
  }

  /** The target held a copy of the new witness and now holds a copy of the old one. */
  ghost predicate OwnWorkUndone(before: Disk, after: Disk, u: Undo)
    requires u.ReplaceFile?
  {
    && WitnessesIntact(before, u) && u.to in after
    && before[u.to].data == before[u.newWitness].data
    && after[u.to].data == before[u.from].data
  }

  /** Undoing a replacement overwrites its target only if the target holds what the run put there,
      witnessed by an untouched copy, and puts the untouched old contents back; apart from the
      target only the restore staging name may change. */
  lemma ReplaceOnlyOverwritesOwnWork(a: Attempt)
    requires LawfulAlone(a) && a.record.undo.ReplaceFile? && a.record.undo.staging != a.record.undo.to
    ensures forall p :: p != a.record.undo.to && p != a.record.undo.staging ==>
      (p in a.after.disk <==> p in a.before.disk) && (p in a.before.disk ==> a.after.disk[p] == a.before.disk[p])
    ensures a.record.undo.to in a.before.disk ==> a.record.undo.to in a.after.disk
    ensures a.record.undo.to in a.before.disk && a.after.disk[a.record.undo.to] != a.before.disk[a.record.undo.to] ==>
      OwnWorkUndone(a.before.disk, a.after.disk, a.record.undo)
  {
    var u := a.record.undo;
    if a.after != a.before && !StagingTouched(a.before.disk, a.after.disk, u.staging) {
      assert UndoOne(a.before, a.record) == Ok(a.after);
    }
  }

  /** Undoing a removal takes away that path and nothing else. */
  lemma RemovalTakesOnlyItsPath(a: Attempt)
    requires LawfulAlone(a) && a.record.undo.RemovePath?
    ensures a.after == a.before || a.after.disk == a.before.disk - {a.record.undo.from}
  {
  }

  /** Once undoing a record has failed, no later attempt changes anything at, above or below one of
      its paths. */
  lemma FailureShieldsItsPaths(attempts: seq<Attempt>, j: nat, k: nat, p: Path, q: Path)
    requires AllLawful(attempts) && j < k < |attempts| && attempts[j].failed
    requires p in PathsOf(attempts[j].record.undo) && Overlap(q, p)
    ensures q in attempts[k].before.disk <==> q in attempts[k].after.disk
    ensures q in attempts[k].before.disk ==> attempts[k].after.disk[q] == attempts[k].before.disk[q]
  {
    hide Overlap, StagingTouched, WitnessesIntact;
    var a := attempts[k];
    assert Lawful(attempts, k);
    if q in PathsOf(a.record.undo) {
      assert Clashes(a.record.undo, attempts[j].record.undo);
      assert BlockedBefore(attempts, k, a.record.undo);
    } else {
      OtherPathsUntouched(a, q);
    }
  }

  /** An attempt changes only paths its record names. */
  lemma OtherPathsUntouched(a: Attempt, q: Path)
    requires LawfulAlone(a) && q !in PathsOf(a.record.undo)
    ensures q in a.before.disk <==> q in a.after.disk
    ensures q in a.before.disk ==> a.after.disk[q] == a.before.disk[q]
  {
    if a.after != a.before && a.record.undo.ReplaceFile? &&
      !StagingTouched(a.before.disk, a.after.disk, a.record.undo.staging) {
      assert UndoOne(a.before, a.record) == Ok(a.after);
    }
  }

  lemma LawfulSnoc(attempts: seq<Attempt>, a: Attempt)
    requires AllLawful(attempts) && LawfulAlone(a)
    requires BlockedBefore(attempts, |attempts|, a.record.undo) ==> a.failed && a.after == a.before
    requires attempts != [] ==> attempts[|attempts| - 1].after == a.before
    ensures AllLawful(attempts + [a])
  {
    hide LawfulAlone, Clashes;
    var more := attempts + [a];
    forall k | 0 <= k < |more| ensures Lawful(more, k) {
      if k < |attempts| {
        assert Lawful(attempts, k);
        if BlockedBefore(more, k, more[k].record.undo) {
          var j :| 0 <= j < k && more[j].failed && Clashes(more[k].record.undo, more[j].record.undo);
          assert attempts[j] == more[j];
          assert BlockedBefore(attempts, k, attempts[k].record.undo);
        }
      } else {
        if BlockedBefore(more, k, a.record.undo) {
          var j :| 0 <= j < k && more[j].failed && Clashes(a.record.undo, more[j].record.undo);
          assert attempts[j] == more[j];
          assert BlockedBefore(attempts, |attempts|, a.record.undo);
        }
      }
    }
  }

  /** Nothing fails but what cannot be undone, or works on a path of an earlier failure. */
  ghost predicate FailuresExplained(attempts: seq<Attempt>) {
    forall k :: 0 <= k < |attempts| && attempts[k].failed ==> FailureExplained(attempts, k, attempts[k])
  }

  ghost predicate FailureExplained(attempts: seq<Attempt>, k: nat, a: Attempt) {
    BlockedBefore(attempts, k, a.record.undo) || UndoOne(a.before, a.record).Err?
  }

  lemma ExplainedSnoc(attempts: seq<Attempt>, a: Attempt)
    requires FailuresExplained(attempts) && (a.failed ==> FailureExplained(attempts, |attempts|, a))
    ensures FailuresExplained(attempts + [a])
  {
    hide Clashes, UndoOne;
    var more := attempts + [a];
    forall k | 0 <= k < |more| && more[k].failed ensures FailureExplained(more, k, more[k]) {
      assert FailureExplained(attempts, k, more[k]);
      if BlockedBefore(attempts, k, more[k].record.undo) {
        var j :| 0 <= j < k && j < |attempts| && attempts[j].failed &&
          Clashes(more[k].record.undo, attempts[j].record.undo);
        assert more[j] == attempts[j];
      }
    }
  }

  // ----- Blocked paths -----

  /** The blocked paths are those of the failed attempts. */
  ghost predicate BlocksFailed(blocked: seq<Path>, attempts: seq<Attempt>) {
    forall p :: p in blocked <==>
      exists j :: 0 <= j < |attempts| && attempts[j].failed && p in PathsOf(attempts[j].record.undo)
  }

  lemma BlockedMeansClash(blocked: seq<Path>, attempts: seq<Attempt>, u: Undo)
    requires BlocksFailed(blocked, attempts)
    ensures (exists p, q :: p in PathsOf(u) && q in blocked && Overlap(p, q)) <==>
      BlockedBefore(attempts, |attempts|, u)
  {
    hide PathsOf, Overlap;
    if p, q :| p in PathsOf(u) && q in blocked && Overlap(p, q) {
      var j :| 0 <= j < |attempts| && attempts[j].failed && q in PathsOf(attempts[j].record.undo);
      assert Clashes(u, attempts[j].record.undo);
    }
    if BlockedBefore(attempts, |attempts|, u) {
      var j :| 0 <= j < |attempts| && attempts[j].failed && Clashes(u, attempts[j].record.undo);
      var p, q :| p in PathsOf(u) && q in PathsOf(attempts[j].record.undo) && Overlap(p, q);
      assert q in blocked;
    }
  }

  ghost predicate AllSucceeded(attempts: seq<Attempt>) {
    forall k :: 0 <= k < |attempts| ==> !attempts[k].failed
  }

  /** A strict rollback makes no attempt after a failed one. */
  ghost predicate StopsAtFailure(attempts: seq<Attempt>) {
    forall k :: 0 <= k < |attempts| && attempts[k].failed ==> k == |attempts| - 1
  }

  lemma SucceededSnoc(attempts: seq<Attempt>, a: Attempt)
    ensures AllSucceeded(attempts + [a]) <==> AllSucceeded(attempts) && !a.failed
    ensures AllSucceeded(attempts) ==> StopsAtFailure(attempts + [a])
  {
    var more := attempts + [a];
    assert more[|attempts|] == a;
    if AllSucceeded(more) {
      forall k | 0 <= k < |attempts| ensures !attempts[k].failed { assert more[k] == attempts[k]; }
    }
  }

  lemma BlocksFailedSnoc(blocked: seq<Path>, attempts: seq<Attempt>, a: Attempt)
    requires BlocksFailed(blocked, attempts)
    ensures BlocksFailed(if a.failed then blocked + PathList(a.record.undo) else blocked, attempts + [a])
  {
    hide PathsOf;
    var more := attempts + [a];
    var longer := if a.failed then blocked + PathList(a.record.undo) else blocked;
    forall p
      ensures p in longer <==> exists j :: 0 <= j < |more| && more[j].failed && p in PathsOf(more[j].record.undo)
    {
      if p in blocked {
        var j :| 0 <= j < |attempts| && attempts[j].failed && p in PathsOf(attempts[j].record.undo);
        assert more[j] == attempts[j];
      } else if p in longer {
        assert more[|attempts|] == a;
      }
      if j :| 0 <= j < |more| && more[j].failed && p in PathsOf(more[j].record.undo) {
        if j < |attempts| {
          assert attempts[j] == more[j];
        }
      }
    }
  }

  /** `overlaps_blocked_path` for all paths of a record. */
  method OverlapsBlocked(u: Undo, blocked: seq<Path>) returns (found: bool)
    ensures found <==> exists p, q :: p in PathsOf(u) && q in blocked && Overlap(p, q)
  {
    hide Overlap;
    var paths := PathList(u);
    var i := 0;
    while i < |paths|
      invariant 0 <= i <= |paths|
      invariant forall m :: 0 <= m < i ==> forall q :: q in blocked ==> !Overlap(paths[m], q)
    {
      var j := 0;
      while j < |blocked|
        invariant 0 <= j <= |blocked|
        invariant forall m :: 0 <= m < j ==> !Overlap(paths[i], blocked[m])
      {
        if Overlap(paths[i], blocked[j]) {
          return true;
        }
        j := j + 1;
      }
      i := i + 1;
    }
    found := false;
  }

  // ----- Reports -----

  function CountStep(stack: seq<Marked>, step: nat): nat {
    if stack == [] then 0
    else CountStep(stack[..|stack| - 1], step) + if stack[|stack| - 1].step == step then 1 else 0
  }

  lemma {:induction false} CountStepZero(stack: seq<Marked>, step: nat)
    ensures CountStep(stack, step) == 0 <==> forall i :: 0 <= i < |stack| ==> stack[i].step != step
  {
    if stack != [] {
      var front := stack[..|stack| - 1];
      CountStepZero(front, step);
      forall i | 0 <= i < |front| ensures front[i] == stack[i] {}
    }
  }

  /** A step counts as rolled back: each of its records was undone or found nothing to undo, and at
      least one of them changed something. */
  ghost predicate RolledBack(stack: seq<Marked>, attempts: seq<Attempt>, step: nat) {
    && (forall i :: 0 <= i < |stack| && stack[i].step == step ==>
          |stack| - 1 - i < |attempts| && !attempts[|stack| - 1 - i].failed)
    && (exists k :: 0 <= k < |attempts| && attempts[k].record.step == step && attempts[k].undone)
  }

  datatype StepReport = StepReport(ok: bool, skipped: bool, rollbackAttempted: bool, rollbackFailed: bool,
    rolledBack: bool)

  ghost predicate AllOk(steps: seq<StepReport>) {
    forall k :: 0 <= k < |steps| ==> steps[k].ok
  }

  lemma NoSteps()
    ensures AllOk([])
  {
  }

  lemma AllOkSnoc(steps: seq<StepReport>, s: StepReport)
    ensures AllOk(steps + [s]) <==> AllOk(steps) && s.ok
  {
    var more := steps + [s];
    assert more[|steps|] == s;
    if AllOk(more) {
      forall k | 0 <= k < |steps| ensures steps[k].ok { assert more[k] == steps[k]; }
    }
  }

  function CountRolledBack(reports: seq<StepReport>): nat {
    if reports == [] then 0
    else CountRolledBack(reports[..|reports| - 1]) + if reports[|reports| - 1].rolledBack then 1 else 0
  }

  /** The vector of records still to be undone, step by step. */
  method CountRecords(stack: seq<Marked>, steps: nat) returns (remaining: seq<nat>)
    requires forall i :: 0 <= i < |stack| ==> stack[i].step < steps
    ensures |remaining| == steps
    ensures forall s :: 0 <= s < steps ==> remaining[s] == CountStep(stack, s)
  {
    remaining := seq(steps, i => 0);
    var i := 0;
    assert stack[..0] == [];
    while i < |stack|
      invariant 0 <= i <= |stack| && |remaining| == steps
      invariant forall s :: 0 <= s < steps ==> remaining[s] == CountStep(stack[..i], s)
    {
      assert stack[..i + 1][..i] == stack[..i];
      remaining := remaining[stack[i].step := remaining[stack[i].step] + 1];
      i := i + 1;
    }
    assert stack[..|stack|] == stack;
  }

  /** Some attempt at a record of the step failed. */
  ghost predicate StepFailed(attempts: seq<Attempt>, step: nat) {
    exists k :: 0 <= k < |attempts| && attempts[k].record.step == step && attempts[k].failed
  }

  /** Some attempt at a record of the step changed something. */
  ghost predicate StepUndone(attempts: seq<Attempt>, step: nat) {
    exists k :: 0 <= k < |attempts| && attempts[k].record.step == step && attempts[k].undone
  }

  lemma StepFlagsSnoc(attempts: seq<Attempt>, a: Attempt, step: nat)
    ensures StepFailed(attempts + [a], step) <==> StepFailed(attempts, step) || (a.record.step == step && a.failed)
    ensures StepUndone(attempts + [a], step) <==> StepUndone(attempts, step) || (a.record.step == step && a.undone)
  {
    var more := attempts + [a];
    assert more[|attempts|] == a;
    forall k | 0 <= k < |attempts| ensures more[k] == attempts[k] {}
    if StepFailed(attempts, step) {
      var k :| 0 <= k < |attempts| && attempts[k].record.step == step && attempts[k].failed;
      assert more[k].failed;
    }
    if StepUndone(attempts, step) {
      var k :| 0 <= k < |attempts| && attempts[k].record.step == step && attempts[k].undone;
      assert more[k].undone;
    }
  }

  /** Nothing left to undo, no failure and some change: the step has been rolled back. */
  lemma RolledBackIff(stack: seq<Marked>, attempts: seq<Attempt>, step: nat, i: nat)
    requires FromTheTop(stack, attempts) && i == |stack| - |attempts|
    ensures RolledBack(stack, attempts, step) <==>
      StepUndone(attempts, step) && !StepFailed(attempts, step) && CountStep(stack[..i], step) == 0
  {
    CountStepZero(stack[..i], step);
    forall j | 0 <= j < i ensures stack[..i][j] == stack[j] {}
    forall k | 0 <= k < |attempts| ensures attempts[k].record == stack[|stack| - 1 - k] {}
    if StepUndone(attempts, step) && !StepFailed(attempts, step) && CountStep(stack[..i], step) == 0 {
      forall j | 0 <= j < |stack| && stack[j].step == step
        ensures |stack| - 1 - j < |attempts| && !attempts[|stack| - 1 - j].failed
      {
        assert attempts[|stack| - 1 - j].record == stack[j];
      }
    }
    if RolledBack(stack, attempts, step) {
      forall j | 0 <= j < i ensures stack[..i][j].step != step {}
      forall k | 0 <= k < |attempts| && attempts[k].record.step == step ensures !attempts[k].failed {
        assert |stack| - 1 - (|stack| - 1 - k) == k;
      }
    }
  }

  /** The state of the rollback loop with i records still to be tried; `calm` if no operation has
      been refused so far. */
  ghost predicate InProgress(
    stack: seq<Marked>, attempts: seq<Attempt>, blocked: seq<Path>, start: World, now: World,
    strict: bool, complete: bool, stop: bool, calm: bool)
  {
    && (calm ==> FailuresExplained(attempts))
    && FromTheTop(stack, attempts) && AllLawful(attempts) && BlocksFailed(blocked, attempts)
    && (if attempts == [] then now == start else attempts[0].before == start && attempts[|attempts| - 1].after == now)
    && (strict ==> StopsAtFailure(attempts))
    && (complete <==> AllSucceeded(attempts))
    && (strict && !stop ==> complete)
    && (stop ==> strict && !complete && attempts != [] && attempts[|attempts| - 1].failed)
  }

  lemma ProgressStart(stack: seq<Marked>, start: World, strict: bool)
    ensures InProgress(stack, [], [], start, start, strict, true, false, true)
  {
  }

  lemma ProgressUse(
    stack: seq<Marked>, attempts: seq<Attempt>, blocked: seq<Path>, start: World, now: World,
    strict: bool, complete: bool, stop: bool, calm: bool)
    requires InProgress(stack, attempts, blocked, start, now, strict, complete, stop, calm)
    ensures calm ==> FailuresExplained(attempts)
    ensures FromTheTop(stack, attempts) && AllLawful(attempts) && BlocksFailed(blocked, attempts)
    ensures attempts == [] ==> now == start
    ensures attempts != [] ==> attempts[0].before == start && attempts[|attempts| - 1].after == now
    ensures strict ==> StopsAtFailure(attempts)
    ensures complete <==> AllSucceeded(attempts)
    ensures stop ==> strict && !complete && attempts != [] && attempts[|attempts| - 1].failed
  {
    hide AllLawful, BlocksFailed, FromTheTop, AllSucceeded, StopsAtFailure, FailuresExplained;
  }

  lemma ProgressStep(
    stack: seq<Marked>, attempts: seq<Attempt>, blocked: seq<Path>, start: World, strict: bool, complete: bool,
      calm: bool,
    a: Attempt, stillCalm: bool)
    requires InProgress(stack, attempts, blocked, start, a.before, strict, complete, false, calm)
    requires stillCalm ==> calm && (a.failed ==> FailureExplained(attempts, |attempts|, a))
    requires |attempts| < |stack| && a.record == stack[|stack| - 1 - |attempts|]
    requires AllLawful(attempts + [a])
    ensures InProgress(stack, attempts + [a], if a.failed then blocked + PathList(a.record.undo) else blocked,
      start, a.after, strict, complete && !a.failed, a.failed && strict, stillCalm)
  {
    hide AllLawful, BlocksFailed, FromTheTop, AllSucceeded, StopsAtFailure, FailuresExplained, FailureExplained;
    if stillCalm {
      ExplainedSnoc(attempts, a);
    }
    SucceededSnoc(attempts, a);
    FromTheTopSnoc(stack, attempts, a);
    BlocksFailedSnoc(blocked, attempts, a);
  }

  /** The vectors a rollback keeps per step agree with the attempts made so far. */
  ghost predicate Tallied(
    stack: seq<Marked>, attempts: seq<Attempt>, steps: seq<StepReport>,
    reports: seq<StepReport>, changed: seq<bool>, remaining: seq<nat>)
  {
    && |reports| == |steps| && |changed| == |steps| && |remaining| == |steps|
    && |attempts| <= |stack|
    && forall s :: 0 <= s < |steps| ==>
      && reports[s].ok == steps[s].ok && reports[s].skipped == steps[s].skipped
      && (reports[s].rollbackFailed <==> StepFailed(attempts, s))
      && (changed[s] <==> StepUndone(attempts, s))
      && remaining[s] == CountStep(stack[..|stack| - |attempts|], s)
  }

  lemma TalliedStart(stack: seq<Marked>, steps: seq<StepReport>, reports: seq<StepReport>, changed: seq<bool>,
      remaining: seq<nat>)
    requires |reports| == |steps| && |changed| == |steps| && |remaining| == |steps|
    requires forall s :: 0 <= s < |steps| ==>
      reports[s] == StepReport(steps[s].ok, steps[s].skipped, false, false, false) && !changed[s] &&
        remaining[s] == CountStep(stack, s)
    ensures Tallied(stack, [], steps, reports, changed, remaining)
  {
    assert stack[..|stack|] == stack;
  }

  /** The report of a step after one more of its records has been tried. */
  function Retold(report: StepReport, failed: bool): StepReport {
    if failed then report.(rollbackAttempted := true, rollbackFailed := true) else report.(rollbackAttempted := true)
  }

  lemma TalliedStep(
    stack: seq<Marked>, attempts: seq<Attempt>, steps: seq<StepReport>,
    reports: seq<StepReport>, changed: seq<bool>, remaining: seq<nat>, a: Attempt, s: nat)
    requires Tallied(stack, attempts, steps, reports, changed, remaining)
    requires |attempts| < |stack| && a.record == stack[|stack| - |attempts| - 1] && a.record.step == s < |steps|
    ensures |reports| == |changed| == |remaining| == |steps| && 0 < remaining[s]
    ensures Tallied(stack, attempts + [a], steps, reports[s := Retold(reports[s], a.failed)],
      changed[s := changed[s] || a.undone], remaining[s := remaining[s] - 1])
  {
    hide StepFailed, StepUndone;
    var i := |stack| - |attempts|;
    assert stack[..i][..i - 1] == stack[..i - 1];
    forall s | 0 <= s < |steps|
      ensures CountStep(stack[..i], s) == CountStep(stack[..i - 1], s) + if a.record.step == s then 1 else 0
    {
    }
    forall s | 0 <= s < |steps|
      ensures StepFailed(attempts + [a], s) <==> StepFailed(attempts, s) || (a.record.step == s && a.failed)
      ensures StepUndone(attempts + [a], s) <==> StepUndone(attempts, s) || (a.record.step == s && a.undone)
    {
      StepFlagsSnoc(attempts, a, s);
    }
  }

  /** A step is reported as rolled back exactly if it was, and as failed exactly if undoing one of its
      records failed; what was reported about it before stands. */
  ghost predicate FairReports(stack: seq<Marked>, attempts: seq<Attempt>, steps: seq<StepReport>,
      reports: seq<StepReport>) {
    |reports| == |steps| &&
    forall s :: 0 <= s < |steps| ==>
      && (reports[s].rolledBack <==> !steps[s].skipped && RolledBack(stack, attempts, s))
      && (reports[s].rollbackFailed <==> StepFailed(attempts, s))
      && reports[s].ok == steps[s].ok && reports[s].skipped == steps[s].skipped
  }

  /** The last loop of a rollback: the verdict on every step. */
  method Verdicts(
    ghost stack: seq<Marked>, ghost attempts: seq<Attempt>, ghost steps: seq<StepReport>,
    reports: seq<StepReport>, changed: seq<bool>, remaining: seq<nat>)
    returns (final: seq<StepReport>, rolledBackSteps: nat)
    requires Tallied(stack, attempts, steps, reports, changed, remaining) && FromTheTop(stack, attempts)
    ensures rolledBackSteps == CountRolledBack(final)
    ensures FairReports(stack, attempts, steps, final)
  {
    hide StepFailed, StepUndone, RolledBack, FromTheTop;
    final := [];
    rolledBackSteps := 0;
    var s := 0;
    while s < |reports|
      invariant 0 <= s <= |reports| && |final| == s && rolledBackSteps == CountRolledBack(final)
      invariant forall t :: 0 <= t < s ==>
        (final[t].rolledBack <==> !steps[t].skipped && RolledBack(stack, attempts, t))
        && (final[t].rollbackFailed <==> StepFailed(attempts, t))
        && final[t].ok == steps[t].ok && final[t].skipped == steps[t].skipped
    {
      RolledBackIff(stack, attempts, s, |stack| - |attempts|);
      var rolledBack := changed[s] && !reports[s].rollbackFailed && remaining[s] == 0 && !reports[s].skipped;
      ghost var before := final;
      final := final + [reports[s].(rolledBack := rolledBack)];
      assert final[..|final| - 1] == before;
      if rolledBack {
        rolledBackSteps := rolledBackSteps + 1;
      }
      s := s + 1;
    }
  }
}
