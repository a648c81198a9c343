/** Two ways in which a crash during the rollback of a failed run defeats the next recovery, although
    every crash before the rollback is recovered from. */
module FsxRollbackCrash {
  import opened FsxEngine
  import opened FsxNames
  import opened FsxPlan
  import opened FsxReplay
  import opened FsxSound
  import opened FsxStore
  import opened FsxUndo
  import opened Text

  /** The disk once an existing destination has been copied over: the old file is under its backup name. */
  function CopiedOver(w: World, src: Path, dst: Path, backup: Path, temp: Path): World
    requires src in w.disk && dst in w.disk && temp !in w.disk && backup !in w.disk
    requires temp != dst && temp != backup && backup != dst
  {
    Renamed(Renamed(Stored(w, temp, w.disk[src].data), dst, backup), temp, dst)
  }

  lemma CopyThenMissing(v: View, src: Path, dst: Path, missing: Path, x: Path, o: Options)
    requires src in v && v[src].regular && missing !in v && missing != dst && o.policy.Overwrite?
    ensures PlanEffect(v, [CopyFile(src, dst), RenameFile(missing, x)], o) == None
  {
    var plan := [CopyFile(src, dst), RenameFile(missing, x)];
    PlanStep(v, plan, o, 0);
    PlanStep(v, plan, o, 1);
    assert plan[..2] == plan && plan[..0] == [];
  }

  /** A copy over an existing file is followed by a step that fails.  The rollback puts the old file back
      and is complete; if the process dies before the journal is deleted, the next recovery reports success
      and the file is gone. */
  lemma RollbackOfCopyCutShort(
    w: World, o: Origin, src: Path, dst: Path, missing: Path, x: Path, backup: Path, temp: Path, opts: Options,
    goal: Option<View>, orderly: bool)
    requires o.initial == w.disk && src in w.disk && w.disk[src].regular && dst in w.disk && w.disk[dst].regular
    requires missing !in w.disk && missing != dst && opts.policy.Overwrite? && src !in Temps(o) && dst !in Temps(o)
    requires temp in Temps(o) && temp !in w.disk && backup in Temps(o) && backup !in w.disk && temp != backup
    ensures PlanEffect(ViewOf(w.disk, Temps(o)), [CopyFile(src, dst), RenameFile(missing, x)], opts) == None
    ensures var log := CopyLog(dst, backup, temp);
      var undone := UndoAll(CopiedOver(w, src, dst, backup, temp), log);
      && undone.Ok? && SameOutside(undone.value.disk, w.disk, Temps(o))
      && !CrashSafe(Snapshot(undone.value, Log(log, false)), o, goal, orderly)
      && RecoverAll(undone.value, log).Ok? && dst !in RecoverAll(undone.value, log).value.disk
  {
    hide StampAt, UndoAll, RecoverAll, TempsFrom;
    var log := CopyLog(dst, backup, temp);
    var copied := CopiedOver(w, src, dst, backup, temp);
    CopyThenMissing(ViewOf(w.disk, Temps(o)), src, dst, missing, x, opts);
    CopyReplayOnce(copied, dst, backup, temp);
    var undone := UndoAll(copied, log).value;
    CopyReplayLosesFile(copied, dst, backup, temp);
    RecoverIsUndo(undone, log, Temps(o), o.serial);
    assert !SameAt(UndoAll(undone, log).value.disk, o.initial, dst);
  }

  /** The staging files of a replacement, each with its removal on record. */
  function Removals(temp: Path, u: Undo): seq<Marked>
    requires u.ReplaceFile?
  {
    [Marked(RemovePath(temp)), Marked(RemovePath(u.from)), Marked(RemovePath(u.newWitness)),
      Marked(RemovePath(u.staging))]
  }

  lemma RemovalsUndone(w: World, temp: Path, u: Undo)
    requires u.ReplaceFile? && forall p :: p in {temp, u.from, u.newWitness, u.staging} && p in w.disk ==>
      w.disk[p].regular
    ensures UndoAll(w, Removals(temp, u)).Ok?
    ensures UndoAll(w, Removals(temp, u)).value.disk == w.disk - {temp, u.from, u.newWitness, u.staging}
  {
    hide UndoAll;
    var log := Removals(temp, u);
    var c := UndoOne(w, log[3]).value;
    var b := UndoOne(c, log[2]).value;
    var a := UndoOne(b, log[1]).value;
    assert log == log[..3] + [log[3]] && log[..3] == log[..2] + [log[2]] && log[..2] == log[..1] + [log[1]];
    assert log[..1] == [] + [log[0]];
    UndoAllSnoc(w, log[..3], log[3]);
    UndoAllSnoc(c, log[..2], log[2]);
    UndoAllSnoc(b, log[..1], log[1]);
    UndoAllSnoc(a, [], log[0]);
    UndoNothing(UndoOne(a, log[0]).value);
    assert UndoOne(a, log[0]).value.disk == w.disk - {temp, u.from, u.newWitness, u.staging};
  }

  lemma UndoNothing(w: World)
    ensures UndoAll(w, []) == Ok(w)
  {
  }

  /** The append of a replacement record is reported as failed and yet is durable.  The rollback undoes the
      removals it knows of, which puts everything back and deletes the witnesses; if the process dies then,
      the next recovery meets the replacement record first and reports a conflict. */
  lemma UnacknowledgedReplacement(w: World, o: Origin, temp: Path, u: Undo, goal: Option<View>, orderly: bool)
    requires u.ReplaceFile? && u.to in w.disk && u.to !in Temps(o)
    requires forall p :: p in {temp, u.from, u.newWitness, u.staging} ==>
      p in Temps(o) && (p in w.disk ==> w.disk[p].regular)
    ensures var undone := UndoAll(w, Removals(temp, u));
      var log := Removals(temp, u) + [Marked(u)];
      && undone.Ok? && SameOutside(undone.value.disk, w.disk, Temps(o))
      && RecoverAll(undone.value, log) == Err(Undoing(ReplacementConflict))
      && !CrashSafe(Snapshot(undone.value, Log(log, false)), o, goal, orderly)
  {
    hide UndoAll, TempsFrom, Removals;
    RemovalsUndone(w, temp, u);
    var undone := UndoAll(w, Removals(temp, u)).value;
    var log := Removals(temp, u) + [Marked(u)];
    assert log[|log| - 1] == Marked(u);
    UndoAllSnoc(undone, Removals(temp, u), Marked(u));
    assert UndoOne(undone, Marked(u)) == Err(ReplacementConflict);
  }
}
