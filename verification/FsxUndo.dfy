/** Why an undo log can be replayed: what recording a step, performing it and writing staging files
    do to the outcome of replaying the log. */
module FsxUndo {
  import opened FsxNames
  import opened FsxStore
  import opened Text

  /** Replaying the log succeeds and gives the initial entries back on every non-staging path. */
  ghost predicate Restores(w: World, log: seq<Marked>, initial: Disk, temps: iset<Path>) {
    UndoAll(w, log).Ok? && SameOutside(UndoAll(w, log).value.disk, initial, temps)
  }

  function PathsOf(u: Undo): set<Path> {
    match u
    case RemovePath(from) => {from}
    case MovePath(from, to) => {from, to}
    case ReplaceFile(from, to, newWitness, staging, _, _) => {from, to, newWitness, staging}
  }

  ghost predicate Mentions(log: seq<Marked>, p: Path) {
    exists i :: 0 <= i < |log| && p in PathsOf(log[i].undo)
  }

  /** The log speaks of the path only to remove it. */
  ghost predicate OnlyRemoved(log: seq<Marked>, p: Path) {
    forall i :: 0 <= i < |log| ==> log[i].undo.RemovePath? || p !in PathsOf(log[i].undo)
  }

  lemma CloseLeadsHome(a: Disk, b: Disk, initial: Disk, temps: iset<Path>, pinned: set<Path>, loose: set<Path>)
    requires Close(a, b, pinned, loose)
    requires forall p :: p in loose ==> p in temps
    requires SameOutside(b, initial, temps)
    ensures SameOutside(a, initial, temps)
  {
    forall p: Path | p !in temps ensures SameAt(a, initial, p) {
      assert p !in loose;
      assert SameAt(a, b, p) && SameAt(b, initial, p);
    }
  }

  /** What a log restores does not depend on staging files that it only removes. */
  lemma RestoresTransfers(
    a: World, b: World, log: seq<Marked>, initial: Disk, temps: iset<Path>, pinned: set<Path>, loose: set<Path>)
    requires Close(a.disk, b.disk, pinned, loose) && AllRespect(log, pinned, loose)
    requires forall p :: p in loose ==> p in temps
    requires Restores(b, log, initial, temps)
    ensures Restores(a, log, initial, temps)
  {
    CloseUndoAll(a, b, log, pinned, loose);
    CloseLeadsHome(UndoAll(a, log).value.disk, UndoAll(b, log).value.disk, initial, temps, pinned, loose);
  }

  lemma UndoAllSnoc(w: World, log: seq<Marked>, m: Marked)
    ensures UndoAll(w, log + [m]) == if UndoOne(w, m).Err? then UndoOne(w, m) else UndoAll(UndoOne(w, m).value, log)
  {
    hide UndoOne;
    assert (log + [m])[..|log + [m]| - 1] == log;
  }

  /** A log followed by one more record restores whenever undoing that record leads to a world from
      which the log restores. */
  lemma RestoresSnoc(w: World, log: seq<Marked>, m: Marked, initial: Disk, temps: iset<Path>)
    requires UndoOne(w, m).Ok?
    ensures Restores(w, log + [m], initial, temps) <==> Restores(UndoOne(w, m).value, log, initial, temps)
  {
    UndoAllSnoc(w, log, m);
  }

  lemma RespectSnoc(log: seq<Marked>, m: Marked, pinned: set<Path>, loose: set<Path>)
    ensures AllRespect(log + [m], pinned, loose) <==> AllRespect(log, pinned, loose) && Respects(m.undo, pinned, loose)
  {
    hide Respects;
    var more := log + [m];
    assert more[|log|] == m;
    forall i | 0 <= i < |log| ensures more[i] == log[i] {}
    if AllRespect(more, pinned, loose) {
      forall i | 0 <= i < |log|
        ensures Respects(log[i].undo, pinned, loose)
      { assert Respects(more[i].undo, pinned, loose); }
    }
  }

  // ----- The five elementary steps -----

  /** A staging file that the log at most removes may appear, change or disappear. */
  lemma StagingWriteKeeps(
    a: World, b: World, log: seq<Marked>, temp: Path, initial: Disk, temps: iset<Path>, pinned: set<Path>)
    requires SameExcept(a.disk, b.disk, {temp})
    requires temp in a.disk ==> a.disk[temp].regular
    requires temp in b.disk ==> b.disk[temp].regular
    requires temp in temps && temp !in pinned && OnlyRemoved(log, temp) && AllRespect(log, pinned, {})
    requires Restores(b, log, initial, temps)
    ensures Restores(a, log, initial, temps)
  {
    SameButOne(a.disk, b.disk, temp, pinned);
    RespectLoose(log, temp, pinned);
    RestoresTransfers(a, b, log, initial, temps, pinned, {temp});
  }

  lemma SameButOne(a: Disk, b: Disk, temp: Path, pinned: set<Path>)
    requires SameExcept(a, b, {temp})
    requires temp in a ==> a[temp].regular
    requires temp in b ==> b[temp].regular
    ensures Close(a, b, pinned, {temp})
  {
  }

  lemma RespectLoose(log: seq<Marked>, temp: Path, pinned: set<Path>)
    requires temp !in pinned && OnlyRemoved(log, temp) && AllRespect(log, pinned, {})
    ensures AllRespect(log, pinned, {temp})
  {
    forall i | 0 <= i < |log| ensures Respects(log[i].undo, pinned, {temp}) {
      assert Respects(log[i].undo, pinned, {});
    }
  }

  lemma RespectPinned(log: seq<Marked>, temp: Path, pinned: set<Path>)
    requires OnlyRemoved(log, temp) && AllRespect(log, pinned, {})
    ensures AllRespect(log, pinned + {temp}, {})
  {
    forall i | 0 <= i < |log| ensures Respects(log[i].undo, pinned + {temp}, {}) {
      assert Respects(log[i].undo, pinned, {});
    }
  }

  /** Recording the removal of a staging file keeps the log replayable, whether or not the file is
      there yet. */
  lemma RecordRemovalKeeps(
    w: World, log: seq<Marked>, m: Marked, temp: Path, initial: Disk, temps: iset<Path>, pinned: set<Path>)
    requires m.undo == RemovePath(temp)
    requires temp in w.disk ==> w.disk[temp].regular
    requires temp in temps && temp !in pinned && OnlyRemoved(log, temp) && AllRespect(log, pinned, {})
    requires Restores(w, log, initial, temps)
    ensures Restores(w, log + [m], initial, temps)
  {
    var after := UndoOne(w, m).value;
    StagingWriteKeeps(after, w, log, temp, initial, temps, pinned);
    RestoresSnoc(w, log, m, initial, temps);
  }

  /** Recording a step that has not happened changes nothing: its undo does nothing. */
  lemma RecordQuietKeeps(w: World, log: seq<Marked>, m: Marked, initial: Disk, temps: iset<Path>)
    requires UndoOne(w, m) == Ok(w)
    ensures Restores(w, log + [m], initial, temps) <==> Restores(w, log, initial, temps)
  {
    RestoresSnoc(w, log, m, initial, temps);
  }

  /** Performing a recorded move keeps the log replayable. */
  lemma MoveKeeps(
    w: World, log: seq<Marked>, m: Marked, from: Path, to: Path, initial: Disk, temps: iset<Path>, pinned: set<Path>)
    requires m.undo == MovePath(to, from)
    requires from in w.disk && to !in w.disk && from !in pinned && to !in pinned && AllRespect(log, pinned, {})
    requires Restores(w, log, initial, temps)
    ensures Restores(Renamed(w, from, to), log + [m], initial, temps)
  {
    var done := Renamed(w, from, to);
    var back := UndoOne(done, m).value;
    assert back.disk.Keys == w.disk.Keys;
    forall p: Path ensures SameAt(back.disk, w.disk, p) && (p in pinned && p in w.disk ==> back.disk[p] == w.disk[p]) {}
    assert Close(back.disk, w.disk, pinned, {});
    RestoresTransfers(back, w, log, initial, temps, pinned, {});
    RestoresSnoc(done, log, m, initial, temps);
  }

  /** The replacement about to be made is the recorded one: both witnesses are in place and the
      target still holds what the old witness holds. */
  ghost predicate ReadyToReplace(disk: Disk, u: Undo) {
    u.ReplaceFile? && WitnessesIntact(disk, u) && disk[u.to].data == disk[u.from].data && u.staging !in disk
  }

  lemma ReadyTarget(disk: Disk, u: Undo)
    requires ReadyToReplace(disk, u)
    ensures u.from in disk && u.to in disk && u.newWitness in disk && u.staging !in disk
  {
  }

  /** Performing a recorded replacement keeps the log replayable. */
  lemma ReplaceKeeps(
    w: World, log: seq<Marked>, m: Marked, temp: Path, initial: Disk, temps: iset<Path>, pinned: set<Path>)
    requires !m.restored && ReadyToReplace(w.disk, m.undo)
    requires Respects(m.undo, pinned, {})
    requires temp in w.disk && w.disk[temp].regular && w.disk[temp].data == w.disk[m.undo.newWitness].data
    requires temp in temps && temp !in pinned && OnlyRemoved(log, temp) && AllRespect(log, pinned, {})
    requires temp !in PathsOf(m.undo)
    requires Restores(w, log, initial, temps)
    ensures Restores(Renamed(w, temp, m.undo.to), log + [m], initial, temps)
  {
    var u := m.undo;
    var done := Renamed(w, temp, u.to);
    assert WitnessesIntact(done.disk, u);
    var back := UndoOne(done, m).value;
    forall p: Path | p != temp
      ensures SameAt(back.disk, w.disk, p) && (p in pinned && p in w.disk ==> back.disk[p] == w.disk[p])
    {}
    assert Close(back.disk, w.disk, pinned, {temp});
    RespectLoose(log, temp, pinned);
    RestoresTransfers(back, w, log, initial, temps, pinned, {temp});
    RestoresSnoc(done, log, m, initial, temps);
  }
}
