/** The invariant that a running batch keeps of each of its two logs, the undo stack and the journal,
    and that every elementary step keeps it. */
module FsxLog {
  import opened FsxNames
  import opened FsxReplay
  import opened FsxRestart
  import opened FsxSound
  import opened FsxStore
  import opened FsxUndo
  import opened Text

  ghost predicate GoodLog(w: World, log: seq<Marked>, pinned: set<Path>, next: nat, o: Origin, c: Course) {
    Sound(w, log, pinned, next, o) && Shape(log, Temps(o), c) && RegularAt(w.disk, Stagings(log))
  }

  lemma GoodEmpty(w: World, serial: nat, o: Origin, c: Course)
    requires o == Origin(w.disk, serial)
    ensures GoodLog(w, [], {}, serial, o, c)
  {
  }

  lemma GoodLater(w: World, log: seq<Marked>, pinned: set<Path>, next: nat, o: Origin, c: Course)
    requires GoodLog(w, log, pinned, next, o, c)
    ensures GoodLog(w, log, pinned, next + 1, o, c)
  {
    hide Sound, Shape, RegularAt, Stagings;
    SoundLater(w, log, pinned, next, o);
  }

  lemma GoodFurther(w: World, log: seq<Marked>, pinned: set<Path>, next: nat, o: Origin, c: Course, d: Course)
    requires GoodLog(w, log, pinned, next, o, c)
    requires d.orderly == c.orderly && c.takes <= d.takes && c.brings <= d.brings
    ensures GoodLog(w, log, pinned, next, o, d)
  {
    hide Sound, Shape, RegularAt, Stagings;
    ShapeGrows(log, Temps(o), c, d);
  }

  /** Two files become pinned witnesses. */
  lemma GoodPin(
    w: World, log: seq<Marked>, pinned: set<Path>, next: nat, o: Origin, c: Course, first: Path, second: Path)
    requires GoodLog(w, log, pinned, next, o, c) && OnlyRemoved(log, first) && OnlyRemoved(log, second)
    ensures GoodLog(w, log, pinned + {first, second}, next, o, c)
  {
    hide Sound, Shape, RegularAt, Stagings, OnlyRemoved;
    SoundPin(w, log, pinned, next, o, first);
    SoundPin(w, log, pinned + {first}, next, o, second);
    assert pinned + {first} + {second} == pinned + {first, second};
  }

  /** A staging file appears, changes or disappears. */
  lemma GoodWrite(a: World, b: World, log: seq<Marked>, pinned: set<Path>, next: nat, o: Origin, c: Course, temp: Path)
    requires GoodLog(b, log, pinned, next, o, c)
    requires Scratch(a.disk, log, pinned, o, temp) && Scratch(b.disk, log, pinned, o, temp)
    requires SameExcept(a.disk, b.disk, {temp})
    ensures GoodLog(a, log, pinned, next, o, c)
  {
    hide Sound, Shape, RegularAt, Stagings, OnlyRemoved, TempsFrom;
    SoundStagingWrite(a, b, log, pinned, next, o, temp);
    RegularAfterWrite(b.disk, a.disk, temp, Stagings(log));
  }

  /** The removal of a staging file is recorded. */
  lemma GoodRemoval(
    w: World, log: seq<Marked>, m: Marked, pinned: set<Path>, next: nat, o: Origin, c: Course, temp: Path)
    requires GoodLog(w, log, pinned, next, o, c) && Scratch(w.disk, log, pinned, o, temp)
    requires m.undo == RemovePath(temp) && temp !in TempsFrom(next) && IsAbsolute(temp)
    requires c.orderly ==> !Mentions(log, temp)
    ensures GoodLog(w, log + [m], pinned, next, o, c)
  {
    hide Sound, Shape, RegularAt, Stagings, TempsFrom, Scratch;
    SoundRemoval(w, log, m, pinned, next, o, temp);
    ShapeRemoval(log, m, temp, Temps(o), c);
    StagingsSnoc(log, m);
  }

  /** A move that has not happened yet is recorded. */
  lemma GoodMoveRecord(w: World, log: seq<Marked>, m: Marked, pinned: set<Path>, next: nat, o: Origin, c: Course)
    requires GoodLog(w, log, pinned, next, o, c)
    requires m.undo.MovePath? && m.undo.from !in w.disk
    requires Plain(log, m.undo.from, Temps(o)) && Plain(log, m.undo.to, Temps(o))
    requires forall p :: p in PathsOf(m.undo) ==> p !in pinned && p !in TempsFrom(next) && IsAbsolute(p)
    requires c.orderly ==> FitsCourse(m.undo, Temps(o), c)
    ensures GoodLog(w, log + [m], pinned, next, o, c)
  {
    hide Sound, Shape, RegularAt, Stagings, TempsFrom, Plain, FitsCourse;
    SoundQuietMove(w, log, m, pinned, next, o);
    ShapeMove(log, m, Temps(o), c);
    StagingsSnoc(log, m);
  }

  /** The files of a replacement about to be recorded are scratch files whose removal is on record. */
  ghost predicate ReadyFor(disk: Disk, log: seq<Marked>, u: Undo) {
    && ReadyToReplace(disk, u) && AllAbsolute(u)
    && OnlyRemoved(log, u.from) && OnlyRemoved(log, u.newWitness) && OnlyRemoved(log, u.staging)
    && HasRemoval(log, u.from) && HasRemoval(log, u.newWitness) && HasRemoval(log, u.staging)
  }

  /** A replacement that has not happened yet is recorded, and its witnesses are pinned. */
  lemma GoodReplaceRecord(w: World, log: seq<Marked>, m: Marked, pinned: set<Path>, next: nat, o: Origin, c: Course)
    requires GoodLog(w, log, pinned, next, o, c)
    requires !m.restored && m.undo.ReplaceFile? && ReadyFor(w.disk, log, m.undo)
    requires ReplacementForm(m.undo, o) && m.undo.to !in pinned && m.undo.staging !in pinned
    requires forall p :: p in PathsOf(m.undo) ==> p !in TempsFrom(next)
    ensures GoodLog(w, log + [m], pinned + {m.undo.from, m.undo.newWitness}, next, o, c)
  {
    hide Sound, Shape, RegularAt, Stagings, TempsFrom, ReadyToReplace, OnlyRemoved, HasRemoval, ValidStamp;
    hide IsStagingName, AllAbsolute;
    hide AcceptableNext;
    var u := m.undo;
    AcceptableReplacement(log, u, o);
    SoundPin(w, log, pinned, next, o, u.from);
    SoundPin(w, log, pinned + {u.from}, next, o, u.newWitness);
    assert pinned + {u.from} + {u.newWitness} == pinned + {u.from, u.newWitness};
    SoundQuietReplace(w, log, m, pinned + {u.from, u.newWitness}, next, o);
    ShapeReplace(log, m, Temps(o), c);
    StagingsSnoc(log, m);
    assert u.staging !in w.disk by { ReadyTarget(w.disk, u); }
    RegularWithOneMore(w.disk, Stagings(log), u.staging);
  }

  lemma RegularWithOneMore(disk: Disk, names: set<Path>, p: Path)
    requires RegularAt(disk, names) && p !in disk
    ensures RegularAt(disk, names + {p})
  {
  }

  /** A visible target, three staging names of the run, all distinct, and two valid stamps. */
  ghost predicate ReplacementForm(u: Undo, o: Origin)
    requires u.ReplaceFile?
  {
    && u.to !in Temps(o) && u.from in Temps(o) && u.newWitness in Temps(o) && u.staging in Temps(o)
    && u.from != u.newWitness && u.from != u.staging && u.newWitness != u.staging
    && ValidStamp(u.oldStamp) && ValidStamp(u.newStamp)
  }

  /** Such a record passes the demands of the journal parser. */
  lemma AcceptableReplacement(log: seq<Marked>, u: Undo, o: Origin)
    requires u.ReplaceFile? && ReplacementForm(u, o) && AllAbsolute(u)
    requires HasRemoval(log, u.from) && HasRemoval(log, u.newWitness) && HasRemoval(log, u.staging)
    requires OnlyRemoved(log, u.from)
    ensures AcceptableNext(log, u)
  {
    hide ValidStamp, HasRemoval, IsStagingName, TempsFrom;
    TempIsStaging(u.from, o.serial);
    TempIsStaging(u.newWitness, o.serial);
    TempIsStaging(u.staging, o.serial);
    forall i | 0 <= i < |log| && log[i].undo.ReplaceFile? ensures log[i].undo.from != u.from {
      assert u.from !in PathsOf(log[i].undo);
    }
  }

  /** The last recorded move is performed. */
  lemma GoodMove(
    w: World, log: seq<Marked>, from: Path, to: Path, pinned: set<Path>, next: nat, o: Origin, c: Course)
    requires GoodLog(w, log, pinned, next, o, c)
    requires log != [] && log[|log| - 1].undo == MovePath(to, from)
    requires from in w.disk && to !in w.disk && from !in pinned && to !in pinned
    ensures GoodLog(Renamed(w, from, to), log, pinned, next, o, c)
  {
    hide Sound, RegularAt, Stagings, TempsFrom, Apart, Reentrant, Bounded, ReplacesVisible;
    SoundMove(w, log, from, to, pinned, next, o);
    RegularAfterMove(w, log, from, to);
  }

  /** The last recorded replacement is performed. */
  lemma GoodReplace(
    w: World, log: seq<Marked>, u: Undo, temp: Path, pinned: set<Path>, next: nat, o: Origin, c: Course)
    requires GoodLog(w, log, pinned, next, o, c)
    requires log != [] && !log[|log| - 1].restored && log[|log| - 1].undo == u && ReadyToReplace(w.disk, u)
    requires temp in w.disk && w.disk[temp].data == w.disk[u.newWitness].data
    requires Scratch(w.disk, log, pinned, o, temp)
    ensures GoodLog(Renamed(w, temp, u.to), log, pinned, next, o, c)
  {
    hide Sound, RegularAt, Stagings, TempsFrom, Apart, Reentrant, Bounded, ReplacesVisible, Scratch;
    SoundReplace(w, log, u, temp, pinned, next, o);
    RegularAfterReplace(w, log, u, temp, Temps(o));
  }
}
