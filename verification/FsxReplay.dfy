/** Which logs may be replayed a second time, after a first replay has been cut short anywhere. */
module FsxReplay {
  import opened FsxNames
  import opened FsxSound
  import opened FsxStore
  import opened FsxUndo
  import opened Text

  /** The restore staging name of a replacement is not a name that another record moves or replaces. */
  predicate StagingApart(u: Undo, other: Undo) {
    u.ReplaceFile? ==>
      (other.MovePath? ==> u.staging != other.from && u.staging != other.to) &&
      (other.ReplaceFile? ==> u.staging != other.to)
  }

  /** No restore staging name is moved or replaced by another record. */
  ghost predicate Apart(log: seq<Marked>) {
    forall i, j :: 0 <= i < |log| && 0 <= j < |log| && i != j ==> StagingApart(log[i].undo, log[j].undo)
  }

  /** Undoing the earlier record does not bring back a path that the later record would take away
      if it were replayed again. */
  predicate NoClash(earlier: Undo, later: Undo) {
    && (earlier.MovePath? && !later.ReplaceFile? ==> earlier.to != later.from)
    && (earlier.ReplaceFile? && !later.ReplaceFile? ==> earlier.staging != later.from)
    && StagingApart(earlier, later) && StagingApart(later, earlier)
  }

  /** No record brings back what a later one takes away. */
  ghost predicate Reentrant(log: seq<Marked>) {
    forall i, j :: 0 <= i < j < |log| ==> NoClash(log[i].undo, log[j].undo)
  }

  /** How far a run has got in an orderly plan: the names it may have put files at, and those a
      rollback may bring files back to. */
  datatype Course = Course(orderly: bool, takes: set<Path>, brings: set<Path>)

  /** Moves start from staging names or from names the plan has put files at, and lead to staging names or
      to names the plan has taken files from. */
  ghost predicate Bounded(log: seq<Marked>, temps: iset<Path>, c: Course) {
    forall i :: 0 <= i < |log| && log[i].undo.MovePath? ==>
      (log[i].undo.from in temps || log[i].undo.from in c.takes) &&
        (log[i].undo.to in temps || log[i].undo.to in c.brings)
  }

  /** Replacements have their targets outside the staging names and their stagings inside. */
  ghost predicate ReplacesVisible(log: seq<Marked>, temps: iset<Path>) {
    forall i :: 0 <= i < |log| && log[i].undo.ReplaceFile? ==> log[i].undo.staging in temps && log[i].undo.to !in temps
  }

  /** The shape of the log of every run, and of the run of an orderly plan. */
  ghost predicate Shape(log: seq<Marked>, temps: iset<Path>, c: Course) {
    && Apart(log) && ReplacesVisible(log, temps)
    && (c.orderly ==> Reentrant(log) && Bounded(log, temps, c))
  }

  lemma ReentrantSnoc(log: seq<Marked>, m: Marked)
    requires Reentrant(log)
    requires forall i :: 0 <= i < |log| ==> NoClash(log[i].undo, m.undo)
    ensures Reentrant(log + [m])
  {
    hide NoClash;
    var more := log + [m];
    forall i, j | 0 <= i < j < |more| ensures NoClash(more[i].undo, more[j].undo) {
      assert more[i] == log[i];
      if j < |log| {
        assert more[j] == log[j];
      }
    }
  }

  lemma ApartSnoc(log: seq<Marked>, m: Marked)
    requires Apart(log)
    requires forall i :: 0 <= i < |log| ==> StagingApart(log[i].undo, m.undo) && StagingApart(m.undo, log[i].undo)
    ensures Apart(log + [m])
  {
    hide StagingApart;
    var more := log + [m];
    forall i, j | 0 <= i < |more| && 0 <= j < |more| && i != j ensures StagingApart(more[i].undo, more[j].undo) {
      assert i < |log| ==> more[i] == log[i];
      assert j < |log| ==> more[j] == log[j];
    }
  }

  lemma ShapeGrows(log: seq<Marked>, temps: iset<Path>, c: Course, d: Course)
    requires Shape(log, temps, c) && d.orderly == c.orderly && c.takes <= d.takes && c.brings <= d.brings
    ensures Shape(log, temps, d)
  {
    hide Apart, Reentrant, ReplacesVisible;
  }

  lemma ShapeRemoval(log: seq<Marked>, m: Marked, temp: Path, temps: iset<Path>, c: Course)
    requires Shape(log, temps, c) && m.undo == RemovePath(temp) && (c.orderly ==> !Mentions(log, temp))
    ensures Shape(log + [m], temps, c)
  {
    hide Reentrant, Apart;
    ApartSnoc(log, m);
    if c.orderly {
      forall i | 0 <= i < |log| ensures NoClash(log[i].undo, m.undo) {
        assert temp !in PathsOf(log[i].undo);
      }
      ReentrantSnoc(log, m);
    }
  }

  /** The path is visible, or a staging name that so far is only removed. */
  ghost predicate Plain(log: seq<Marked>, p: Path, temps: iset<Path>) {
    p !in temps || OnlyRemoved(log, p)
  }

  /** In an orderly plan a move starts from a name that no earlier undo brings back. */
  ghost predicate FitsCourse(u: Undo, temps: iset<Path>, c: Course)
    requires u.MovePath?
  {
    (u.from in temps || (u.from in c.takes && u.from !in c.brings)) && (u.to in temps || u.to in c.brings)
  }

  lemma ShapeMove(log: seq<Marked>, m: Marked, temps: iset<Path>, c: Course)
    requires Shape(log, temps, c) && m.undo.MovePath? && Plain(log, m.undo.from, temps) && Plain(log, m.undo.to, temps)
    requires c.orderly ==> FitsCourse(m.undo, temps, c)
    ensures Shape(log + [m], temps, c)
  {
    hide Reentrant, Apart;
    forall i | 0 <= i < |log|
      ensures StagingApart(log[i].undo, m.undo) && StagingApart(m.undo, log[i].undo)
      ensures c.orderly ==> NoClash(log[i].undo, m.undo)
    {
      var u := log[i].undo;
      assert m.undo.from in temps ==> u.RemovePath? || m.undo.from !in PathsOf(u);
      assert m.undo.to in temps ==> u.RemovePath? || m.undo.to !in PathsOf(u);
    }
    ApartSnoc(log, m);
    if c.orderly {
      ReentrantSnoc(log, m);
    }
  }

  lemma ShapeReplace(log: seq<Marked>, m: Marked, temps: iset<Path>, c: Course)
    requires Shape(log, temps, c)
    requires m.undo.ReplaceFile? && m.undo.to !in temps && m.undo.staging in temps && OnlyRemoved(log, m.undo.staging)
    ensures Shape(log + [m], temps, c)
  {
    hide Reentrant, Apart;
    forall i | 0 <= i < |log|
      ensures StagingApart(log[i].undo, m.undo) && StagingApart(m.undo, log[i].undo)
      ensures c.orderly ==> NoClash(log[i].undo, m.undo)
    {
      assert log[i].undo.RemovePath? || m.undo.staging !in PathsOf(log[i].undo);
    }
    ApartSnoc(log, m);
    if c.orderly {
      ReentrantSnoc(log, m);
    }
  }

  /** A visible file that was not there at first lies where some recorded move can take it from. */
  lemma {:induction false} NewFilesAreTaken(w: World, log: seq<Marked>, o: Origin, p: Path)
    requires Restores(w, log, o.initial, Temps(o)) && RemovesStagingOnly(log, Temps(o)) &&
      ReplacesVisible(log, Temps(o))
    requires p in w.disk && p !in Temps(o) && p !in o.initial
    ensures exists i :: 0 <= i < |log| && log[i].undo.MovePath? && log[i].undo.from == p
    decreases |log|
  {
    hide StampAt, TempsFrom;
    assert log == [] ==> SameAt(w.disk, o.initial, p);
    if log != [] {
      var m := log[|log| - 1];
      var front := log[..|log| - 1];
      if !(m.undo.MovePath? && m.undo.from == p) {
        forall i | 0 <= i < |front| ensures front[i] == log[i] {}
        NewFilesAreTaken(UndoOne(w, m).value, front, o, p);
        var i :| 0 <= i < |front| && front[i].undo.MovePath? && front[i].undo.from == p;
        assert log[i] == front[i];
      }
    }
  }

  // ----- Half-finished replays -----

  /** Undoing this record again would do nothing. */
  predicate Quiet(disk: Disk, m: Marked) {
    if m.undo.ReplaceFile? then m.restored else m.undo.from !in disk
  }

  ghost predicate QuietFrom(disk: Disk, log: seq<Marked>, k: nat) {
    forall j :: k <= j < |log| ==> Quiet(disk, log[j])
  }

  /** The records from k on have been undone and those before k have not. */
  ghost predicate Halfway(w: World, log: seq<Marked>, k: nat, o: Origin, pinned: set<Path>) {
    && k <= |log|
    && QuietFrom(w.disk, log, k)
    && Restores(w, log[..k], o.initial, Temps(o))
    && Reentrant(log)
    && AllRespect(log, pinned, {})
  }

  lemma {:induction false} QuietTail(w: World, log: seq<Marked>, k: nat)
    requires k <= |log| && QuietFrom(w.disk, log, k)
    ensures UndoAll(w, log) == UndoAll(w, log[..k])
    decreases |log|
  {
    if k == |log| {
      assert log[..k] == log;
    } else {
      var front := log[..|log| - 1];
      var last := log[|log| - 1];
      assert log == front + [last];
      UndoAllSnoc(w, front, last);
      assert Quiet(w.disk, last);
      assert UndoOne(w, last) == Ok(w);
      forall j | k <= j < |front| ensures Quiet(w.disk, front[j]) { assert front[j] == log[j]; }
      QuietTail(w, front, k);
      assert front[..k] == log[..k];
    }
  }

  /** Whatever has been undone so far, replaying the whole log from here succeeds and restores. */
  lemma HalfwayRestores(w: World, log: seq<Marked>, k: nat, o: Origin, pinned: set<Path>)
    requires Halfway(w, log, k, o, pinned)
    ensures Restores(w, log, o.initial, Temps(o))
  {
    QuietTail(w, log, k);
  }

  lemma HalfwayStart(w: World, log: seq<Marked>, o: Origin, pinned: set<Path>)
    requires Restores(w, log, o.initial, Temps(o)) && Reentrant(log) && AllRespect(log, pinned, {})
    ensures Halfway(w, log, |log|, o, pinned)
  {
    assert log[..|log|] == log;
  }

  lemma HalfwayEnd(w: World, log: seq<Marked>, o: Origin, pinned: set<Path>)
    requires Halfway(w, log, 0, o, pinned)
    ensures SameOutside(w.disk, o.initial, Temps(o))
  {
    assert log[..0] == [];
  }

  /** The next record to undo can be undone, and what it leads to restores with the records before. */
  lemma HalfwayNext(w: World, log: seq<Marked>, k: nat, o: Origin, pinned: set<Path>)
    requires Halfway(w, log, k, o, pinned) && 0 < k
    ensures UndoOne(w, log[k - 1]).Ok?
    ensures Restores(UndoOne(w, log[k - 1]).value, log[..k - 1], o.initial, Temps(o))
  {
    assert log[..k] == log[..k - 1] + [log[k - 1]];
    UndoAllSnoc(w, log[..k - 1], log[k - 1]);
  }

  /** Undoing a move or a removal, or passing over a marked replacement, is one step further. */
  lemma HalfwayStep(w: World, log: seq<Marked>, k: nat, o: Origin, pinned: set<Path>)
    requires Halfway(w, log, k, o, pinned) && 0 < k
    requires log[k - 1].undo.ReplaceFile? ==> log[k - 1].restored
    ensures UndoOne(w, log[k - 1]).Ok? && Halfway(UndoOne(w, log[k - 1]).value, log, k - 1, o, pinned)
  {
    hide Restores, AllRespect, SameOutside;
    HalfwayNext(w, log, k, o, pinned);
    var m := log[k - 1];
    var after := UndoOne(w, m).value;
    forall j | k - 1 <= j < |log| ensures Quiet(after.disk, log[j]) {
      if k <= j {
        assert NoClash(m.undo, log[j].undo) && Quiet(w.disk, log[j]);
      }
    }
  }

  /** Only the restore staging file of a replacement has changed. */
  ghost predicate StagingTouched(before: Disk, after: Disk, staging: Path) {
    SameExcept(after, before, {staging}) && staging in after && after[staging].regular
  }

  /** A crash while the old contents are being copied to the restore staging name. */
  lemma HalfwayStaging(w: World, after: World, log: seq<Marked>, k: nat, o: Origin, pinned: set<Path>)
    requires Halfway(w, log, k, o, pinned) && 0 < k && log[k - 1].undo.ReplaceFile?
    requires log[k - 1].undo.staging in Temps(o)
    requires StagingTouched(w.disk, after.disk, log[k - 1].undo.staging)
    requires log[k - 1].undo.staging in w.disk ==> w.disk[log[k - 1].undo.staging].regular
    ensures Halfway(after, log, k, o, pinned)
  {
    hide Restores;
    var u := log[k - 1].undo;
    assert Respects(u, pinned, {});
    SameButOne(after.disk, w.disk, u.staging, pinned);
    forall i | 0 <= i < k ensures Respects(log[i].undo, pinned, {u.staging}) {
      assert Respects(log[i].undo, pinned, {});
      if i < k - 1 {
        assert NoClash(log[i].undo, u);
      }
    }
    RestoresTransfers(after, w, log[..k], o.initial, Temps(o), pinned, {u.staging});
    forall j | k <= j < |log| ensures Quiet(after.disk, log[j]) {
      assert NoClash(u, log[j].undo) && Quiet(w.disk, log[j]);
    }
  }

  /** A crash after the target has been restored and before its marker is written. */
  lemma HalfwayReplaced(w: World, log: seq<Marked>, k: nat, o: Origin, pinned: set<Path>)
    requires Halfway(w, log, k, o, pinned) && 0 < k && log[k - 1].undo.ReplaceFile? && !log[k - 1].restored
    ensures UndoOne(w, log[k - 1]).Ok? && Halfway(UndoOne(w, log[k - 1]).value, log, k, o, pinned)
    ensures UndoOne(UndoOne(w, log[k - 1]).value, log[k - 1]) == Ok(UndoOne(w, log[k - 1]).value)
  {
    hide Restores, AllRespect, Reentrant;
    HalfwayNext(w, log, k, o, pinned);
    var m := log[k - 1];
    var after := UndoOne(w, m).value;
    UndoReplaceTwice(w, m, pinned) by { assert AllRespect(log, pinned, {}); RespectsAt(log, k - 1, pinned); }
    assert log[..k] == log[..k - 1] + [m];
    RestoresSnoc(after, log[..k - 1], m, o.initial, Temps(o));
    forall j | k <= j < |log| ensures Quiet(after.disk, log[j]) {
      assert Quiet(w.disk, log[j]);
    }
  }

  lemma RespectsAt(log: seq<Marked>, i: nat, pinned: set<Path>)
    requires AllRespect(log, pinned, {}) && i < |log|
    ensures Respects(log[i].undo, pinned, {})
  {
  }

  /** Restoring a replacement a second time does nothing. */
  lemma UndoReplaceTwice(w: World, m: Marked, pinned: set<Path>)
    requires m.undo.ReplaceFile? && Respects(m.undo, pinned, {}) && UndoOne(w, m).Ok?
    ensures UndoOne(UndoOne(w, m).value, m) == UndoOne(w, m)
    ensures forall p :: p in UndoOne(w, m).value.disk ==> p in w.disk
  {
  }

  /** The marker is written once undoing the record again would do nothing. */
  lemma HalfwayMarked(w: World, log: seq<Marked>, k: nat, o: Origin, pinned: set<Path>)
    requires Halfway(w, log, k, o, pinned) && 0 < k && log[k - 1].undo.ReplaceFile?
    requires UndoOne(w, log[k - 1]) == Ok(w)
    ensures Halfway(w, log[k - 1 := log[k - 1].(restored := true)], k - 1, o, pinned)
  {
    hide Restores, Respects, NoClash;
    HalfwayNext(w, log, k, o, pinned);
    var marked := log[k - 1 := log[k - 1].(restored := true)];
    assert marked[..k - 1] == log[..k - 1];
    forall j | k - 1 <= j < |marked| ensures Quiet(w.disk, marked[j]) {
      if k <= j {
        assert Quiet(w.disk, log[j]);
      }
    }
    forall i, j | 0 <= i < j < |marked| ensures NoClash(marked[i].undo, marked[j].undo) {
      assert NoClash(log[i].undo, log[j].undo);
    }
    forall i | 0 <= i < |marked| ensures Respects(marked[i].undo, pinned, {}) {
      assert Respects(log[i].undo, pinned, {});
    }
  }

  // ----- Recovery as a function -----

  datatype RecoverError = Undoing(error: UndoError) | NotStaging

  /** Recovery undoes a record as rollback does, but never deletes a name that is not a staging name. */
  ghost function RecoverOne(w: World, m: Marked): Result<World, RecoverError> {
    if m.undo.RemovePath? && !IsStagingName(m.undo.from) then Err(NotStaging)
    else
      match UndoOne(w, m)
      case Ok(after) => Ok(after)
      case Err(e) => Err(Undoing(e))
  }

  ghost function RecoverAll(w: World, log: seq<Marked>): Result<World, RecoverError>
    decreases |log|
  {
    if log == [] then Ok(w)
    else
      var r := RecoverOne(w, log[|log| - 1]);
      if r.Err? then r else RecoverAll(r.value, log[..|log| - 1])
  }

  /** How many records a replay really undoes; the others find nothing left to do. */
  function UndoneCount(w: World, log: seq<Marked>): nat
    decreases |log|
  {
    if log == [] then 0
    else
      var r := UndoOne(w, log[|log| - 1]);
      if r.Err? then 0 else (if r.value == w then 0 else 1) + UndoneCount(r.value, log[..|log| - 1])
  }

  lemma {:induction false} RecoverIsUndo(w: World, log: seq<Marked>, temps: iset<Path>, serial: nat)
    requires RemovesStagingOnly(log, temps) && temps == TempsFrom(serial)
    ensures UndoAll(w, log).Ok? ==> RecoverAll(w, log) == Ok(UndoAll(w, log).value)
    ensures UndoAll(w, log).Err? ==> RecoverAll(w, log) == Err(Undoing(UndoAll(w, log).error))
    decreases |log|
  {
    hide TempsFrom, UndoOne, IsStagingName;
    if log != [] {
      var m := log[|log| - 1];
      var front := log[..|log| - 1];
      if m.undo.RemovePath? {
        TempIsStaging(m.undo.from, serial);
      }
      forall i | 0 <= i < |front| && front[i].undo.RemovePath? ensures front[i].undo.from in temps {
        assert front[i] == log[i];
      }
      if UndoOne(w, m).Ok? {
        RecoverIsUndo(UndoOne(w, m).value, front, temps, serial);
      }
    }
  }

  /** Every log a run leaves behind that recovery can start from. */
  ghost predicate Recoverable(w: World, log: seq<Marked>, o: Origin) {
    && Restores(w, log, o.initial, Temps(o))
    && AllRespect(log, Pins(log), {})
    && RemovesStagingOnly(log, Temps(o))
    && Acceptable(log)
  }

  /** The witness files that the replacement records of a log depend on. */
  ghost function Pins(log: seq<Marked>): set<Path> {
    (set i | 0 <= i < |log| && log[i].undo.ReplaceFile? :: log[i].undo.from) +
    (set i | 0 <= i < |log| && log[i].undo.ReplaceFile? :: log[i].undo.newWitness)
  }

  ghost predicate SameUndos(a: seq<Marked>, b: seq<Marked>) {
    |a| == |b| && forall i :: 0 <= i < |a| ==> a[i].undo == b[i].undo
  }

  /** Halfway through the recovery of a log that a run has left behind. */
  ghost predicate Recovering(w: World, log: seq<Marked>, k: nat, o: Origin, pinned: set<Path>) {
    Halfway(w, log, k, o, pinned) && pinned == Pins(log) && RemovesStagingOnly(log, Temps(o)) && Acceptable(log)
  }

  /** A recovery cut short anywhere can be started again. */
  lemma RecoveringIsRecoverable(w: World, log: seq<Marked>, k: nat, o: Origin, pinned: set<Path>)
    requires Recovering(w, log, k, o, pinned)
    ensures Recoverable(w, log, o) && Reentrant(log)
  {
    hide Restores, AllRespect, Pins, Acceptable, RemovesStagingOnly, Reentrant;
    HalfwayRestores(w, log, k, o, pinned);
  }

  lemma RecoveringStart(w: World, log: seq<Marked>, o: Origin)
    requires Recoverable(w, log, o) && Reentrant(log)
    ensures Recovering(w, log, |log|, o, Pins(log))
  {
    HalfwayStart(w, log, o, Pins(log));
  }

  lemma StagingOfReplacement(log: seq<Marked>, i: nat, temps: iset<Path>)
    requires i < |log| && log[i].undo.ReplaceFile? && Acceptable(log) && RemovesStagingOnly(log, temps)
    ensures log[i].undo.staging in temps
  {
    var u := log[i].undo;
    assert AcceptableNext(log[..i], u);
    assert HasRemoval(log[..i], u.staging);
    var j :| 0 <= j < i && log[..i][j].undo == RemovePath(u.staging);
    assert log[j].undo == RemovePath(u.staging);
  }

  lemma MarkingKeepsForm(log: seq<Marked>, i: nat, temps: iset<Path>)
    requires i < |log| && Acceptable(log) && RemovesStagingOnly(log, temps)
    ensures var after := log[i := log[i].(restored := true)];
      Pins(after) == Pins(log) && RemovesStagingOnly(after, temps) && Acceptable(after)
  {
    hide Acceptable, AcceptableNext;
    var after := log[i := log[i].(restored := true)];
    SameUndosForm(log, after, temps);
  }

  /** A record that has been undone, or needs no undoing, is one step further. */
  lemma RecoveringStep(w: World, log: seq<Marked>, k: nat, o: Origin, pinned: set<Path>)
    requires Recovering(w, log, k, o, pinned) && 0 < k <= |log|
    requires log[k - 1].undo.ReplaceFile? ==> log[k - 1].restored
    ensures UndoOne(w, log[k - 1]).Ok? && Recovering(UndoOne(w, log[k - 1]).value, log, k - 1, o, pinned)
  {
    hide Halfway, Acceptable, RemovesStagingOnly, Pins, UndoOne;
    HalfwayStep(w, log, k, o, pinned);
  }

  /** A restored replacement has its marker written. */
  lemma RecoveringMarked(before: World, after: World, log: seq<Marked>, k: nat, o: Origin, pinned: set<Path>)
    requires Recovering(after, log, k, o, pinned) && 0 < k <= |log| && log[k - 1].undo.ReplaceFile?
    requires UndoOne(before, log[k - 1]) == Ok(after)
    ensures Recovering(after, log[k - 1 := log[k - 1].(restored := true)], k - 1, o, pinned)
    ensures Pins(log[k - 1 := log[k - 1].(restored := true)]) == pinned
  {
    hide Acceptable, RemovesStagingOnly, Pins, UndoOne, Restores, Reentrant, QuietFrom;
    RespectsAt(log, k - 1, pinned);
    UndoReplaceTwice(before, log[k - 1], pinned);
    HalfwayMarked(after, log, k, o, pinned);
    MarkingKeepsForm(log, k - 1, Temps(o));
  }

  lemma SameUndosForm(a: seq<Marked>, b: seq<Marked>, temps: iset<Path>)
    requires SameUndos(a, b) && Acceptable(a) && RemovesStagingOnly(a, temps)
    ensures Pins(b) == Pins(a) && RemovesStagingOnly(b, temps) && Acceptable(b)
  {
    hide AllAbsolute, ValidStamp, IsStagingName;
    SamePins(a, b);
    SamePins(b, a);
    forall i | 0 <= i < |b| ensures AcceptableNext(b[..i], b[i].undo) {
      assert AcceptableNext(a[..i], a[i].undo);
      if b[i].undo.ReplaceFile? {
        SamePrior(a[..i], b[..i], b[i].undo);
      }
    }
  }

  lemma SamePins(a: seq<Marked>, b: seq<Marked>)
    requires SameUndos(a, b)
    ensures Pins(a) <= Pins(b)
  {
    forall p | p in Pins(a) ensures p in Pins(b) {
      var i :| 0 <= i < |a| && a[i].undo.ReplaceFile? && (a[i].undo.from == p || a[i].undo.newWitness == p);
      assert b[i].undo == a[i].undo;
    }
  }

  lemma SamePrior(a: seq<Marked>, b: seq<Marked>, u: Undo)
    requires SameUndos(a, b) && u.ReplaceFile? && WitnessReferences(a, u)
    ensures WitnessReferences(b, u)
  {
    hide ValidStamp, IsStagingName;
    forall p | p in {u.from, u.newWitness, u.staging} ensures IsStagingName(p) && HasRemoval(b, p) {
      assert HasRemoval(a, p);
      var i :| 0 <= i < |a| && a[i].undo == RemovePath(p);
      assert b[i].undo == RemovePath(p);
    }
    forall i | 0 <= i < |b| && b[i].undo.ReplaceFile? ensures b[i].undo.from != u.from {
      assert a[i].undo == b[i].undo;
    }
  }

  lemma SameUndosNext(a: seq<Marked>, b: seq<Marked>, u: Undo)
    requires SameUndos(a, b) && AcceptableNext(a, u)
    ensures AcceptableNext(b, u)
  {
    hide WitnessReferences, AllAbsolute;
    if u.ReplaceFile? {
      SamePrior(a, b, u);
    }
  }

  // ----- Markers -----

  /** The first replacement record with this witness, which is the one a RESTORED line refers to. */
  function FindReplacement(log: seq<Marked>, from: Path): Option<nat> {
    FindReplacementFrom(log, from, 0)
  }

  function FindReplacementFrom(log: seq<Marked>, from: Path, i: nat): (r: Option<nat>)
    requires i <= |log|
    ensures r.Some? ==> i <= r.value < |log| && log[r.value].undo.ReplaceFile? && log[r.value].undo.from == from
    ensures r.Some? ==> forall j :: i <= j < r.value && log[j].undo.ReplaceFile? ==> log[j].undo.from != from
    ensures r.None? ==> forall j :: i <= j < |log| && log[j].undo.ReplaceFile? ==> log[j].undo.from != from
    decreases |log| - i
  {
    if i == |log| then None
    else if log[i].undo.ReplaceFile? && log[i].undo.from == from then Some(i)
    else FindReplacementFrom(log, from, i + 1)
  }

  /** In an acceptable log a marker finds the record it is meant for. */
  lemma MarkerFindsItsRecord(log: seq<Marked>, i: nat)
    requires Acceptable(log) && i < |log| && log[i].undo.ReplaceFile?
    ensures FindReplacement(log, log[i].undo.from) == Some(i)
  {
    hide ValidStamp, IsStagingName, HasRemoval;
    var from := log[i].undo.from;
    assert AcceptableNext(log[..i], log[i].undo);
    forall j | 0 <= j < i && log[j].undo.ReplaceFile? ensures log[j].undo.from != from {
      assert log[..i][j] == log[j];
    }
  }

  lemma MarkerFindsItsRecordIf(log: seq<Marked>, i: nat)
    requires Acceptable(log) && i < |log|
    ensures log[i].undo.ReplaceFile? ==> FindReplacement(log, log[i].undo.from) == Some(i)
  {
    hide Acceptable, FindReplacement;
    if log[i].undo.ReplaceFile? {
      MarkerFindsItsRecord(log, i);
    }
  }

  // ----- Replaying a finished recovery -----

  lemma UndoOneTime(w: World, m: Marked)
    ensures UndoOne(w, m).Ok? ==> w.clock <= UndoOne(w, m).value.clock
    ensures UndoOne(w, m).Ok? && UndoOne(w, m).value.clock == w.clock ==> UndoOne(w, m).value == w
  {
  }

  lemma {:induction false} UndoAllTime(w: World, log: seq<Marked>)
    ensures UndoAll(w, log).Ok? ==> w.clock <= UndoAll(w, log).value.clock
    ensures UndoAll(w, log).Ok? && UndoAll(w, log).value.clock == w.clock ==> UndoAll(w, log).value == w
    ensures UndoAll(w, log) == Ok(w) ==> forall i :: 0 <= i < |log| ==> UndoOne(w, log[i]) == Ok(w)
    decreases |log|
  {
    hide UndoOne;
    if log != [] {
      var m := log[|log| - 1];
      var front := log[..|log| - 1];
      UndoOneTime(w, m);
      if UndoOne(w, m).Ok? {
        UndoAllTime(UndoOne(w, m).value, front);
      }
      if UndoAll(w, log) == Ok(w) {
        assert UndoOne(w, m) == Ok(w);
        forall i | 0 <= i < |log| ensures UndoOne(w, log[i]) == Ok(w) {
          if i < |front| {
            assert front[i] == log[i];
          }
        }
      }
    }
  }

  /** Exactly when a journal may be replayed once more after its recovery is complete and every
      replacement is marked: when nothing is left at any path its removals and moves start from. */
  lemma ReplayHarmlessIff(w: World, log: seq<Marked>)
    requires forall i :: 0 <= i < |log| && log[i].undo.ReplaceFile? ==> log[i].restored
    ensures UndoAll(w, log) == Ok(w) <==>
      forall i :: 0 <= i < |log| && !log[i].undo.ReplaceFile? ==> log[i].undo.from !in w.disk
  {
    if UndoAll(w, log) == Ok(w) {
      UndoAllTime(w, log);
      forall i | 0 <= i < |log| && !log[i].undo.ReplaceFile? ensures log[i].undo.from !in w.disk {
        assert UndoOne(w, log[i]) == Ok(w);
      }
    }
    if forall i :: 0 <= i < |log| && !log[i].undo.ReplaceFile? ==> log[i].undo.from !in w.disk {
      QuietTail(w, log, 0);
      assert log[..0] == [];
    }
  }

  /** The log of a copy over an existing file. */
  function CopyLog(dst: Path, backup: Path, temp: Path): seq<Marked> {
    [Marked(RemovePath(temp)), Marked(MovePath(backup, dst)), Marked(MovePath(dst, temp))]
  }

  lemma CopyReplayOnce(w: World, dst: Path, backup: Path, temp: Path)
    ensures UndoAll(w, CopyLog(dst, backup, temp)) ==
      var a := UndoOne(w, Marked(MovePath(dst, temp)));
      if a.Err? then a
      else
        var b := UndoOne(a.value, Marked(MovePath(backup, dst)));
        if b.Err? then b else UndoOne(b.value, Marked(RemovePath(temp)))
  {
    hide UndoOne;
    var remove, restore, retract := Marked(RemovePath(temp)), Marked(MovePath(backup, dst)),
      Marked(MovePath(dst, temp));
    assert CopyLog(dst, backup, temp) == [remove, restore] + [retract];
    UndoAllSnoc(w, [remove, restore], retract);
    var a := UndoOne(w, retract);
    if a.Ok? {
      assert [remove, restore] == [remove] + [restore];
      UndoAllSnoc(a.value, [remove], restore);
      var b := UndoOne(a.value, restore);
      if b.Ok? {
        assert [remove] == [] + [remove];
        UndoAllSnoc(b.value, [], remove);
      }
    }
  }

  /** The first recovery of a finished copy puts the old file back. */
  lemma CopyReplayRestores(w: World, dst: Path, backup: Path, temp: Path)
    requires dst != backup && backup != temp && temp != dst
    requires dst in w.disk && w.disk[dst].regular && backup in w.disk && temp !in w.disk
    ensures var first := UndoAll(w, CopyLog(dst, backup, temp));
      && first.Ok? && dst in first.value.disk && backup !in first.value.disk && temp !in first.value.disk
      && first.value.disk[dst].data == w.disk[backup].data && first.value.disk[dst].regular == w.disk[backup].regular
  {
    hide StampAt, UndoAll;
    CopyReplayOnce(w, dst, backup, temp);
  }

  /** Replaying the journal of a copy over an existing file once more, after its recovery is complete,
      reports success and the file is gone: neither the old nor the new contents are left. */
  lemma CopyReplayLosesFile(w: World, dst: Path, backup: Path, temp: Path)
    requires dst != backup && backup != temp && temp != dst
    requires dst in w.disk && w.disk[dst].regular && backup in w.disk && w.disk[backup].regular && temp !in w.disk
    ensures var first := UndoAll(w, CopyLog(dst, backup, temp));
      first.Ok? &&
      var second := UndoAll(first.value, CopyLog(dst, backup, temp));
      second.Ok? && dst !in second.value.disk && backup !in second.value.disk && temp !in second.value.disk
  {
    hide StampAt, UndoAll;
    CopyReplayRestores(w, dst, backup, temp);
    var first := UndoAll(w, CopyLog(dst, backup, temp)).value;
    CopyReplayOnce(first, dst, backup, temp);
  }

  lemma CopyLogNotReentrant(dst: Path, backup: Path, temp: Path)
    ensures !Reentrant(CopyLog(dst, backup, temp))
  {
    var log := CopyLog(dst, backup, temp);
    assert !NoClash(log[1].undo, log[2].undo);
  }
}
