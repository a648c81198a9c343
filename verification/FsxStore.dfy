/** The store the batch engine works on: a flat namespace of entries, the undo records it writes
    before each destructive step, and what replaying those records does. */
module FsxStore {
  import opened FsxNames
  import opened Text

  /** A regular file, or an opaque directory tree that is moved and removed as a whole.  The stamp
      stands for the identity, size and times that change whenever the entry is written or renamed. */
  datatype Entry = Entry(regular: bool, data: string, stamp: string)

  type Disk = map<Path, Entry>

  /** The disk and the moment at which the next change will be stamped. */
  datatype World = World(disk: Disk, clock: nat)

  /** Change times are 64-bit counters. */
  const TICKS: nat := 0x1_0000_0000_0000_0000

  /** The seven-field stamp of an entry last changed at this moment. */
  function StampAt(clock: nat): string {
    "1:" + Decimal(clock % TICKS) + ":0:0:0:0:0"
  }

  function Stored(w: World, p: Path, data: string): World {
    World(w.disk[p := Entry(true, data, StampAt(w.clock))], w.clock + 1)
  }

  function Renamed(w: World, from: Path, to: Path): World
    requires from in w.disk
  {
    World((w.disk - {from})[to := w.disk[from].(stamp := StampAt(w.clock))], w.clock + 1)
  }

  function Removed(w: World, p: Path): World {
    World(w.disk - {p}, w.clock + 1)
  }

  lemma RenamedKeys(w: World, from: Path, to: Path)
    requires from in w.disk
    ensures forall p :: p in Renamed(w, from, to).disk <==> (p in w.disk && p != from) || p == to
  {
  }

  // ----- Undo records -----

  datatype Undo =
    | RemovePath(from: Path)
    | MovePath(from: Path, to: Path)
    | ReplaceFile(from: Path, to: Path, newWitness: Path, staging: Path, oldStamp: string, newStamp: string)

  /** An undo record, whether a RESTORED marker has been written for it, and the batch step it
      belongs to (which the journal does not keep). */
  datatype Marked = Marked(undo: Undo, restored: bool := false, step: nat := 0)

  datatype UndoError = NotRemovable | DestinationExists | ReplacementConflict | StagingBlocked

  predicate HasStamp(disk: Disk, p: Path, stamp: string) {
    p in disk && disk[p].regular && disk[p].stamp == stamp
  }

  /** The target still exists and both witnesses are the recorded files. */
  predicate WitnessesIntact(disk: Disk, u: Undo)
    requires u.ReplaceFile?
  {
    u.to in disk && disk[u.to].regular && HasStamp(disk, u.from, u.oldStamp) && HasStamp(disk, u.newWitness, u.newStamp)
  }

  /** A directory that cannot be removed by a plain remove. */
  predicate Unremovable(disk: Disk, p: Path) {
    p in disk && !disk[p].regular && disk[p].data != ""
  }

  function RestoreReplacement(w: World, u: Undo): Result<World, UndoError>
    requires u.ReplaceFile?
  {
    var disk := w.disk;
    if !WitnessesIntact(disk, u) then Err(ReplacementConflict)
    else if disk[u.to].data == disk[u.from].data then Ok(w)
    else if disk[u.to].data != disk[u.newWitness].data then Err(ReplacementConflict)
    else if u.staging in disk && !disk[u.staging].regular then Err(StagingBlocked)
    else Ok(Renamed(Stored(w, u.staging, disk[u.from].data), u.staging, u.to))
  }

  /** Undoing one record. */
  function UndoOne(w: World, m: Marked): Result<World, UndoError> {
    match m.undo
    case RemovePath(from) =>
      if from !in w.disk then Ok(w)
      else if Unremovable(w.disk, from) then Err(NotRemovable)
      else Ok(Removed(w, from))
    case MovePath(from, to) =>
      if from !in w.disk then Ok(w)
      else if to in w.disk then Err(DestinationExists)
      else Ok(Renamed(w, from, to))
    case ReplaceFile(_, _, _, _, _, _) => if m.restored then Ok(w) else RestoreReplacement(w, m.undo)
  }

  /** Undoing a whole log, last record first, stopping at the first error. */
  function UndoAll(w: World, log: seq<Marked>): Result<World, UndoError>
    decreases |log|
  {
    if log == [] then Ok(w)
    else
      var r := UndoOne(w, log[|log| - 1]);
      if r.Err? then r else UndoAll(r.value, log[..|log| - 1])
  }

  // ----- Agreement of disks -----

  /** The very same entries, stamps included, on every path outside `except`. */
  ghost predicate SameExcept(a: Disk, b: Disk, except: set<Path>) {
    forall p: Path :: p !in except ==> (p in a <==> p in b) && (p in a ==> a[p] == b[p])
  }

  /** One path changes, then another. */
  lemma SameExceptBoth(a: Disk, b: Disk, c: Disk, p: Path, q: Path)
    requires SameExcept(b, a, {p}) && SameExcept(c, b, {q}) && p != q
    ensures SameExcept(c, a, {p, q})
    ensures p in b ==> p in c && c[p] == b[p]
  {
  }

  lemma RemovedSame(w: World, p: Path)
    ensures SameExcept(Removed(w, p).disk, w.disk, {p})
  {
  }

  lemma SameExceptAt(a: Disk, b: Disk, except: set<Path>, p: Path)
    requires SameExcept(a, b, except) && p !in except
    ensures p in a <==> p in b
    ensures p in a ==> a[p] == b[p]
  {
  }

  /** Same kind and contents, whatever the stamps. */
  ghost predicate SameAt(a: Disk, b: Disk, p: Path) {
    (p in a <==> p in b) && (p in a ==> a[p].regular == b[p].regular && a[p].data == b[p].data)
  }

  /** Two disks hold the same entries on every path outside `except`. */
  ghost predicate SameOutside(a: Disk, b: Disk, except: iset<Path>) {
    forall p: Path :: p !in except ==> SameAt(a, b, p)
  }

  /** The disks agree, stamps of `pinned` files included, except at loose regular files. */
  ghost predicate Close(a: Disk, b: Disk, pinned: set<Path>, loose: set<Path>) {
    (forall p: Path :: p !in loose ==> SameAt(a, b, p)) &&
    (forall p: Path :: p !in loose && p in pinned && p in a ==> a[p].stamp == b[p].stamp) &&
    (forall p: Path :: p in loose && p in a ==> a[p].regular) &&
    (forall p: Path :: p in loose && p in b ==> b[p].regular)
  }

  /** The record touches the pinned and the loose files only in harmless ways: pinned files are
      read or removed, loose files are removed or used as restore staging. */
  ghost predicate Respects(u: Undo, pinned: set<Path>, loose: set<Path>) {
    match u
    case RemovePath(_) => true
    case MovePath(from, to) => from !in pinned + loose && to !in pinned + loose
    case ReplaceFile(from, to, newWitness, staging, _, _) =>
      from in pinned - loose && newWitness in pinned - loose && to !in pinned + loose && staging !in pinned &&
        staging != to
  }

  ghost predicate AllRespect(log: seq<Marked>, pinned: set<Path>, loose: set<Path>) {
    forall i :: 0 <= i < |log| ==> Respects(log[i].undo, pinned, loose)
  }

  lemma CloseUndoOne(a: World, b: World, m: Marked, pinned: set<Path>, loose: set<Path>)
    requires Close(a.disk, b.disk, pinned, loose) && Respects(m.undo, pinned, loose)
    ensures UndoOne(a, m).Ok? <==> UndoOne(b, m).Ok?
    ensures UndoOne(a, m).Ok? ==> Close(UndoOne(a, m).value.disk, UndoOne(b, m).value.disk, pinned, loose)
  {
    hide StampAt, RestoreReplacement;
    match m.undo
    case RemovePath(from) =>
      assert SameAt(a.disk, b.disk, from) || from in loose;
    case MovePath(from, to) =>
      assert SameAt(a.disk, b.disk, from) && SameAt(a.disk, b.disk, to);
    case ReplaceFile(from, to, newWitness, staging, _, _) =>
      CloseRestore(a, b, m.undo, pinned, loose);
  }

  lemma CloseRestore(a: World, b: World, u: Undo, pinned: set<Path>, loose: set<Path>)
    requires u.ReplaceFile? && Close(a.disk, b.disk, pinned, loose) && Respects(u, pinned, loose)
    ensures RestoreReplacement(a, u).Ok? <==> RestoreReplacement(b, u).Ok?
    ensures RestoreReplacement(a, u).Ok? ==>
      Close(RestoreReplacement(a, u).value.disk, RestoreReplacement(b, u).value.disk, pinned, loose)
  {
    hide StampAt;
    assert SameAt(a.disk, b.disk, u.from) && SameAt(a.disk, b.disk, u.to) && SameAt(a.disk, b.disk, u.newWitness);
    assert SameAt(a.disk, b.disk, u.staging) || u.staging in loose;
  }

  /** Replaying a log from agreeing disks ends in agreeing disks. */
  lemma {:induction false} CloseUndoAll(a: World, b: World, log: seq<Marked>, pinned: set<Path>, loose: set<Path>)
    requires Close(a.disk, b.disk, pinned, loose) && AllRespect(log, pinned, loose)
    ensures UndoAll(a, log).Ok? <==> UndoAll(b, log).Ok?
    ensures UndoAll(a, log).Ok? ==> Close(UndoAll(a, log).value.disk, UndoAll(b, log).value.disk, pinned, loose)
    decreases |log|
  {
    hide UndoOne, Close, Respects;
    if log != [] {
      var m := log[|log| - 1];
      CloseUndoOne(a, b, m, pinned, loose);
      if UndoOne(a, m).Ok? {
        CloseUndoAll(UndoOne(a, m).value, UndoOne(b, m).value, log[..|log| - 1], pinned, loose);
      }
    }
  }
}
