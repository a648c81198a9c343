/** When an undo log may be replayed from an arbitrary disk: every file is followed by itself through
    the log, and the replay succeeds and restores exactly if no two files get into each other's way
    and the files end up where the initial disk has them. */
module FsxRestart {
  import opened FsxNames
  import opened FsxReplay
  import opened FsxSound
  import opened FsxStore
  import opened FsxUndo
  import opened Text

  // ----- Following a single file -----

  /** Where a file is after some records have been undone, and what it holds. */
  datatype Fate = Gone | Rests(path: Path, regular: bool, data: string)

  /** What undoing a record means for a single file.  `start` is the disk the replay begins with. */
  function FateStep(start: Disk, m: Marked, f: Fate): Fate {
    if f.Gone? then Gone
    else
      match m.undo
      case RemovePath(from) => if f.path == from then Gone else f
      case MovePath(from, to) => if f.path == from then f.(path := to) else f
      case ReplaceFile(from, to, _, _, _, _) =>
        if !m.restored && f.path == to && from in start then f.(data := start[from].data) else f
  }

  /** Follows one file through the undoing of a log, newest record first, without regard to others. */
  function FateOf(start: Disk, log: seq<Marked>, f: Fate): Fate
    decreases |log|
  {
    if log == [] then f else FateOf(start, log[..|log| - 1], FateStep(start, log[|log| - 1], f))
  }

  /** The files on a disk, except those under `loose` names. */
  function FilesOn(disk: Disk, loose: set<Path>): set<Fate> {
    set p | p in disk && p !in loose :: Rests(p, disk[p].regular, disk[p].data)
  }

  /** The files of a set that are still there after a log has been undone. */
  function Followed(start: Disk, files: set<Fate>, log: seq<Marked>): set<Fate> {
    set f | f in files && FateOf(start, log, f).Rests? :: FateOf(start, log, f)
  }

  predicate Occupied(files: set<Fate>, p: Path) {
    exists f :: f in files && f.Rests? && f.path == p
  }

  /** A regular file at this path that holds one of these contents. */
  predicate IsTarget(f: Fate, path: Path, contents: set<string>) {
    f.Rests? && f.path == path && f.regular && f.data in contents
  }

  // ----- The guards -----

  /** The tests the code makes before it undoes a record, put to the files as they then are: a removal
      meets no filled directory, a move does not meet a file at both ends, and a replacement that has
      no marker finds both its witnesses and, at its target, what it had put there or the old contents. */
  predicate Allowed(start: Disk, files: set<Fate>, m: Marked) {
    match m.undo
    case RemovePath(from) => forall f :: f in files && f.Rests? && f.path == from ==> f.regular || f.data == ""
    case MovePath(from, to) => !(Occupied(files, from) && Occupied(files, to))
    case ReplaceFile(from, to, newWitness, _, oldStamp, newStamp) =>
      m.restored ||
      (&& HasStamp(start, from, oldStamp) && HasStamp(start, newWitness, newStamp)
       && Occupied(files, from) && Occupied(files, newWitness)
       && exists f :: f in files && IsTarget(f, to, {start[from].data, start[newWitness].data}))
  }

  /** No record of the log is refused, given where the records after it have left each file. */
  ghost predicate NothingInTheWay(start: Disk, files: set<Fate>, log: seq<Marked>) {
    forall j :: 0 <= j < |log| ==> Allowed(start, Followed(start, files, log[j + 1..]), log[j])
  }

  /** The files outside `temps` are those of the initial disk. */
  ghost predicate EndAs(files: set<Fate>, initial: Disk, temps: iset<Path>) {
    && (forall f :: f in files && f.Rests? && f.path !in temps ==>
          f.path in initial && initial[f.path].regular == f.regular && initial[f.path].data == f.data)
    && (forall p :: p in initial && p !in temps ==> Occupied(files, p))
  }

  // ----- One record -----

  /** The restore staging names of the replacements that are still unmarked. */
  function Loose(log: seq<Marked>): set<Path> {
    set i | 0 <= i < |log| && log[i].undo.ReplaceFile? && !log[i].restored :: log[i].undo.staging
  }

  /** The record works on loose names only as staging. */
  ghost predicate KeepsOff(m: Marked, loose: set<Path>) {
    match m.undo
    case RemovePath(_) => true
    case MovePath(from, to) => from !in loose && to !in loose
    case ReplaceFile(from, to, newWitness, staging, _, _) =>
      m.restored || (staging in loose && to !in loose && from !in loose && newWitness !in loose)
  }

  ghost predicate RegularAt(disk: Disk, loose: set<Path>) {
    forall p :: p in loose && p in disk ==> disk[p].regular
  }

  /** What is left of the pinned files is as it was. */
  ghost predicate PinsKept(start: Disk, disk: Disk, pinned: set<Path>) {
    forall p :: p in pinned && p in disk ==> p in start && disk[p] == start[p]
  }

  /** The file at a path, as a fate. */
  function FileAt(disk: Disk, p: Path): Fate
    requires p in disk
  {
    Rests(p, disk[p].regular, disk[p].data)
  }

  lemma FilesOnHas(disk: Disk, loose: set<Path>)
    ensures forall f :: f in FilesOn(disk, loose) <==>
      f.Rests? && f.path in disk && f.path !in loose && f == FileAt(disk, f.path)
    ensures forall p :: p !in loose ==> (Occupied(FilesOn(disk, loose), p) <==> p in disk)
  {
    forall p | p !in loose && p in disk ensures Occupied(FilesOn(disk, loose), p) {
      assert FileAt(disk, p) in FilesOn(disk, loose);
    }
  }

  lemma FollowedOne(start: Disk, files: set<Fate>, m: Marked)
    ensures Followed(start, files, [m]) == set f | f in files && FateStep(start, m, f).Rests? :: FateStep(start, m, f)
  {
    forall f ensures FateOf(start, [m], f) == FateStep(start, m, f) {
      assert [m][..0] == [];
    }
  }

  /** The files after one record has been undone are the old ones, each one step further. */
  ghost predicate OneStep(start: Disk, before: Disk, after: Disk, m: Marked, loose: set<Path>) {
    && (forall p :: p in before && p !in loose ==>
          var f := FateStep(start, m, FileAt(before, p));
          f.Rests? ==> f.path in after && f.path !in loose && f == FileAt(after, f.path))
    && (forall q :: q in after && q !in loose ==>
          exists p :: p in before && p !in loose && FateStep(start, m, FileAt(before, p)) == FileAt(after, q))
  }

  lemma OneStepFollows(start: Disk, before: Disk, after: Disk, m: Marked, loose: set<Path>)
    requires OneStep(start, before, after, m, loose)
    ensures FilesOn(after, loose) == Followed(start, FilesOn(before, loose), [m])
  {
    hide FateStep;
    FollowedOne(start, FilesOn(before, loose), m);
    FilesOnHas(before, loose);
    FilesOnHas(after, loose);
    forall f | f in FilesOn(after, loose) ensures f in Followed(start, FilesOn(before, loose), [m]) {
      var p :| p in before && p !in loose && FateStep(start, m, FileAt(before, p)) == FileAt(after, f.path);
      assert FileAt(before, p) in FilesOn(before, loose);
    }
  }

  /** What undoing one record keeps of the pinned and the loose files. */
  ghost predicate Keeps(start: Disk, disk: Disk, pinned: set<Path>, loose: set<Path>) {
    PinsKept(start, disk, pinned) && RegularAt(disk, loose)
  }

  lemma StepFollows(start: Disk, w: World, m: Marked, pinned: set<Path>, loose: set<Path>)
    requires Keeps(start, w.disk, pinned, loose)
    requires Respects(m.undo, pinned, {}) && KeepsOff(m, loose)
    ensures UndoOne(w, m).Ok? <==> Allowed(start, FilesOn(w.disk, loose), m)
    ensures UndoOne(w, m).Ok? ==>
      var after := UndoOne(w, m).value.disk;
      Keeps(start, after, pinned, loose) && FilesOn(after, loose) == Followed(start, FilesOn(w.disk, loose), [m])
  {
    hide StampAt, FilesOn, Followed, OneStep, Keeps, FateStep;
    match m.undo
    case RemovePath(from) =>
      RemovalGuard(start, w, m, pinned, loose);
      if UndoOne(w, m).Ok? {
        if from in w.disk { StepRemoves(start, w, m, pinned, loose); } else { StepIsQuiet(start, w, m, loose); }
        OneStepFollows(start, w.disk, UndoOne(w, m).value.disk, m, loose);
      }
    case MovePath(from, to) =>
      FilesOnHas(w.disk, loose);
      if UndoOne(w, m).Ok? {
        if from in w.disk { StepMoves(start, w, m, pinned, loose); } else { StepIsQuiet(start, w, m, loose); }
        OneStepFollows(start, w.disk, UndoOne(w, m).value.disk, m, loose);
      }
    case ReplaceFile(from, to, newWitness, staging, _, _) =>
      if m.restored {
        StepIsQuiet(start, w, m, loose);
        OneStepFollows(start, w.disk, w.disk, m, loose);
      } else {
        ReplacementGuard(start, w, m, pinned, loose);
        if UndoOne(w, m).Ok? {
          StepReplaces(start, w, m, pinned, loose);
          OneStepFollows(start, w.disk, UndoOne(w, m).value.disk, m, loose);
        }
      }
  }

  /** A record that finds nothing to undo. */
  lemma StepIsQuiet(start: Disk, w: World, m: Marked, loose: set<Path>)
    requires Quiet(w.disk, m)
    ensures OneStep(start, w.disk, w.disk, m, loose)
  {
    forall p | p in w.disk ensures FateStep(start, m, FileAt(w.disk, p)) == FileAt(w.disk, p) {}
  }

  lemma RemovalGuard(start: Disk, w: World, m: Marked, pinned: set<Path>, loose: set<Path>)
    requires m.undo.RemovePath? && Keeps(start, w.disk, pinned, loose)
    ensures UndoOne(w, m).Ok? <==> Allowed(start, FilesOn(w.disk, loose), m)
  {
    hide FilesOn, PinsKept;
    FilesOnHas(w.disk, loose);
    var from := m.undo.from;
    if from in w.disk && from !in loose {
      assert FileAt(w.disk, from) in FilesOn(w.disk, loose);
    }
  }

  lemma ReplacementGuard(start: Disk, w: World, m: Marked, pinned: set<Path>, loose: set<Path>)
    requires m.undo.ReplaceFile? && !m.restored && Keeps(start, w.disk, pinned, loose)
    requires Respects(m.undo, pinned, {}) && KeepsOff(m, loose)
    ensures UndoOne(w, m).Ok? <==> Allowed(start, FilesOn(w.disk, loose), m)
  {
    hide FilesOn, StampAt, Renamed, Stored;
    FilesOnHas(w.disk, loose);
    var u := m.undo;
    if u.to in w.disk {
      assert FileAt(w.disk, u.to) in FilesOn(w.disk, loose);
    }
    assert u.staging in w.disk ==> w.disk[u.staging].regular;
    assert u.from in w.disk ==> u.from in start && w.disk[u.from] == start[u.from];
    assert u.newWitness in w.disk ==> u.newWitness in start && w.disk[u.newWitness] == start[u.newWitness];
  }

  lemma StepRemoves(start: Disk, w: World, m: Marked, pinned: set<Path>, loose: set<Path>)
    requires m.undo.RemovePath? && m.undo.from in w.disk && Keeps(start, w.disk, pinned, loose)
    ensures Keeps(start, Removed(w, m.undo.from).disk, pinned, loose)
    ensures OneStep(start, w.disk, Removed(w, m.undo.from).disk, m, loose)
  {
    var after := Removed(w, m.undo.from).disk;
    forall q | q in after ensures FateStep(start, m, FileAt(w.disk, q)) == FileAt(after, q) {}
  }

  lemma StepMoves(start: Disk, w: World, m: Marked, pinned: set<Path>, loose: set<Path>)
    requires m.undo.MovePath? && m.undo.from in w.disk && m.undo.to !in w.disk && Keeps(start, w.disk, pinned, loose)
    requires Respects(m.undo, pinned, {}) && KeepsOff(m, loose)
    ensures Keeps(start, Renamed(w, m.undo.from, m.undo.to).disk, pinned, loose)
    ensures OneStep(start, w.disk, Renamed(w, m.undo.from, m.undo.to).disk, m, loose)
  {
    hide StampAt;
    var from, to := m.undo.from, m.undo.to;
    var after := Renamed(w, from, to).disk;
    assert FateStep(start, m, FileAt(w.disk, from)) == FileAt(after, to);
    forall q | q in after && q != to
      ensures q in w.disk && q != from && FateStep(start, m, FileAt(w.disk, q)) == FileAt(after, q)
    {}
  }

  lemma StepReplaces(start: Disk, w: World, m: Marked, pinned: set<Path>, loose: set<Path>)
    requires m.undo.ReplaceFile? && !m.restored && Keeps(start, w.disk, pinned, loose)
    requires Respects(m.undo, pinned, {}) && KeepsOff(m, loose) && UndoOne(w, m).Ok?
    ensures Keeps(start, UndoOne(w, m).value.disk, pinned, loose)
    ensures OneStep(start, w.disk, UndoOne(w, m).value.disk, m, loose)
  {
    hide StampAt;
    var u := m.undo;
    var after := UndoOne(w, m).value.disk;
    assert w.disk[u.from] == start[u.from];
    assert FateStep(start, m, FileAt(w.disk, u.to)) == FileAt(after, u.to);
    forall q | q !in loose && q != u.to
      ensures (q in after <==> q in w.disk) && (q in after ==> after[q] == w.disk[q])
    {}
    forall q | q in after && q !in loose && q != u.to
      ensures FateStep(start, m, FileAt(w.disk, q)) == FileAt(after, q)
    {}
  }

  // ----- A whole log -----

  ghost predicate AllKeepOff(log: seq<Marked>, loose: set<Path>) {
    forall i :: 0 <= i < |log| ==> KeepsOff(log[i], loose)
  }

  lemma FollowedTwice(start: Disk, files: set<Fate>, log: seq<Marked>, m: Marked)
    ensures Followed(start, files, log + [m]) == Followed(start, Followed(start, files, [m]), log)
  {
    hide FateStep;
    FollowedOne(start, files, m);
    assert (log + [m])[..|log|] == log;
    forall f ensures FateOf(start, log + [m], f) == FateOf(start, log, FateStep(start, m, f)) {}
    GoneStaysGone(start, log);
    forall f | f in Followed(start, files, log + [m]) ensures f in Followed(start, Followed(start, files, [m]), log) {
      var g :| g in files && FateOf(start, log + [m], g) == f;
      assert FateStep(start, m, g) in Followed(start, files, [m]);
    }
  }

  lemma {:induction false} GoneStaysGone(start: Disk, log: seq<Marked>)
    ensures FateOf(start, log, Gone) == Gone
  {
    if log != [] {
      GoneStaysGone(start, log[..|log| - 1]);
    }
  }

  lemma FreeWay(start: Disk, files: set<Fate>)
    ensures NothingInTheWay(start, files, [])
  {
  }

  lemma WaySnoc(start: Disk, files: set<Fate>, log: seq<Marked>, m: Marked)
    requires forall f :: f in files ==> f.Rests?
    ensures NothingInTheWay(start, files, log + [m]) <==>
      Allowed(start, files, m) && NothingInTheWay(start, Followed(start, files, [m]), log)
  {
    hide Allowed, Followed;
    var more := log + [m];
    assert more[|log| + 1..] == [] && more[|log|] == m;
    FollowedNothing(start, files);
    forall j | 0 <= j < |log|
      ensures more[j] == log[j] && Followed(start, files, more[j + 1..]) ==
        Followed(start, Followed(start, files, [m]), log[j + 1..])
    {
      assert more[j + 1..] == log[j + 1..] + [m];
      FollowedTwice(start, files, log[j + 1..], m);
    }
  }

  /** Replaying a log is following each file by itself, as long as no record is refused. */
  lemma {:induction false} ReplayFollows(start: Disk, w: World, log: seq<Marked>, pinned: set<Path>, loose: set<Path>)
    requires Keeps(start, w.disk, pinned, loose)
    requires AllRespect(log, pinned, {}) && AllKeepOff(log, loose)
    ensures UndoAll(w, log).Ok? <==> NothingInTheWay(start, FilesOn(w.disk, loose), log)
    ensures UndoAll(w, log).Ok? ==>
      FilesOn(UndoAll(w, log).value.disk, loose) == Followed(start, FilesOn(w.disk, loose), log)
    decreases |log|
  {
    hide Respects, KeepsOff, UndoOne, Allowed, Followed, FilesOn, Keeps, NothingInTheWay;
    FilesOnHas(w.disk, loose);
    var files := FilesOn(w.disk, loose);
    if log == [] {
      FollowedNothing(start, files);
      FreeWay(start, files);
    } else {
      var m := log[|log| - 1];
      var front := log[..|log| - 1];
      assert log == front + [m];
      StepFollows(start, w, m, pinned, loose);
      WaySnoc(start, files, front, m);
      FollowedTwice(start, files, front, m);
      if UndoOne(w, m).Ok? {
        ReplayFollows(start, UndoOne(w, m).value, front, pinned, loose);
      }
    }
  }

  lemma FollowedNothing(start: Disk, files: set<Fate>)
    requires forall f :: f in files ==> f.Rests?
    ensures Followed(start, files, []) == files
  {
  }

  // ----- The condition -----

  /** The form of every log of a run. */
  ghost predicate LogForm(log: seq<Marked>, o: Origin) {
    AllRespect(log, Pins(log), {}) && RemovesStagingOnly(log, Temps(o)) && Acceptable(log) && Apart(log)
  }

  /** All restore staging names of a log. */
  function Stagings(log: seq<Marked>): set<Path> {
    set i | 0 <= i < |log| && log[i].undo.ReplaceFile? :: log[i].undo.staging
  }

  /** What of that form a replay depends on. */
  ghost predicate ReplayForm(log: seq<Marked>, temps: iset<Path>) {
    && AllRespect(log, Pins(log), {}) && Apart(log)
    && (forall i :: 0 <= i < |log| && log[i].undo.ReplaceFile? ==> log[i].undo.staging in temps)
  }

  lemma LogFormReplays(log: seq<Marked>, o: Origin)
    requires LogForm(log, o)
    ensures ReplayForm(log, Temps(o))
  {
    hide TempsFrom, Acceptable, AllRespect, Apart, Pins;
    forall i | 0 <= i < |log| && log[i].undo.ReplaceFile? ensures log[i].undo.staging in Temps(o) {
      StagingOfReplacement(log, i, Temps(o));
    }
  }

  /** Every file, followed by itself, gets past every record of the log and ends where the initial disk
      has it.  This can be told from the log and the names on the disk. */
  ghost predicate FilesReturn(disk: Disk, log: seq<Marked>, initial: Disk, temps: iset<Path>) {
    var files := FilesOn(disk, Loose(log));
    && NothingInTheWay(disk, files, log)
    && EndAs(Followed(disk, files, log), initial, temps)
  }

  lemma FormKeepsOff(log: seq<Marked>, temps: iset<Path>)
    requires ReplayForm(log, temps)
    ensures AllKeepOff(log, Loose(log))
    ensures Loose(log) <= Stagings(log) && forall p :: p in Stagings(log) ==> p in temps
  {
    forall j | 0 <= j < |log| ensures KeepsOff(log[j], Loose(log)) {
      forall p | p in Loose(log) ensures NotUsedBy(p, log[j]) {
        var i :| 0 <= i < |log| && log[i].undo.ReplaceFile? && !log[i].restored && log[i].undo.staging == p;
        assert Respects(log[i].undo, Pins(log), {}) && Respects(log[j].undo, Pins(log), {});
        assert i != j ==> StagingApart(log[i].undo, log[j].undo);
      }
    }
  }

  predicate NotUsedBy(p: Path, m: Marked) {
    match m.undo
    case RemovePath(_) => true
    case MovePath(from, to) => p != from && p != to
    case ReplaceFile(from, to, newWitness, _, _, _) => p != to && p != from && p != newWitness
  }

  lemma EndAsRestored(disk: Disk, loose: set<Path>, initial: Disk, temps: iset<Path>)
    requires forall p :: p in loose ==> p in temps
    ensures EndAs(FilesOn(disk, loose), initial, temps) <==> SameOutside(disk, initial, temps)
  {
    hide FilesOn;
    FilesOnHas(disk, loose);
    if EndAs(FilesOn(disk, loose), initial, temps) {
      forall p: Path | p !in temps ensures SameAt(disk, initial, p) {
        if p in disk {
          assert FileAt(disk, p) in FilesOn(disk, loose);
        }
      }
    }
    if SameOutside(disk, initial, temps) {
      forall f | f in FilesOn(disk, loose) && f.Rests? && f.path !in temps
        ensures f.path in initial && initial[f.path].regular == f.regular && initial[f.path].data == f.data
      {
        assert SameAt(disk, initial, f.path);
      }
      forall p | p in initial && p !in temps ensures Occupied(FilesOn(disk, loose), p) {
        assert SameAt(disk, initial, p);
      }
    }
  }

  /** Exactly when an undo log may be replayed from a disk, whatever has been undone before. */
  lemma RestartIff(w: World, log: seq<Marked>, initial: Disk, temps: iset<Path>)
    requires ReplayForm(log, temps) && RegularAt(w.disk, Loose(log))
    ensures Restores(w, log, initial, temps) <==> FilesReturn(w.disk, log, initial, temps)
  {
    hide AllRespect, Apart, AllKeepOff, FilesOn, Followed, NothingInTheWay, EndAs, TempsFrom;
    hide SameOutside, UndoAll, Pins;
    hide Loose, Stagings;
    FormKeepsOff(log, temps);
    ReplayFollows(w.disk, w, log, Pins(log), Loose(log));
    if UndoAll(w, log).Ok? {
      EndAsRestored(UndoAll(w, log).value.disk, Loose(log), initial, temps);
    }
  }

  lemma UndoKeepsRegular(w: World, m: Marked, names: set<Path>)
    requires RegularAt(w.disk, names) && UndoOne(w, m).Ok?
    requires m.undo.MovePath? || m.undo.ReplaceFile? ==> m.undo.to !in names
    ensures RegularAt(UndoOne(w, m).value.disk, names)
  {
    hide StampAt;
  }

  lemma FormKeepsStagings(log: seq<Marked>, temps: iset<Path>, i: nat)
    requires ReplayForm(log, temps) && i < |log|
    ensures log[i].undo.MovePath? || log[i].undo.ReplaceFile? ==> log[i].undo.to !in Stagings(log)
  {
    hide Acceptable, RemovesStagingOnly, Pins;
    forall p | p in Stagings(log) ensures !log[i].undo.RemovePath? ==> p != log[i].undo.to {
      var j :| 0 <= j < |log| && log[j].undo.ReplaceFile? && log[j].undo.staging == p;
      assert Respects(log[j].undo, Pins(log), {});
      assert i != j ==> StagingApart(log[j].undo, log[i].undo);
    }
  }

  // ----- Cut short after any number of records -----

  /** The log with every replacement from record k on marked as restored. */
  function MarkedFrom(log: seq<Marked>, k: nat): (marked: seq<Marked>)
    ensures SameUndos(log, marked)
  {
    seq(|log|, i requires 0 <= i < |log| =>
      if k <= i && log[i].undo.ReplaceFile? then log[i].(restored := true) else log[i])
  }

  lemma SameUndosReplayForm(a: seq<Marked>, b: seq<Marked>, temps: iset<Path>)
    requires SameUndos(a, b) && ReplayForm(a, temps)
    ensures ReplayForm(b, temps) && Stagings(b) == Stagings(a)
  {
    hide Pins, Respects, StagingApart;
    SamePins(a, b);
    SamePins(b, a);
    assert Pins(a) == Pins(b);
    forall i | 0 <= i < |b| ensures Respects(b[i].undo, Pins(b), {}) { assert Respects(a[i].undo, Pins(a), {}); }
    forall i, j | 0 <= i < |b| && 0 <= j < |b| && i != j ensures StagingApart(b[i].undo, b[j].undo) {
      assert StagingApart(a[i].undo, a[j].undo);
    }
    SameStagings(a, b);
    SameStagings(b, a);
  }

  lemma SameUndosLogForm(a: seq<Marked>, b: seq<Marked>, o: Origin)
    requires SameUndos(a, b) && LogForm(a, o)
    ensures LogForm(b, o) && Stagings(b) == Stagings(a)
  {
    hide Acceptable, RemovesStagingOnly, Pins, AllRespect, Apart, SameUndos;
    SameUndosForm(a, b, Temps(o));
    LogFormReplays(a, o);
    SameUndosReplayForm(a, b, Temps(o));
  }

  lemma SameStagings(a: seq<Marked>, b: seq<Marked>)
    requires |a| == |b| && forall i :: 0 <= i < |a| ==> a[i].undo == b[i].undo
    ensures Stagings(a) <= Stagings(b)
  {
    forall p | p in Stagings(a) ensures p in Stagings(b) {
      var i :| 0 <= i < |a| && a[i].undo.ReplaceFile? && a[i].undo.staging == p;
      assert b[i].undo == a[i].undo;
    }
  }

  lemma {:induction false} SuffixKeepsRegular(w: World, log: seq<Marked>, k: nat, n: nat, temps: iset<Path>)
    requires ReplayForm(log, temps) && k <= n <= |log| && RegularAt(w.disk, Stagings(log)) && UndoAll(w, log[k..n]).Ok?
    ensures RegularAt(UndoAll(w, log[k..n]).value.disk, Stagings(log))
    decreases n - k
  {
    hide ReplayForm, RegularAt, UndoOne, Stagings;
    if k < n {
      assert log[k..n] == log[k..n - 1] + [log[n - 1]];
      UndoAllSnoc(w, log[k..n - 1], log[n - 1]);
      FormKeepsStagings(log, temps, n - 1);
      UndoKeepsRegular(w, log[n - 1], Stagings(log));
      SuffixKeepsRegular(UndoOne(w, log[n - 1]).value, log, k, n - 1, temps);
    }
  }

  /** For every k: the records from k on have been undone, those from l on are marked where they can
      be (l is k, or k + 1 if the process died between a restore and its marker), and the log is
      replayed from its newest record.  That restores the initial files exactly if every file, followed
      by itself from where it now is, returns. */
  lemma CutShortIff(w: World, log: seq<Marked>, k: nat, l: nat, initial: Disk, temps: iset<Path>)
    requires ReplayForm(log, temps) && k <= |log| && RegularAt(w.disk, Stagings(log)) && UndoAll(w, log[k..]).Ok?
    ensures var there := UndoAll(w, log[k..]).value;
      Restores(there, MarkedFrom(log, l), initial, temps) <==>
        FilesReturn(there.disk, MarkedFrom(log, l), initial, temps)
  {
    hide ReplayForm, Restores, FilesReturn, UndoAll, Stagings, Loose, MarkedFrom, SameUndos;
    var marked := MarkedFrom(log, l);
    assert log[k..|log|] == log[k..];
    SuffixKeepsRegular(w, log, k, |log|, temps);
    SameUndosReplayForm(log, marked, temps);
    FormKeepsOff(marked, temps);
    RestartIff(UndoAll(w, log[k..]).value, marked, initial, temps);
  }

  // ----- Why a clash is fatal -----

  /** Nothing is ever put at `source`, and only the record that takes it from there puts it at `x`. */
  predicate OnlyFrom(log: seq<Marked>, source: Path, x: Path) {
    forall l :: 0 <= l < |log| && log[l].undo.MovePath? ==>
      log[l].undo.to != source && (log[l].undo.to == x ==> log[l].undo.from == source)
  }

  lemma {:induction false} AbsentStays(w: World, log: seq<Marked>, source: Path, x: Path)
    requires OnlyFrom(log, source, x) && source !in w.disk && x !in w.disk && UndoAll(w, log).Ok?
    ensures x !in UndoAll(w, log).value.disk
    decreases |log|
  {
    hide StampAt;
    if log != [] {
      AbsentStays(UndoOne(w, log[|log| - 1]).value, log[..|log| - 1], source, x);
    }
  }

  lemma {:induction false} TakenIsLost(w: World, log: seq<Marked>, j: nat, source: Path, x: Path)
    requires OnlyFrom(log, source, x) && source !in w.disk && j < |log| && UndoAll(w, log).Ok?
    requires !log[j].undo.ReplaceFile? && log[j].undo.from == x && source != x
    ensures x !in UndoAll(w, log).value.disk
    decreases |log|
  {
    hide StampAt;
    var after := UndoOne(w, log[|log| - 1]).value;
    if j == |log| - 1 {
      AbsentStays(after, log[..j], source, x);
    } else {
      TakenIsLost(after, log[..|log| - 1], j, source, x);
    }
  }

  /** A clash is fatal.  The move of record i has been undone and has brought back x, which the later
      record j takes away: then the next replay either fails or loses x, unless yet another record
      brings x or the source of the move back. */
  lemma BroughtBackIsLost(w: World, log: seq<Marked>, i: nat, j: nat, initial: Disk, temps: iset<Path>)
    requires i < j < |log| && log[i].undo.MovePath? && !log[j].undo.ReplaceFile? && log[i].undo.to == log[j].undo.from
    requires log[i].undo.from !in w.disk && log[i].undo.from != log[i].undo.to
    requires OnlyFrom(log, log[i].undo.from, log[i].undo.to)
    requires log[i].undo.to in initial && log[i].undo.to !in temps
    ensures !NoClash(log[i].undo, log[j].undo)
    ensures !Restores(w, log, initial, temps)
  {
    hide UndoAll, UndoOne;
    var x := log[i].undo.to;
    if UndoAll(w, log).Ok? {
      TakenIsLost(w, log, j, log[i].undo.from, x);
      assert !SameAt(UndoAll(w, log).value.disk, initial, x);
    }
  }

  // ----- Three logs that clash -----

  lemma UndoTwo(w: World, first: Marked, second: Marked)
    ensures UndoAll(w, [first, second]) ==
      if UndoOne(w, second).Err? then UndoOne(w, second) else UndoOne(UndoOne(w, second).value, first)
  {
    hide UndoOne;
    assert [first, second] == [first] + [second] && [first] == [] + [first];
    UndoAllSnoc(w, [first], second);
    if UndoOne(w, second).Ok? {
      UndoAllSnoc(UndoOne(w, second).value, [], first);
    }
  }

  /** Renaming there and back clashes, and yet a finished recovery may be replayed: the file goes
      round and comes home. */
  lemma ThereAndBackReturns(w: World, x: Path, y: Path)
    requires x != y && x in w.disk && y !in w.disk
    ensures var log := [Marked(MovePath(y, x)), Marked(MovePath(x, y))];
      && !Reentrant(log)
      && UndoAll(w, log).Ok? && SameOutside(UndoAll(w, log).value.disk, w.disk, iset{})
  {
    hide StampAt, UndoAll;
    var there, back := Marked(MovePath(y, x)), Marked(MovePath(x, y));
    UndoTwo(w, there, back);
    assert !NoClash([there, back][0].undo, [there, back][1].undo);
  }

  /** Renaming over an existing file: once the old file is back, a replay is refused and loses nothing. */
  lemma RenameOverConflicts(w: World, src: Path, dst: Path, backup: Path)
    requires src in w.disk && dst in w.disk
    ensures UndoAll(w, [Marked(MovePath(backup, dst)), Marked(MovePath(dst, src))]) == Err(DestinationExists)
  {
    UndoTwo(w, Marked(MovePath(backup, dst)), Marked(MovePath(dst, src)));
  }

  /** Two files that a plan exchanges through a free name: replaying the finished recovery succeeds
      and exchanges them once more. */
  lemma ExchangeReplayed(w: World, a: Path, b: Path, free: Path)
    requires a != b && b != free && free != a && a in w.disk && b in w.disk && free !in w.disk
    ensures var log := [Marked(MovePath(free, b)), Marked(MovePath(b, a)), Marked(MovePath(a, free))];
      UndoAll(w, log).Ok? &&
      var after := UndoAll(w, log).value.disk;
      a in after && b in after && free !in after && after[a].data == w.disk[b].data && after[b].data == w.disk[a].data
  {
    hide StampAt, UndoAll;
    var one, two, three := Marked(MovePath(free, b)), Marked(MovePath(b, a)), Marked(MovePath(a, free));
    assert [one, two, three] == [one, two] + [three];
    UndoAllSnoc(w, [one, two], three);
    UndoTwo(UndoOne(w, three).value, one, two);
  }

  // ----- Regular staging names along a run -----

  lemma RegularAfterWrite(before: Disk, after: Disk, temp: Path, names: set<Path>)
    requires RegularAt(before, names) && SameExcept(after, before, {temp}) && (temp in after ==> after[temp].regular)
    ensures RegularAt(after, names)
  {
  }

  lemma StagingsSnoc(log: seq<Marked>, m: Marked)
    ensures Stagings(log + [m]) == if m.undo.ReplaceFile? then Stagings(log) + {m.undo.staging} else Stagings(log)
  {
    var more := log + [m];
    assert more[|log|] == m;
    forall i | 0 <= i < |log| ensures more[i] == log[i] {}
    forall p | p in Stagings(log) ensures p in Stagings(more) {
      var i :| 0 <= i < |log| && log[i].undo.ReplaceFile? && log[i].undo.staging == p;
      assert more[i].undo.staging == p;
    }
  }

  /** A move that a log ends with does not lead to a restore staging name. */
  lemma RegularAfterMove(w: World, log: seq<Marked>, from: Path, to: Path)
    requires RegularAt(w.disk, Stagings(log)) && Apart(log) && from in w.disk
    requires log != [] && log[|log| - 1].undo == MovePath(to, from)
    ensures RegularAt(Renamed(w, from, to).disk, Stagings(log))
  {
    hide StampAt;
    forall p | p in Stagings(log) ensures p != to {
      var i :| 0 <= i < |log| && log[i].undo.ReplaceFile? && log[i].undo.staging == p;
      assert StagingApart(log[i].undo, log[|log| - 1].undo);
    }
  }

  lemma RegularAfterReplace(w: World, log: seq<Marked>, u: Undo, temp: Path, temps: iset<Path>)
    requires RegularAt(w.disk, Stagings(log)) && ReplacesVisible(log, temps) && temp in w.disk
    requires log != [] && log[|log| - 1].undo == u && u.ReplaceFile?
    ensures RegularAt(Renamed(w, temp, u.to).disk, Stagings(log))
  {
    hide StampAt;
    forall p | p in Stagings(log) ensures p in temps {}
  }
}
