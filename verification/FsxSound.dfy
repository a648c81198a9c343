/** What a running batch keeps true of its undo log, and that every elementary step keeps it. */
module FsxSound {
  import opened FsxNames
  import opened FsxStore
  import opened FsxUndo
  import opened Text

  /** Where a run started: the disk it found and the first serial number it may use for staging. */
  datatype Origin = Origin(initial: Disk, serial: nat)

  ghost function Temps(o: Origin): iset<Path> {
    TempsFrom(o.serial)
  }

  // ----- The form of a log that the journal parser accepts -----

  predicate HasRemoval(log: seq<Marked>, p: Path) {
    exists i :: 0 <= i < |log| && log[i].undo == RemovePath(p)
  }

  lemma HasRemovalSnoc(log: seq<Marked>, m: Marked, p: Path)
    requires HasRemoval(log, p) || m.undo == RemovePath(p)
    ensures HasRemoval(log + [m], p)
  {
    var more := log + [m];
    if HasRemoval(log, p) {
      var i :| 0 <= i < |log| && log[i].undo == RemovePath(p);
      assert more[i].undo == RemovePath(p);
    } else {
      assert more[|log|].undo == RemovePath(p);
    }
  }

  /** Seven decimal fields; the whole stamp is at most 256 bytes. */
  predicate ValidStamp(stamp: string) {
    |stamp| <= 256 && StampFields(stamp, 1, false, true) == Some(7)
  }

  /** Counts the fields of a stamp: `digit` says whether the current field already has a digit,
      `start` whether a minus sign may come next. */
  function StampFields(stamp: string, fields: nat, digit: bool, start: bool): Option<nat> {
    if stamp == "" then (if digit then Some(fields) else None)
    else if stamp[0] == ':' then (if digit then StampFields(stamp[1..], fields + 1, false, true) else None)
    else if IsDigit(stamp[0]) then StampFields(stamp[1..], fields, true, false)
    else if stamp[0] == '-' && start then StampFields(stamp[1..], fields, digit, false)
    else None
  }

  lemma {:induction false} StampDigits(digits: string, rest: string, fields: nat, digit: bool, start: bool)
    requires AllDigits(digits) && digits != ""
    ensures StampFields(digits + rest, fields, digit, start) == StampFields(rest, fields, true, false)
  {
    assert (digits + rest)[1..] == digits[1..] + rest;
    if |digits| == 1 {
      assert digits[1..] + rest == rest;
    } else {
      StampDigits(digits[1..], rest, fields, true, false);
    }
  }

  lemma StampColon(rest: string, fields: nat)
    ensures StampFields(":" + rest, fields, true, false) == StampFields(rest, fields + 1, false, true)
  {
    assert (":" + rest)[1..] == rest;
  }

  lemma StampField(digits: string, rest: string, fields: nat)
    requires AllDigits(digits) && digits != ""
    ensures StampFields(digits + (":" + rest), fields, false, true) == StampFields(rest, fields + 1, false, true)
  {
    StampDigits(digits, ":" + rest, fields, false, true);
    StampColon(rest, fields);
  }

  lemma ZeroFields()
    ensures StampFields("0:0:0:0:0", 3, false, true) == Some(7)
  {
    assert "0:0:0:0:0" == "0" + (":" + "0:0:0:0");
    StampField("0", "0:0:0:0", 3);
    assert "0:0:0:0" == "0" + (":" + "0:0:0");
    StampField("0", "0:0:0", 4);
    assert "0:0:0" == "0" + (":" + "0:0");
    StampField("0", "0:0", 5);
    assert "0:0" == "0" + (":" + "0");
    StampField("0", "0", 6);
    assert "0" + "" == "0";
    StampDigits("0", "", 7, false, true);
  }

  lemma TicksShort(time: nat)
    requires time < TICKS
    ensures |Decimal(time)| <= 20
  {
    assert Pow10(5) == 100_000;
    assert Pow10(10) == 10_000_000_000;
    assert Pow10(15) == 1_000_000_000_000_000;
    assert Pow10(20) == 100_000_000_000_000_000_000;
    DecimalShort(time, 20);
  }

  /** Every stamp the store hands out is one the journal parser accepts. */
  lemma StampAtValid(clock: nat)
    ensures ValidStamp(StampAt(clock))
  {
    hide StampFields, Pow10;
    var time := Decimal(clock % TICKS);
    var tail := ":" + "0:0:0:0:0";
    assert StampAt(clock) == "1" + (":" + (time + tail));
    StampField("1", time + tail, 1);
    StampField(time, "0:0:0:0:0", 2);
    ZeroFields();
    TicksShort(clock % TICKS);
  }

  predicate AllAbsolute(u: Undo) {
    forall p :: p in PathsOf(u) ==> IsAbsolute(p)
  }

  predicate WitnessReferences(prior: seq<Marked>, u: Undo)
    requires u.ReplaceFile?
  {
    && ValidStamp(u.oldStamp) && ValidStamp(u.newStamp)
    && u.from != u.to && u.from != u.newWitness && u.from != u.staging
    && u.newWitness != u.staging && u.to != u.newWitness && u.to != u.staging
    && (forall p :: p in {u.from, u.newWitness, u.staging} ==> IsStagingName(p) && HasRemoval(prior, p))
    && (forall i :: 0 <= i < |prior| && prior[i].undo.ReplaceFile? ==> prior[i].undo.from != u.from)
  }

  predicate AcceptableNext(prior: seq<Marked>, u: Undo) {
    AllAbsolute(u) && (u.ReplaceFile? ==> WitnessReferences(prior, u))
  }

  ghost predicate Acceptable(log: seq<Marked>) {
    forall i :: 0 <= i < |log| ==> AcceptableNext(log[..i], log[i].undo)
  }

  lemma AcceptableSnoc(log: seq<Marked>, m: Marked)
    requires Acceptable(log) && AcceptableNext(log, m.undo)
    ensures Acceptable(log + [m])
  {
    hide AcceptableNext;
    var more := log + [m];
    forall i | 0 <= i < |more| ensures AcceptableNext(more[..i], more[i].undo) {
      if i < |log| {
        assert more[..i] == log[..i];
      } else {
        assert more[..i] == log;
      }
    }
  }

  // ----- The invariant -----

  /** Nothing in the log carries a serial number that is still to be handed out. */
  ghost predicate Unused(log: seq<Marked>, next: nat) {
    forall p :: p in TempsFrom(next) ==> !Mentions(log, p)
  }

  ghost predicate RemovesStagingOnly(log: seq<Marked>, temps: iset<Path>) {
    forall i :: 0 <= i < |log| && log[i].undo.RemovePath? ==> log[i].undo.from in temps
  }

  ghost predicate Sound(w: World, log: seq<Marked>, pinned: set<Path>, next: nat, o: Origin) {
    && Restores(w, log, o.initial, Temps(o))
    && AllRespect(log, pinned, {})
    && Unused(log, next)
    && RemovesStagingOnly(log, Temps(o))
    && Acceptable(log)
  }

  /** A staging file in the making: nothing but removals speak of it. */
  ghost predicate Scratch(disk: Disk, log: seq<Marked>, pinned: set<Path>, o: Origin, temp: Path) {
    temp in Temps(o) && temp !in pinned && OnlyRemoved(log, temp) && (temp in disk ==> disk[temp].regular)
  }

  lemma MentionsSnoc(log: seq<Marked>, m: Marked, p: Path)
    ensures Mentions(log + [m], p) <==> Mentions(log, p) || p in PathsOf(m.undo)
  {
    hide PathsOf;
    var more := log + [m];
    assert more[|log|] == m;
    if Mentions(log, p) {
      var i :| 0 <= i < |log| && p in PathsOf(log[i].undo);
      assert more[i] == log[i];
    }
    if Mentions(more, p) && p !in PathsOf(m.undo) {
      var i :| 0 <= i < |more| && p in PathsOf(more[i].undo);
      assert more[i] == log[i];
    }
  }

  lemma UnusedSnoc(log: seq<Marked>, m: Marked, next: nat)
    requires Unused(log, next)
    requires forall p :: p in PathsOf(m.undo) ==> p !in TempsFrom(next)
    ensures Unused(log + [m], next)
  {
    hide PathsOf, TempsFrom, Mentions;
    forall p | p in TempsFrom(next) ensures !Mentions(log + [m], p) {
      MentionsSnoc(log, m, p);
    }
  }

  lemma OnlyRemovedSnoc(log: seq<Marked>, m: Marked, p: Path)
    requires OnlyRemoved(log, p) && (m.undo.RemovePath? || p !in PathsOf(m.undo))
    ensures OnlyRemoved(log + [m], p)
  {
    hide PathsOf;
  }

  lemma UnmentionedOnlyRemoved(log: seq<Marked>, p: Path)
    requires !Mentions(log, p)
    ensures OnlyRemoved(log, p)
  {
    hide PathsOf;
    forall i | 0 <= i < |log| ensures p !in PathsOf(log[i].undo) {}
  }

  /** Handing out a serial number. */
  lemma SoundLater(w: World, log: seq<Marked>, pinned: set<Path>, next: nat, o: Origin)
    requires Sound(w, log, pinned, next, o)
    ensures Sound(w, log, pinned, next + 1, o)
  {
    hide Restores, AllRespect, Acceptable, Mentions;
    TempsShrink(next, next + 1);
  }

  /** A file becomes a pinned witness. */
  lemma SoundPin(w: World, log: seq<Marked>, pinned: set<Path>, next: nat, o: Origin, temp: Path)
    requires Sound(w, log, pinned, next, o) && OnlyRemoved(log, temp)
    ensures Sound(w, log, pinned + {temp}, next, o)
  {
    hide Restores, Acceptable, Unused, RemovesStagingOnly;
    RespectPinned(log, temp, pinned);
  }

  /** A staging file appears, changes or disappears. */
  lemma SoundStagingWrite(a: World, b: World, log: seq<Marked>, pinned: set<Path>, next: nat, o: Origin, temp: Path)
    requires Sound(b, log, pinned, next, o)
    requires Scratch(a.disk, log, pinned, o, temp) && Scratch(b.disk, log, pinned, o, temp)
    requires SameExcept(a.disk, b.disk, {temp})
    ensures Sound(a, log, pinned, next, o)
  {
    hide Restores, Acceptable, Unused, RemovesStagingOnly;
    StagingWriteKeeps(a, b, log, temp, o.initial, Temps(o), pinned);
  }

  /** The removal of a staging file is recorded. */
  lemma SoundRemoval(w: World, log: seq<Marked>, m: Marked, pinned: set<Path>, next: nat, o: Origin, temp: Path)
    requires Sound(w, log, pinned, next, o) && Scratch(w.disk, log, pinned, o, temp)
    requires m.undo == RemovePath(temp) && temp !in TempsFrom(next) && IsAbsolute(temp)
    ensures Sound(w, log + [m], pinned, next, o) && Scratch(w.disk, log + [m], pinned, o, temp)
  {
    hide Restores, Acceptable, Unused, AllRespect, TempsFrom;
    RecordRemovalKeeps(w, log, m, temp, o.initial, Temps(o), pinned);
    RespectSnoc(log, m, pinned, {});
    UnusedSnoc(log, m, next);
    AcceptableSnoc(log, m);
  }

  /** A move that has not happened yet is recorded. */
  lemma SoundQuietMove(w: World, log: seq<Marked>, m: Marked, pinned: set<Path>, next: nat, o: Origin)
    requires Sound(w, log, pinned, next, o)
    requires m.undo.MovePath? && m.undo.from !in w.disk
    requires forall p :: p in PathsOf(m.undo) ==> p !in pinned && p !in TempsFrom(next) && IsAbsolute(p)
    ensures Sound(w, log + [m], pinned, next, o)
  {
    hide Restores, Acceptable, Unused, AllRespect, TempsFrom;
    RecordQuietKeeps(w, log, m, o.initial, Temps(o));
    RespectSnoc(log, m, pinned, {});
    UnusedSnoc(log, m, next);
    AcceptableSnoc(log, m);
  }

  /** A replacement that has not happened yet is recorded. */
  lemma SoundQuietReplace(w: World, log: seq<Marked>, m: Marked, pinned: set<Path>, next: nat, o: Origin)
    requires Sound(w, log, pinned, next, o)
    requires !m.restored && ReadyToReplace(w.disk, m.undo) && Respects(m.undo, pinned, {})
    requires AcceptableNext(log, m.undo)
    requires forall p :: p in PathsOf(m.undo) ==> p !in TempsFrom(next)
    ensures Sound(w, log + [m], pinned, next, o)
  {
    hide Restores, Acceptable, Unused, AllRespect, TempsFrom, AcceptableNext;
    RecordQuietKeeps(w, log, m, o.initial, Temps(o));
    RespectSnoc(log, m, pinned, {});
    UnusedSnoc(log, m, next);
    AcceptableSnoc(log, m);
  }

  /** The last recorded move is performed. */
  lemma SoundMove(w: World, log: seq<Marked>, from: Path, to: Path, pinned: set<Path>, next: nat, o: Origin)
    requires Sound(w, log, pinned, next, o)
    requires log != [] && log[|log| - 1].undo == MovePath(to, from)
    requires from in w.disk && to !in w.disk && from !in pinned && to !in pinned
    ensures Sound(Renamed(w, from, to), log, pinned, next, o)
  {
    hide Restores, Acceptable, Unused, RemovesStagingOnly, AllRespect, Renamed, TempsFrom;
    var last := log[|log| - 1];
    var front := log[..|log| - 1];
    assert log == front + [last];
    RecordQuietKeeps(w, front, last, o.initial, Temps(o));
    RespectSnoc(front, last, pinned, {});
    MoveKeeps(w, front, last, from, to, o.initial, Temps(o), pinned);
  }

  /** The last recorded replacement is performed. */
  lemma SoundReplace(w: World, log: seq<Marked>, u: Undo, temp: Path, pinned: set<Path>, next: nat, o: Origin)
    requires Sound(w, log, pinned, next, o)
    requires log != [] && !log[|log| - 1].restored && log[|log| - 1].undo == u
    requires ReadyToReplace(w.disk, u)
    requires temp in w.disk && w.disk[temp].data == w.disk[u.newWitness].data
    requires Scratch(w.disk, log, pinned, o, temp)
    ensures Sound(Renamed(w, temp, u.to), log, pinned, next, o)
  {
    hide Restores, Acceptable, Unused, RemovesStagingOnly, AllRespect, Renamed, TempsFrom, Respects, PathsOf;
    var last := log[|log| - 1];
    var front := log[..|log| - 1];
    assert log == front + [last];
    RecordQuietKeeps(w, front, last, o.initial, Temps(o));
    RespectSnoc(front, last, pinned, {});
    assert OnlyRemoved(front, temp) by {
      forall i | 0 <= i < |front| ensures front[i].undo.RemovePath? || temp !in PathsOf(front[i].undo) {
        assert front[i] == log[i];
      }
    }
    ReplaceKeeps(w, front, last, temp, o.initial, Temps(o), pinned);
  }
}
