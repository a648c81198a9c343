/** What a batch plan is meant to do: the effect of each action on the visible files, without any
    staging file, backup name or journal. */
module FsxPlan {
  import opened FsxNames
  import opened FsxStore
  import opened Text

  datatype Policy = FailOnConflict | Overwrite | SkipExisting

  datatype Action =
    | AtomicWrite(dst: Path, payload: string)
    | SafeReplace(src: Path, dst: Path, backup: bool)
    | RenameFile(src: Path, dst: Path)
    | CopyFile(src: Path, dst: Path)
    | RemoveTarget(dst: Path)

  datatype Options = Options(
    policy: Policy,
    failFast: bool,
    defaultBackup: bool,
    backupSuffix: string,
    strictRollback: bool,
    keepJournal: bool)

  datatype Content = Content(regular: bool, data: string)

  /** The visible files: every path that is not a staging name of the run. */
  type View = map<Path, Content>

  ghost function ViewOf(disk: Disk, temps: iset<Path>): View {
    map p | p in disk && p !in temps :: Content(disk[p].regular, disk[p].data)
  }

  predicate KeepsBackup(a: Action, o: Options) {
    a.SafeReplace? && (a.backup || o.defaultBackup)
  }

  function BackupPath(dst: Path, o: Options): Path {
    dst + o.backupSuffix
  }

  /** Every path an action names, the retained backup included. */
  function PathsNamed(a: Action, o: Options): set<Path> {
    match a
    case AtomicWrite(dst, _) => {dst}
    case SafeReplace(src, dst, _) => if KeepsBackup(a, o) then {src, dst, BackupPath(dst, o)} else {src, dst}
    case RenameFile(src, dst) => {src, dst}
    case CopyFile(src, dst) => {src, dst}
    case RemoveTarget(dst) => {dst}
  }

  datatype Effect = Done(view: View) | Skipped | Failed

  function MovedInto(v: View, src: Path, dst: Path): View
    requires src in v
  {
    (v - {src})[dst := v[src]]
  }

  /** A source moves over a destination, subject to the conflict policy; what the destination held
      is kept under `backup` if one is asked for. */
  function MoveEffect(v: View, src: Path, dst: Path, backup: Option<Path>, o: Options): Effect {
    if src !in v then Failed
    else if dst !in v then Done(MovedInto(v, src, dst))
    else if o.policy.Overwrite? && backup.Some? && (Overlap(backup.value, src) || Overlap(backup.value, dst)) then
      Failed
    else if o.policy.SkipExisting? then Skipped
    else if o.policy.FailOnConflict? || src == dst then Failed
    else Done(MovedInto(if backup.Some? then v[backup.value := v[dst]] else v, src, dst))
  }

  function ActionEffect(v: View, a: Action, o: Options): Effect {
    match a
    case AtomicWrite(dst, payload) =>
      if dst in v && !v[dst].regular then Failed
      else if dst in v && o.policy.SkipExisting? then Skipped
      else if dst in v && o.policy.FailOnConflict? then Failed
      else Done(v[dst := Content(true, payload)])
    case SafeReplace(src, dst, _) =>
      MoveEffect(v, src, dst, if KeepsBackup(a, o) then Some(BackupPath(dst, o)) else None, o)
    case RenameFile(src, dst) => MoveEffect(v, src, dst, None, o)
    case CopyFile(src, dst) =>
      if src !in v then Failed
      else if dst in v && o.policy.SkipExisting? then Skipped
      else if dst in v && o.policy.FailOnConflict? then Failed
      else if !v[src].regular then Failed
      else Done(v[dst := v[src]])
    case RemoveTarget(dst) =>
      if dst !in v || o.policy.SkipExisting? then Skipped else Done(v - {dst})
  }

  /** The files after all actions, or nothing if one of them fails. */
  function PlanEffect(v: View, plan: seq<Action>, o: Options): Option<View> {
    if plan == [] then Some(v)
    else
      var before := PlanEffect(v, plan[..|plan| - 1], o);
      if before.None? then None
      else
        match ActionEffect(before.value, plan[|plan| - 1], o)
        case Done(after) => Some(after)
        case Skipped => before
        case Failed => None
  }

  // ----- Orderly plans -----

  /** The names an action may put a file at. */
  function Takes(a: Action): set<Path> {
    if a.RemoveTarget? then {} else {a.dst}
  }

  /** The names undoing an action may bring a file back to. */
  function Brings(a: Action): set<Path> {
    match a
    case SafeReplace(src, _, _) => {src}
    case RenameFile(src, _) => {src}
    case RemoveTarget(dst) => {dst}
    case _ => {}
  }

  function AllTakes(plan: seq<Action>): set<Path> {
    set k, p | 0 <= k < |plan| && p in Takes(plan[k]) :: p
  }

  function AllBrings(plan: seq<Action>): set<Path> {
    set k, p | 0 <= k < |plan| && p in Brings(plan[k]) :: p
  }

  /** No action puts a file where an earlier one has taken one from, and, if existing files may be
      overwritten, replaces, renames and copies go to names that are free at first and that no earlier
      action puts a file at.  A caller can tell this from the plan and the visible names. */
  ghost predicate Orderly(plan: seq<Action>, o: Options, v: View) {
    forall k :: 0 <= k < |plan| ==> OrderlyAt(plan, o, v, k)
  }

  ghost predicate OrderlyAt(plan: seq<Action>, o: Options, v: View, k: nat)
    requires k < |plan|
  {
    && Takes(plan[k]) !! AllBrings(plan[..k])
    && (o.policy.Overwrite? && !plan[k].AtomicWrite? ==> Takes(plan[k]) !! v.Keys + AllTakes(plan[..k]))
  }

  /** Plans of atomic writes are orderly, whether or not their targets exist or repeat. */
  lemma WritesAreOrderly(plan: seq<Action>, o: Options, v: View)
    requires forall k :: 0 <= k < |plan| ==> plan[k].AtomicWrite?
    ensures Orderly(plan, o, v)
  {
  }

  /** A plan that removes files, renames and copies to free names, and keeps all these names apart is
      orderly. */
  lemma FreshTargetsAreOrderly(plan: seq<Action>, o: Options, v: View)
    requires forall k :: 0 <= k < |plan| ==> Takes(plan[k]) !! v.Keys + AllTakes(plan[..k]) + AllBrings(plan[..k])
    ensures Orderly(plan, o, v)
  {
  }

  lemma NothingTaken(plan: seq<Action>)
    ensures AllTakes(plan[..0]) == {} && AllBrings(plan[..0]) == {}
  {
  }

  lemma TakesStep(plan: seq<Action>, i: nat)
    requires i < |plan|
    ensures AllTakes(plan[..i + 1]) == AllTakes(plan[..i]) + Takes(plan[i])
    ensures AllBrings(plan[..i + 1]) == AllBrings(plan[..i]) + Brings(plan[i])
  {
    hide Takes, Brings;
    var shorter, longer := plan[..i], plan[..i + 1];
    forall p | p in AllTakes(longer) ensures p in AllTakes(shorter) + Takes(plan[i]) {
      var k :| 0 <= k < |longer| && p in Takes(longer[k]);
      assert k < i ==> shorter[k] == longer[k];
    }
    forall p | p in AllTakes(shorter) + Takes(plan[i]) ensures p in AllTakes(longer) {
      if p in Takes(plan[i]) {
        assert p in Takes(longer[i]);
      } else {
        var k :| 0 <= k < |shorter| && p in Takes(shorter[k]);
        assert shorter[k] == longer[k];
      }
    }
    forall p | p in AllBrings(longer) ensures p in AllBrings(shorter) + Brings(plan[i]) {
      var k :| 0 <= k < |longer| && p in Brings(longer[k]);
      assert k < i ==> shorter[k] == longer[k];
    }
    forall p | p in AllBrings(shorter) + Brings(plan[i]) ensures p in AllBrings(longer) {
      if p in Brings(plan[i]) {
        assert p in Brings(longer[i]);
      } else {
        var k :| 0 <= k < |shorter| && p in Brings(shorter[k]);
        assert shorter[k] == longer[k];
      }
    }
  }

  lemma PlanStep(v: View, plan: seq<Action>, o: Options, i: nat)
    requires i < |plan|
    ensures PlanEffect(v, plan[..i + 1], o) ==
      var before := PlanEffect(v, plan[..i], o);
      if before.None? then None
      else
        var effect := ActionEffect(before.value, plan[i], o);
        if effect.Done? then Some(effect.view) else if effect.Skipped? then before else None
  {
    hide ActionEffect;
    assert plan[..i + 1][..i] == plan[..i];
  }

  lemma NothingDone(v: View, plan: seq<Action>, o: Options)
    ensures PlanEffect(v, plan[..0], o) == Some(v)
  {
  }

  /** Once an action has failed the plan has failed. */
  lemma {:induction false} PlanStaysFailed(v: View, plan: seq<Action>, o: Options, i: nat)
    requires i <= |plan| && PlanEffect(v, plan[..i], o).None?
    ensures PlanEffect(v, plan, o).None?
    decreases |plan| - i
  {
    if i == |plan| {
      assert plan[..i] == plan;
    } else {
      PlanStep(v, plan, o, i);
      PlanStaysFailed(v, plan, o, i + 1);
    }
  }

  // ----- Views of changing disks -----

  lemma SameViewIff(a: Disk, b: Disk, temps: iset<Path>)
    ensures ViewOf(a, temps) == ViewOf(b, temps) <==> SameOutside(a, b, temps)
  {
    var va, vb := ViewOf(a, temps), ViewOf(b, temps);
    if va == vb {
      forall p: Path | p !in temps ensures SameAt(a, b, p) {
        assert p in va <==> p in a;
        assert p in vb <==> p in b;
        assert p in a ==> va[p] == Content(a[p].regular, a[p].data);
        assert p in b ==> vb[p] == Content(b[p].regular, b[p].data);
      }
    }
    if SameOutside(a, b, temps) {
      forall p: Path ensures p in va <==> p in vb { assert p !in temps ==> SameAt(a, b, p); }
      forall p: Path | p in va ensures va[p] == vb[p] { assert SameAt(a, b, p); }
    }
  }

  /** Touching only staging names leaves the view alone. */
  lemma ViewIgnoresTemp(a: Disk, b: Disk, temp: Path, temps: iset<Path>)
    requires temp in temps && SameExcept(a, b, {temp})
    ensures ViewOf(a, temps) == ViewOf(b, temps)
  {
    SameViewIff(a, b, temps);
  }

  /** A visible path renamed to a staging name disappears from the view. */
  lemma ViewAfterStash(w: World, from: Path, to: Path, temps: iset<Path>)
    requires from in w.disk && from !in temps && to in temps
    ensures ViewOf(Renamed(w, from, to).disk, temps) == ViewOf(w.disk, temps) - {from}
  {
  }

  /** A staging file renamed to a visible path brings its contents there. */
  lemma ViewAfterPublish(w: World, from: Path, to: Path, temps: iset<Path>)
    requires from in w.disk && from in temps && to !in temps
    ensures ViewOf(Renamed(w, from, to).disk, temps)
         == ViewOf(w.disk, temps)[to := Content(w.disk[from].regular, w.disk[from].data)]
  {
  }

  lemma ViewAfterMove(w: World, from: Path, to: Path, temps: iset<Path>)
    requires from in w.disk && from !in temps && to !in temps
    ensures from in ViewOf(w.disk, temps)
    ensures ViewOf(Renamed(w, from, to).disk, temps) == MovedInto(ViewOf(w.disk, temps), from, to)
  {
  }

  /** Two staging files came and went. */
  lemma ViewAfterCopies(a: Disk, b: Disk, p: Path, q: Path, temps: iset<Path>)
    requires p in temps && q in temps && SameExcept(a, b, {p, q})
    ensures ViewOf(a, temps) == ViewOf(b, temps)
  {
    SameViewIff(a, b, temps);
  }

  /** What can be seen at a visible path. */
  lemma SeenAt(disk: Disk, p: Path, temps: iset<Path>)
    requires p !in temps
    ensures p in ViewOf(disk, temps) <==> p in disk
    ensures p in disk ==> ViewOf(disk, temps)[p] == Content(disk[p].regular, disk[p].data)
  {
  }

  /** The files after a destination has been moved out of the way. */
  function Vacated(v: View, dst: Path, backup: Option<Path>): View
    requires dst in v
  {
    if backup.Some? then (v - {dst})[backup.value := v[dst]] else v - {dst}
  }

  /** Vacating the destination and moving the source there is what the action asks for. */
  lemma VacateThenMove(v: View, src: Path, dst: Path, backup: Option<Path>)
    requires dst in v && src in v
    requires backup.Some? ==> backup.value != src && backup.value != dst
    ensures dst !in Vacated(v, dst, backup)
    ensures src != dst ==> src in Vacated(v, dst, backup)
    ensures src != dst ==>
      MovedInto(Vacated(v, dst, backup), src, dst)
        == MovedInto(if backup.Some? then v[backup.value := v[dst]] else v, src, dst)
  {
  }

  /** An older backup that was in the way leaves no trace. */
  lemma VacateOverOld(v: View, dst: Path, backup: Path)
    requires dst in v && backup != dst
    ensures dst in v - {backup}
    ensures MovedInto(v - {backup}, dst, backup) == Vacated(v, dst, Some(backup))
    ensures MovedInto(v, dst, backup) == Vacated(v, dst, Some(backup))
  {
  }

  // ----- Litter -----

  /** The only staging files on the disk are those to be deleted after COMMIT, and `extra`. */
  ghost predicate Tidy(disk: Disk, cleanup: seq<Path>, temps: iset<Path>, extra: set<Path>) {
    forall p :: p in disk && p in temps ==> p in cleanup || p in extra
  }

  lemma TidyAtStart(disk: Disk, temps: iset<Path>)
    requires forall p :: p in disk ==> p !in temps
    ensures Tidy(disk, [], temps, {})
  {
  }

  lemma TidyAfterStash(w: World, from: Path, to: Path, cleanup: seq<Path>, temps: iset<Path>, extra: set<Path>)
    requires Tidy(w.disk, cleanup, temps, extra) && from in w.disk
    ensures Tidy(Renamed(w, from, to).disk, cleanup + [to], temps, extra)
  {
  }

  lemma TidyAfterMove(w: World, from: Path, to: Path, cleanup: seq<Path>, temps: iset<Path>, extra: set<Path>)
    requires Tidy(w.disk, cleanup, temps, extra) && from in w.disk && to !in temps
    ensures Tidy(Renamed(w, from, to).disk, cleanup, temps, extra - {from})
  {
  }

  lemma TidyAfterWrite(a: Disk, b: Disk, cleanup: seq<Path>, temps: iset<Path>, extra: set<Path>, written: set<Path>)
    requires Tidy(a, cleanup, temps, extra) && SameExcept(b, a, written)
    ensures Tidy(b, cleanup, temps, extra + written)
  {
  }

  lemma TidyCollected(disk: Disk, cleanup: seq<Path>, temps: iset<Path>, p: Path, q: Path)
    requires Tidy(disk, cleanup, temps, {p, q})
    ensures Tidy(disk, cleanup + [p, q], temps, {})
  {
  }
}
