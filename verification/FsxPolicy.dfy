/** What a batch plan does under each conflict policy, told from the files before and after it. */
module FsxPolicy {
  import opened FsxNames
  import opened FsxStore
  import opened FsxPlan
  import opened Text

  // ----- Plans and their parts -----

  /** Nothing but these paths differs. */
  ghost predicate SameBut(before: View, after: View, paths: set<Path>) {
    forall p :: p !in paths ==> (p in before <==> p in after) && (p in before ==> after[p] == before[p])
  }

  lemma OneAction(v: View, a: Action, o: Options)
    ensures PlanEffect(v, [a], o) ==
      match ActionEffect(v, a, o)
      case Done(after) => Some(after)
      case Skipped => Some(v)
      case Failed => None
  {
    hide ActionEffect;
    assert [a][..0] == [];
  }

  /** A plan in two parts is the second part on what the first one leaves. */
  lemma {:induction false} PlanInParts(v: View, p: seq<Action>, q: seq<Action>, o: Options)
    ensures PlanEffect(v, p + q, o) ==
      if PlanEffect(v, p, o).None? then None else PlanEffect(PlanEffect(v, p, o).value, q, o)
    decreases |q|
  {
    hide ActionEffect;
    if q == [] {
      assert p + q == p;
    } else {
      var init := q[..|q| - 1];
      PlanInParts(v, p, init, o);
      assert (p + q)[..|p + q| - 1] == p + init;
    }
  }

  /** Each action goes on from where the one before it stopped. */
  lemma ActionInPlan(v: View, plan: seq<Action>, o: Options, k: nat)
    requires k < |plan|
    ensures PlanEffect(v, plan[..k + 1], o) ==
      if PlanEffect(v, plan[..k], o).None? then None else PlanEffect(PlanEffect(v, plan[..k], o).value, [plan[k]], o)
  {
    hide PlanEffect;
    assert plan[..k + 1] == plan[..k] + [plan[k]];
    PlanInParts(v, plan[..k], [plan[k]], o);
  }

  // ----- One action -----

  /** A write fails over something that is no regular file and, where conflicts fail, over any file. */
  lemma WriteAlone(v: View, dst: Path, payload: string, o: Options)
    ensures var r := PlanEffect(v, [AtomicWrite(dst, payload)], o);
      && (r.None? <==> dst in v && (!v[dst].regular || o.policy.FailOnConflict?))
      && (r.Some? && dst in v && o.policy.SkipExisting? ==> r.value == v)
      && (r.Some? && !(dst in v && o.policy.SkipExisting?) ==>
            && dst in r.value && r.value[dst] == Content(true, payload)
            && SameBut(v, r.value, {dst}))
  {
    OneAction(v, AtomicWrite(dst, payload), o);
  }

  /** The backup an action would keep is in the way of the move itself. */
  ghost predicate BackupInTheWay(src: Path, dst: Path, a: Action, o: Options) {
    KeepsBackup(a, o) && (Overlap(dst + o.backupSuffix, src) || Overlap(dst + o.backupSuffix, dst))
  }

  /** A replacement or a rename brings what `src` held to `dst`, and what `dst` held to the backup. */
  lemma MoveAlone(v: View, a: Action, o: Options)
    requires a.SafeReplace? || a.RenameFile?
    ensures var r := PlanEffect(v, [a], o);
      && (r.None? <==>
            || a.src !in v
            || (a.dst in v && o.policy.FailOnConflict?)
            || (a.dst in v && o.policy.Overwrite? && (a.src == a.dst || BackupInTheWay(a.src, a.dst, a, o))))
      && (r.Some? && a.dst in v && o.policy.SkipExisting? ==> r.value == v)
      && (r.Some? && !(a.dst in v && o.policy.SkipExisting?) ==>
            && a.src !in r.value
            && a.dst in r.value && r.value[a.dst] == v[a.src]
            && if a.dst in v && KeepsBackup(a, o) then
                 var kept := a.dst + o.backupSuffix;
                 && kept in r.value && r.value[kept] == v[a.dst]
                 && SameBut(v, r.value, {a.src, a.dst, kept})
               else SameBut(v, r.value, {a.src, a.dst}))
  {
    OneAction(v, a, o);
  }

  /** A copy needs a regular source; the source stays. */
  lemma CopyAlone(v: View, src: Path, dst: Path, o: Options)
    ensures var r := PlanEffect(v, [CopyFile(src, dst)], o);
      && (r.None? <==>
            || src !in v
            || (dst in v && o.policy.FailOnConflict?)
            || (!v[src].regular && !(dst in v && o.policy.SkipExisting?)))
      && (r.Some? && dst in v && o.policy.SkipExisting? ==> r.value == v)
      && (r.Some? && !(dst in v && o.policy.SkipExisting?) ==>
            && dst in r.value && r.value[dst] == v[src]
            && SameBut(v, r.value, {dst}))
  {
    OneAction(v, CopyFile(src, dst), o);
  }

  /** A removal never fails; where existing files are skipped it does nothing. */
  lemma RemoveAlone(v: View, dst: Path, o: Options)
    ensures var r := PlanEffect(v, [RemoveTarget(dst)], o);
      && r.Some?
      && (o.policy.SkipExisting? ==> r.value == v)
      && (!o.policy.SkipExisting? ==> dst !in r.value && SameBut(v, r.value, {dst}))
  {
    OneAction(v, RemoveTarget(dst), o);
  }

  // ----- Whole plans -----

  /** An action changes only the paths it names. */
  lemma OnlyNamedPaths(v: View, a: Action, o: Options)
    requires PlanEffect(v, [a], o).Some?
    ensures SameBut(v, PlanEffect(v, [a], o).value, PathsNamed(a, o))
  {
    hide PlanEffect, ActionEffect, Overlap;
    match a
    case AtomicWrite(dst, payload) => WriteAlone(v, dst, payload, o);
    case SafeReplace(_, _, _) => MoveAlone(v, a, o);
    case RenameFile(_, _) => MoveAlone(v, a, o);
    case CopyFile(src, dst) => CopyAlone(v, src, dst, o);
    case RemoveTarget(dst) => RemoveAlone(v, dst, o);
  }

  /** Whatever the policy, a plan changes only the paths its actions name. */
  lemma {:induction false} UnnamedPathsKept(v: View, plan: seq<Action>, o: Options, p: Path)
    requires PlanEffect(v, plan, o).Some?
    requires forall k :: 0 <= k < |plan| ==> p !in PathsNamed(plan[k], o)
    ensures var after := PlanEffect(v, plan, o).value;
      (p in v <==> p in after) && (p in v ==> after[p] == v[p])
    decreases |plan|
  {
    hide ActionEffect, PathsNamed;
    if plan != [] {
      var n := |plan| - 1;
      ActionInPlan(v, plan, o, n);
      assert plan[..n + 1] == plan;
      UnnamedPathsKept(v, plan[..n], o, p);
      OnlyNamedPaths(PlanEffect(v, plan[..n], o).value, plan[n], o);
    }
  }

  /** Unless it may overwrite, an action changes no existing file but one it takes away. */
  lemma ExistingFileKept(v: View, a: Action, o: Options, p: Path)
    requires PlanEffect(v, [a], o).Some? && !o.policy.Overwrite?
    requires p in v && p !in Brings(a)
    ensures p in PlanEffect(v, [a], o).value && PlanEffect(v, [a], o).value[p] == v[p]
  {
    hide PlanEffect, ActionEffect, Overlap;
    match a
    case AtomicWrite(dst, payload) => WriteAlone(v, dst, payload, o);
    case SafeReplace(_, _, _) => MoveAlone(v, a, o);
    case RenameFile(_, _) => MoveAlone(v, a, o);
    case CopyFile(src, dst) => CopyAlone(v, src, dst, o);
    case RemoveTarget(dst) => RemoveAlone(v, dst, o);
  }

  /** Unless it may overwrite, a plan leaves every existing file as it was, except those it is told to
      remove or to move away. */
  lemma {:induction false} ExistingFilesKept(v: View, plan: seq<Action>, o: Options, p: Path)
    requires PlanEffect(v, plan, o).Some? && !o.policy.Overwrite?
    requires p in v && p !in AllBrings(plan)
    ensures p in PlanEffect(v, plan, o).value && PlanEffect(v, plan, o).value[p] == v[p]
    decreases |plan|
  {
    hide ActionEffect, AllBrings;
    if plan != [] {
      var n := |plan| - 1;
      ActionInPlan(v, plan, o, n);
      TakesStep(plan, n);
      assert plan[..n + 1] == plan;
      ExistingFilesKept(v, plan[..n], o, p);
      ExistingFileKept(PlanEffect(v, plan[..n], o).value, plan[n], o, p);
    }
  }

  /** Where conflicts fail, a plan that puts something at an existing file not moved away before fails. */
  lemma ConflictFailsPlan(v: View, plan: seq<Action>, o: Options, k: nat)
    requires o.policy.FailOnConflict? && k < |plan| && !plan[k].RemoveTarget?
    requires plan[k].dst in v && plan[k].dst !in AllBrings(plan[..k])
    ensures PlanEffect(v, plan, o).None?
  {
    hide PlanEffect, ActionEffect, AllBrings, Overlap;
    var before := PlanEffect(v, plan[..k], o);
    ActionInPlan(v, plan, o, k);
    if before.Some? {
      ExistingFilesKept(v, plan[..k], o, plan[k].dst);
      if plan[k].AtomicWrite? {
        WriteAlone(before.value, plan[k].dst, plan[k].payload, o);
      } else if plan[k].CopyFile? {
        CopyAlone(before.value, plan[k].src, plan[k].dst, o);
      } else {
        MoveAlone(before.value, plan[k], o);
      }
    }
    PlanStaysFailed(v, plan, o, k + 1);
  }

  /** Where existing files are skipped, such an action changes nothing. */
  lemma ConflictIsSkipped(v: View, plan: seq<Action>, o: Options, k: nat)
    requires o.policy.SkipExisting? && k < |plan| && !plan[k].RemoveTarget?
    requires plan[k].dst in v && plan[k].dst !in AllBrings(plan[..k])
    requires PlanEffect(v, plan[..k + 1], o).Some?
    ensures PlanEffect(v, plan[..k + 1], o) == PlanEffect(v, plan[..k], o)
  {
    hide PlanEffect, ActionEffect, AllBrings, Overlap;
    var before := PlanEffect(v, plan[..k], o);
    ActionInPlan(v, plan, o, k);
    ExistingFilesKept(v, plan[..k], o, plan[k].dst);
    if plan[k].AtomicWrite? {
      WriteAlone(before.value, plan[k].dst, plan[k].payload, o);
    } else if plan[k].CopyFile? {
      CopyAlone(before.value, plan[k].src, plan[k].dst, o);
    } else {
      MoveAlone(before.value, plan[k], o);
    }
  }

  /** A payload written where files may be overwritten is there in the end, unless a later action names
      its path. */
  lemma LastWriteStands(v: View, plan: seq<Action>, o: Options, k: nat)
    requires PlanEffect(v, plan, o).Some? && o.policy.Overwrite? && k < |plan| && plan[k].AtomicWrite?
    requires forall j :: k < j < |plan| ==> plan[k].dst !in PathsNamed(plan[j], o)
    ensures var after := PlanEffect(v, plan, o).value;
      plan[k].dst in after && after[plan[k].dst] == Content(true, plan[k].payload)
  {
    hide PlanEffect, ActionEffect, PathsNamed;
    var front, rest := plan[..k + 1], plan[k + 1..];
    assert plan == front + rest;
    PlanInParts(v, front, rest, o);
    ActionInPlan(v, plan, o, k);
    WriteAlone(PlanEffect(v, plan[..k], o).value, plan[k].dst, plan[k].payload, o);
    UnnamedPathsKept(PlanEffect(v, front, o).value, rest, o, plan[k].dst);
  }

  /** A file moved to a path is there in the end, unless a later action names that path. */
  lemma LastMoveStands(v: View, plan: seq<Action>, o: Options, k: nat)
    requires PlanEffect(v, plan, o).Some? && o.policy.Overwrite? && k < |plan|
    requires plan[k].SafeReplace? || plan[k].RenameFile? || plan[k].CopyFile?
    requires forall j :: k < j < |plan| ==> plan[k].dst !in PathsNamed(plan[j], o)
    ensures var before, after := PlanEffect(v, plan[..k], o), PlanEffect(v, plan, o).value;
      before.Some? && plan[k].src in before.value && plan[k].dst in after &&
      after[plan[k].dst] == before.value[plan[k].src]
  {
    hide PlanEffect, ActionEffect, PathsNamed, Overlap;
    var front, rest := plan[..k + 1], plan[k + 1..];
    assert plan == front + rest;
    PlanInParts(v, front, rest, o);
    ActionInPlan(v, plan, o, k);
    var before := PlanEffect(v, plan[..k], o).value;
    if plan[k].CopyFile? {
      CopyAlone(before, plan[k].src, plan[k].dst, o);
    } else {
      MoveAlone(before, plan[k], o);
    }
    UnnamedPathsKept(PlanEffect(v, front, o).value, rest, o, plan[k].dst);
  }

  // ----- On disk -----

  /** Every file there was still is as it was, except those the plan is told to remove or to move away. */
  ghost predicate KeepsExisting(before: Disk, after: Disk, plan: seq<Action>) {
    forall p :: p in before && p !in AllBrings(plan) ==>
      p in after && after[p].regular == before[p].regular && after[p].data == before[p].data
  }

  /** Some action puts a file where there already is one. */
  ghost predicate HitsExisting(before: Disk, plan: seq<Action>) {
    exists k: nat :: HitsAt(before, plan, k)
  }

  ghost predicate HitsAt(before: Disk, plan: seq<Action>, k: nat) {
    k < |plan| && !plan[k].RemoveTarget? && plan[k].dst in before && plan[k].dst !in AllBrings(plan[..k])
  }

  /** What a plan carried out on a disk means for the files there were. */
  lemma PoliciesOnDisk(before: Disk, after: Disk, temps: iset<Path>, plan: seq<Action>, o: Options)
    requires forall p :: p in before ==> p !in temps
    requires PlanEffect(ViewOf(before, temps), plan, o) == Some(ViewOf(after, temps))
    ensures !o.policy.Overwrite? ==> KeepsExisting(before, after, plan)
    ensures HitsExisting(before, plan) ==> !o.policy.FailOnConflict?
  {
    hide PlanEffect, AllBrings, ViewOf;
    var v := ViewOf(before, temps);
    if !o.policy.Overwrite? {
      forall p | p in before && p !in AllBrings(plan)
        ensures p in after && after[p].regular == before[p].regular && after[p].data == before[p].data
      {
        SeenAt(before, p, temps);
        SeenAt(after, p, temps);
        ExistingFilesKept(v, plan, o, p);
      }
    }
    if HitsExisting(before, plan) && o.policy.FailOnConflict? {
      var k: nat :| HitsAt(before, plan, k);
      SeenAt(before, plan[k].dst, temps);
      ConflictFailsPlan(v, plan, o, k);
    }
  }
}
