/** Task groups: every accepted task ends up in exactly one of three counts, however the waits are
    interleaved with submissions and with each other. */
module AsyncGroup {
  import opened Text

  datatype Outcome = Completed | Cancelled | Failed

  datatype GroupStats = GroupStats(submitted: nat, completed: nat, cancelled: nat, failed: nat)

  function Counted(s: GroupStats, o: Outcome): GroupStats {
    match o
    case Completed => s.(completed := s.completed + 1)
    case Cancelled => s.(cancelled := s.cancelled + 1)
    case Failed => s.(failed := s.failed + 1)
  }

  /** What a wait does with the futures it has taken: those that are ready are counted and the others
      are kept, in order. */
  function StillPending(futures: seq<nat>, ready: map<nat, Outcome>): seq<nat> {
    if futures == [] then []
    else
      var front := StillPending(futures[..|futures| - 1], ready);
      if futures[|futures| - 1] in ready then front else front + [futures[|futures| - 1]]
  }

  lemma {:induction false} PendingAreUnready(futures: seq<nat>, ready: map<nat, Outcome>)
    ensures forall f :: f in StillPending(futures, ready) <==> f in futures && f !in ready
    ensures |StillPending(futures, ready)| <= |futures|
  {
    if futures != [] {
      PendingAreUnready(futures[..|futures| - 1], ready);
      assert futures == futures[..|futures| - 1] + [futures[|futures| - 1]];
    }
  }

  /** The counts after the ready futures have been recorded. */
  function AllCounted(s: GroupStats, futures: seq<nat>, ready: map<nat, Outcome>): GroupStats {
    if futures == [] then s
    else
      var front := AllCounted(s, futures[..|futures| - 1], ready);
      if futures[|futures| - 1] in ready then Counted(front, ready[futures[|futures| - 1]]) else front
  }

  /** How many futures are ready with this outcome. */
  function ReadyWith(futures: seq<nat>, ready: map<nat, Outcome>, o: Outcome): nat {
    if futures == [] then 0
    else
      var last := futures[|futures| - 1];
      ReadyWith(futures[..|futures| - 1], ready, o) + if last in ready && ready[last] == o then 1 else 0
  }

  /** Recording adds to each count the number of futures with that outcome. */
  lemma {:induction false} CountsAreReady(s: GroupStats, futures: seq<nat>, ready: map<nat, Outcome>)
    ensures AllCounted(s, futures, ready) == GroupStats(s.submitted,
      s.completed + ReadyWith(futures, ready, Completed),
      s.cancelled + ReadyWith(futures, ready, Cancelled),
      s.failed + ReadyWith(futures, ready, Failed))
  {
    if futures != [] {
      CountsAreReady(s, futures[..|futures| - 1], ready);
    }
  }

  class TaskGroup {
    /** Futures nobody is waiting for. */
    var futures: seq<nat>
    var stats: GroupStats
    var cancelRequested: bool
    /** How many futures are in the hands of running waits. */
    ghost var inHands: nat

    /** Every submitted task is still unobserved, in the hands of a wait, or counted by its outcome. */
    ghost predicate Valid()
      reads this
    {
      stats.submitted == |futures| + inHands + stats.completed + stats.cancelled + stats.failed
    }

    constructor ()
      ensures Valid() && stats == GroupStats(0, 0, 0, 0) && futures == [] && inHands == 0 && !cancelRequested
    {
      futures, stats, cancelRequested, inHands := [], GroupStats(0, 0, 0, 0), false, 0;
    }

    /** `Cancel`: the group takes no more tasks; those it has are still waited for. */
    method Cancel()
      requires Valid()
      modifies `cancelRequested
      ensures Valid() && cancelRequested
    {
      cancelRequested := true;
    }

    /** `Submit`: an empty task is refused, a cancelled group does not even ask, and the pool accepts the
        task or not. */
    method Submit(future: nat, hasTask: bool, poolAccepts: bool) returns (ok: bool)
      requires Valid()
      modifies `futures, `stats
      ensures Valid()
      ensures ok <==> hasTask && !cancelRequested && poolAccepts
      ensures futures == if ok then old(futures) + [future] else old(futures)
      ensures stats == if ok then old(stats).(submitted := old(stats.submitted) + 1) else old(stats)
    {
      if !hasTask || cancelRequested || !poolAccepts {
        return false;
      }
      stats := stats.(submitted := stats.submitted + 1);
      futures := futures + [future];
      ok := true;
    }

    /** The first locked region of a wait: it takes all futures. */
    method TakeAll() returns (local: seq<nat>)
      requires Valid()
      modifies `futures, `inHands
      ensures Valid() && local == old(futures) && futures == [] && inHands == old(inHands) + |local|
    {
      local := futures;
      inHands := inHands + |futures|;
      futures := [];
    }

    /** `RecordOutcome` for a future a wait holds. */
    method Record(outcome: Outcome)
      requires Valid() && 0 < inHands
      modifies `stats, `inHands
      ensures Valid() && stats == Counted(old(stats), outcome) && inHands == old(inHands) - 1
    {
      stats := Counted(stats, outcome);
      inHands := inHands - 1;
    }

    /** The last locked region of a wait that ran out of time: the pending futures go back. */
    method PutBack(pending: seq<nat>)
      requires Valid() && |pending| <= inHands
      modifies `futures, `inHands
      ensures Valid() && futures == old(futures) + pending && inHands == old(inHands) - |pending|
    {
      futures := futures + pending;
      inHands := inHands - |pending|;
    }

    /** `WaitUntil` with nothing in between: `ready` are the tasks finished by the deadline.  Each of
        them is counted by its outcome, exactly the others remain, and the wait succeeds if there are
        none. */
    method WaitUntil(ready: map<nat, Outcome>) returns (ok: bool)
      requires Valid()
      modifies `futures, `stats, `inHands
      ensures Valid() && inHands == old(inHands)
      ensures futures == StillPending(old(futures), ready)
      ensures stats == AllCounted(old(stats), old(futures), ready)
      ensures ok <==> futures == []
    {
      var local := TakeAll();
      var pending: seq<nat> := [];
      var i := 0;
      assert local[..0] == [];
      while i < |local|
        invariant 0 <= i <= |local| && Valid() && futures == []
        invariant pending == StillPending(local[..i], ready)
        invariant stats == AllCounted(old(stats), local[..i], ready)
        invariant inHands == old(inHands) + |pending| + (|local| - i)
      {
        assert local[..i + 1][..i] == local[..i];
        if local[i] !in ready {
          pending := pending + [local[i]];
        } else {
          Record(ready[local[i]]);
        }
        i := i + 1;
      }
      assert local[..|local|] == local;
      if pending != [] {
        PutBack(pending);
        return false;
      }
      ok := true;
    }
  }
}
