/** The thread pool: bounded queue, workers, scheduler and shutdown.  Every method is one region that
    the pool executes under its lock (or one atomic counter update); any interleaving of threads is
    some sequence of calls. */
module AsyncPool {
  import opened AsyncDispatch
  import opened Text

  datatype Scheduled = Scheduled(id: nat, task: nat, due: int, interval: nat, periodic: bool)

  /** The outcome of trying to enqueue a task; `Blocked` means that the caller goes on waiting. */
  datatype Status = Accepted | InvalidArgument | NotRunning | QueueClosed | QueueFull | TimedOut | Blocked

  // ----- Tasks of a queue -----

  function TasksOf(queue: seq<Queued>): multiset<nat> {
    if queue == [] then multiset{} else TasksOf(queue[..|queue| - 1]) + multiset{queue[|queue| - 1].task}
  }

  lemma TasksSnoc(queue: seq<Queued>, q: Queued)
    ensures TasksOf(queue + [q]) == TasksOf(queue) + multiset{q.task}
  {
    assert (queue + [q])[..|queue|] == queue;
  }

  lemma {:induction false} TasksConcat(a: seq<Queued>, b: seq<Queued>)
    ensures TasksOf(a + b) == TasksOf(a) + TasksOf(b)
  {
    if b == [] {
      assert a + b == a;
    } else {
      assert (a + b)[..|a + b| - 1] == a + b[..|b| - 1];
      TasksConcat(a, b[..|b| - 1]);
    }
  }

  lemma TasksWithout(queue: seq<Queued>, i: nat)
    requires i < |queue|
    ensures TasksOf(queue) == TasksOf(Without(queue, i)) + multiset{queue[i].task}
  {
    hide TasksOf;
    var front, back := queue[..i], queue[i + 1..];
    assert queue == front + [queue[i]] + back;
    TasksConcat(front + [queue[i]], back);
    TasksSnoc(front, queue[i]);
    TasksConcat(front, back);
  }

  // ----- Queue order -----

  ghost predicate InOrder(queue: seq<Queued>, next: nat) {
    Increasing(queue) && forall i :: 0 <= i < |queue| ==> queue[i].sequence < next
  }

  lemma InOrderWithout(queue: seq<Queued>, next: nat, i: nat)
    requires InOrder(queue, next) && i < |queue|
    ensures InOrder(Without(queue, i), next)
  {
  }

  lemma InOrderSnoc(queue: seq<Queued>, next: nat, q: Queued)
    requires InOrder(queue, next) && q.sequence == next
    ensures InOrder(queue + [q], next + 1)
  {
  }

  // ----- The dispatches so far -----

  /** The dispatches since the queue was last cleared, and how the queue has grown since the last. */
  ghost predicate TraceFits(turns: seq<Turn>, queue: seq<Queued>, slot: nat) {
    && Consecutive(turns) && Flows(turns)
    && (turns != [] ==>
      var last := turns[|turns| - 1];
      slot == (last.slot + last.offset + 1) % 7 && last.index < |last.queue| &&
        Without(last.queue, last.index) <= queue)
  }

  lemma TraceGrows(turns: seq<Turn>, queue: seq<Queued>, slot: nat, q: Queued)
    requires TraceFits(turns, queue, slot)
    ensures TraceFits(turns, queue + [q], slot)
  {
    hide Consecutive, Flows, Without;
  }

  lemma TraceTurn(turns: seq<Turn>, queue: seq<Queued>, slot: nat, offset: nat, i: nat)
    requires TraceFits(turns, queue, slot) && Increasing(queue) && Chosen(queue, slot, offset, i) && i < |queue|
    ensures TraceFits(turns + [Turn(queue, slot, offset, i)], Without(queue, i), (slot + offset + 1) % 7)
  {
    hide Chosen, Without, Increasing;
    var more := turns + [Turn(queue, slot, offset, i)];
    forall t | 0 <= t < |more| - 1
      ensures more[t + 1].slot == (more[t].slot + more[t].offset + 1) % 7
      ensures more[t].index < |more[t].queue| && Without(more[t].queue, more[t].index) <= more[t + 1].queue
    {
      assert more[t] == turns[t];
      if t < |turns| - 1 {
        assert more[t + 1] == turns[t + 1];
      }
    }
    forall t | 0 <= t < |more| ensures more[t].index < |more[t].queue| && Increasing(more[t].queue) {
      assert t < |turns| ==> more[t] == turns[t];
    }
  }

  lemma NoTasks()
    ensures TasksOf([]) == multiset{}
  {
  }

  ghost predicate IdsIncrease(scheduled: seq<Scheduled>, next: nat) {
    && (forall i, j :: 0 <= i < j < |scheduled| ==> scheduled[i].id < scheduled[j].id)
    && (forall i :: 0 <= i < |scheduled| ==> 0 < scheduled[i].id < next)
  }

  function Erased(scheduled: seq<Scheduled>, i: nat): seq<Scheduled>
    requires i < |scheduled|
  {
    scheduled[..i] + scheduled[i + 1..]
  }

  // ----- The state behind the lock -----

  datatype Flags = Flags(running: bool, accepting: bool, stopRequested: bool, schedulerStop: bool)

  /** The next sequence number to give out and the slot the next search starts at. */
  datatype Cursor = Cursor(nextSequence: nat, nextSlot: nat)

  datatype Schedule = Schedule(tasks: seq<Scheduled>, nextId: nat)

  /** The atomic counters. */
  datatype Stats = Stats(
    submitted: nat, completed: nat, rejected: nat, backpressureRejected: nat, timedOut: nat,
    created: nat, fired: nat, cancelled: nat, rescheduled: nat)

  /** What the scheduler is about: nothing, a due task it has taken and is trying to enqueue, one it has
      enqueued, or one the closed pool has refused. */
  datatype Hand = Empty | Holding(task: nat) | Delivered(task: nat) | Refused(task: nat)

  /** Workers executing or on their way back, waiting for a task, on their way back, and out of their
      loop; whether the scheduler is in its loop, and what it has in hand. */
  datatype Threads = Threads(active: nat, waiting: nat, returning: nat, exited: nat, schedulerAlive: bool, hand: Hand)

  /** Tasks ever accepted, being executed by a worker, executed, and dropped by a cancelling stop;
      one-shot tasks the scheduler has taken out and tasks it could not enqueue; the dispatches since
      the queue was last cleared or the pool last started. */
  datatype Ledger = Ledger(
    accepted: multiset<nat>, executing: multiset<nat>, finished: multiset<nat>, discarded: multiset<nat>,
    popped: nat, lost: nat, turns: seq<Turn>)

  // ----- The invariant -----

  /** Each accepted task is in exactly one place, and the counters count them. */
  ghost predicate TasksConserved(l: Ledger, queue: seq<Queued>, s: Stats) {
    l.accepted == l.finished + l.executing + TasksOf(queue) + l.discarded && s.submitted == |l.accepted| &&
      s.completed == |l.finished|
  }

  /** Each scheduled task is pending, taken out or cancelled; each one taken out or due again was
      enqueued, is in the scheduler's hand, or could not be. */
  ghost predicate ScheduleConserved(schedule: Schedule, s: Stats, l: Ledger, hand: Hand) {
    && 0 < schedule.nextId && IdsIncrease(schedule.tasks, schedule.nextId)
    && s.created == |schedule.tasks| + l.popped + s.cancelled
    && s.fired + l.lost + (if hand.Empty? then 0 else 1) == l.popped + s.rescheduled
  }

  ghost predicate QueueBounded(queue: seq<Queued>, capacity: nat, c: Cursor, turns: seq<Turn>) {
    |queue| <= capacity && InOrder(queue, c.nextSequence) && c.nextSlot < 7 && TraceFits(turns, queue, c.nextSlot)
  }

  /** Every worker is waiting, executing, on its way back, or gone. */
  ghost predicate ThreadsCounted(running: bool, workers: nat, t: Threads, executing: nat) {
    && t.active == executing + t.returning
    && t.waiting + executing + t.returning + t.exited == (if running then workers else 0)
    && (!t.schedulerAlive ==> t.hand.Empty?)
    && (!running ==> !t.schedulerAlive)
  }

  ghost predicate FlagsAgree(f: Flags, schedule: Schedule, queue: seq<Queued>, t: Threads) {
    && (f.running && !f.stopRequested ==> f.accepting && !f.schedulerStop && t.exited == 0 && t.schedulerAlive)
    && (f.stopRequested ==> f.running && !f.accepting && f.schedulerStop && schedule.tasks == [])
    && (0 < t.exited ==> f.stopRequested && queue == [])
    && (t.hand.Refused? ==> f.stopRequested)
    && (!f.running ==> !f.accepting && queue == [] && schedule.tasks == [])
  }

  lemma QueueBoundedSnoc(queue: seq<Queued>, capacity: nat, c: Cursor, turns: seq<Turn>, q: Queued)
    requires QueueBounded(queue, capacity, c, turns) && |queue| < capacity && q.sequence == c.nextSequence
    ensures QueueBounded(queue + [q], capacity, c.(nextSequence := c.nextSequence + 1), turns)
  {
    hide InOrder, TraceFits;
    InOrderSnoc(queue, c.nextSequence, q);
    TraceGrows(turns, queue, c.nextSlot, q);
  }

  lemma QueueBoundedTurn(queue: seq<Queued>, capacity: nat, c: Cursor, turns: seq<Turn>, offset: nat, i: nat)
    requires QueueBounded(queue, capacity, c, turns) && i < |queue| && Chosen(queue, c.nextSlot, offset, i)
    ensures QueueBounded(Without(queue, i), capacity, c.(nextSlot := (c.nextSlot + offset + 1) % 7),
      turns + [Turn(queue, c.nextSlot, offset, i)])
  {
    hide TraceFits, Chosen, Increasing;
    InOrderWithout(queue, c.nextSequence, i);
    TraceTurn(turns, queue, c.nextSlot, offset, i);
  }

  lemma QueueBoundedUse(queue: seq<Queued>, capacity: nat, c: Cursor, turns: seq<Turn>)
    requires QueueBounded(queue, capacity, c, turns)
    ensures c.nextSlot < 7 && |queue| <= capacity && Increasing(queue) && Consecutive(turns) && Flows(turns)
  {
  }

  lemma QueueBoundedEmpty(capacity: nat, c: Cursor)
    requires c.nextSlot < 7
    ensures QueueBounded([], capacity, c, [])
  {
  }

  lemma TaskCompletes(l: Ledger, queue: seq<Queued>, s: Stats, task: nat)
    requires TasksConserved(l, queue, s) && task in l.executing
    ensures TasksConserved(
      l.(executing := l.executing - multiset{task}, finished := l.finished + multiset{task}), queue,
        s.(completed := s.completed + 1))
    ensures |l.executing - multiset{task}| == |l.executing| - 1
  {
    hide TasksOf;
    assert l.executing == (l.executing - multiset{task}) + multiset{task};
  }

  // ----- The schedule -----

  lemma IdsIncreaseSnoc(tasks: seq<Scheduled>, next: nat, t: Scheduled)
    requires IdsIncrease(tasks, next) && t.id == next && 0 < next
    ensures IdsIncrease(tasks + [t], next + 1)
  {
  }

  lemma IdsIncreaseErased(tasks: seq<Scheduled>, next: nat, i: nat)
    requires IdsIncrease(tasks, next) && i < |tasks|
    ensures IdsIncrease(Erased(tasks, i), next)
  {
  }

  lemma IdsIncreaseSet(tasks: seq<Scheduled>, next: nat, i: nat, due: int)
    requires IdsIncrease(tasks, next) && i < |tasks|
    ensures IdsIncrease(tasks[i := tasks[i].(due := due)], next)
  {
  }

  /** Entry i, which is due first, is taken: it leaves the schedule or is given its next time. */
  ghost predicate TakesDue(before: Schedule, after: Schedule, i: nat, now: int, task: nat)
    requires i < |before.tasks|
  {
    var entry := before.tasks[i];
    && entry.task == task && entry.due <= now &&
      (forall j :: 0 <= j < |before.tasks| ==> entry.due <= before.tasks[j].due)
    && after == before.(tasks :=
      if entry.periodic then before.tasks[i := entry.(due := now + entry.interval)] else Erased(before.tasks, i))
  }

  /** A periodic entry is counted as due again, a one-shot entry as taken out. */
  ghost predicate CountsDue(periodic: bool, s: Stats, s': Stats, l: Ledger, l': Ledger) {
    && s' == (if periodic then s.(rescheduled := s.rescheduled + 1) else s)
    && l' == (if periodic then l else l.(popped := l.popped + 1))
  }

  /** One of the dispatches from number `from` up to `to` takes the task with this sequence number. */
  ghost predicate TakenBetween(turns: seq<Turn>, from: nat, to: nat, sequence: nat) {
    exists t :: from <= t < to <= |turns| && turns[t].index < |turns[t].queue| &&
      turns[t].queue[turns[t].index].sequence == sequence
  }

  lemma ErasedIs(tasks: seq<Scheduled>, next: nat, i: nat)
    requires IdsIncrease(tasks, next) && i < |tasks|
    ensures forall t :: t in Erased(tasks, i) <==> t in tasks && t.id != tasks[i].id
    ensures !HasId(Erased(tasks, i), tasks[i].id)
  {
    forall t ensures t in Erased(tasks, i) <==> t in tasks && t.id != tasks[i].id {
      if t in tasks && t.id != tasks[i].id {
        var k :| 0 <= k < |tasks| && tasks[k] == t;
        assert Erased(tasks, i)[if k < i then k else k - 1] == t;
      }
      if t in Erased(tasks, i) {
        var k :| 0 <= k < |tasks| - 1 && Erased(tasks, i)[k] == t;
        assert t == tasks[if k < i then k else k + 1];
      }
    }
  }

  lemma TurnsPick(turns: seq<Turn>)
    requires Flows(turns)
    ensures forall t :: 0 <= t < |turns| ==> turns[t].index < |turns[t].queue|
  {
    hide Increasing;
  }

  lemma WindowFits(turns: seq<Turn>, from: nat, n: nat)
    requires Consecutive(turns) && Flows(turns) && from + n <= |turns|
    ensures Consecutive(turns[from..from + n]) && Flows(turns[from..from + n])
  {
    WindowIsConsecutive(turns, from, n);
    WindowFlows(turns, from, n);
  }

  lemma WindowIsConsecutive(turns: seq<Turn>, from: nat, n: nat)
    requires Consecutive(turns) && from + n <= |turns|
    ensures Consecutive(turns[from..from + n])
  {
    hide Chosen;
    var window := turns[from..from + n];
    forall t | 0 <= t < n ensures window[t] == turns[from + t] {}
    forall t | 0 <= t < n - 1 ensures window[t + 1].slot == (window[t].slot + window[t].offset + 1) % 7 {
      assert turns[from + t + 1] == window[t + 1];
    }
  }

  lemma WindowFlows(turns: seq<Turn>, from: nat, n: nat)
    requires Flows(turns) && from + n <= |turns|
    ensures Flows(turns[from..from + n])
  {
    hide Increasing, Without;
    var window := turns[from..from + n];
    forall t | 0 <= t < n ensures window[t] == turns[from + t] {}
    forall t | 0 <= t < n - 1 ensures Without(window[t].queue, window[t].index) <= window[t + 1].queue {
      assert turns[from + t + 1] == window[t + 1];
    }
  }

  predicate HasId(tasks: seq<Scheduled>, id: nat) {
    exists i :: 0 <= i < |tasks| && tasks[i].id == id
  }

  /** `FindScheduledByIdLocked` */
  method FindById(tasks: seq<Scheduled>, id: nat) returns (found: Option<nat>)
    ensures found.Some? <==> HasId(tasks, id)
    ensures found.Some? ==> found.value < |tasks| && tasks[found.value].id == id
  {
    var i := 0;
    while i < |tasks|
      invariant 0 <= i <= |tasks| && forall j :: 0 <= j < i ==> tasks[j].id != id
    {
      if tasks[i].id == id {
        return Some(i);
      }
      i := i + 1;
    }
    found := None;
  }

  /** `FindNextDueLocked`: the first of the entries that are due earliest. */
  method FindNextDue(tasks: seq<Scheduled>) returns (best: nat)
    requires tasks != []
    ensures best < |tasks|
    ensures forall j :: 0 <= j < |tasks| ==> tasks[best].due <= tasks[j].due
    ensures forall j :: 0 <= j < best ==> tasks[best].due < tasks[j].due
  {
    best := 0;
    var i := 0;
    while i < |tasks|
      invariant 0 <= i <= |tasks| && best < |tasks| && (0 < i ==> best < i) && (i == 0 ==> best == 0)
      invariant forall j :: 0 <= j < i ==> tasks[best].due <= tasks[j].due
      invariant forall j :: 0 <= j < best ==> tasks[best].due < tasks[j].due
    {
      if tasks[i].due < tasks[best].due {
        best := i;
      }
      i := i + 1;
    }
  }

  class ThreadPool {
    const capacity: nat
    const workerCount: nat

    var flags: Flags
    var queue: seq<Queued>
    var cursor: Cursor
    var schedule: Schedule
    var stats: Stats
    var threads: Threads
    ghost var ledger: Ledger

    ghost predicate Valid()
      reads this
    {
      && 0 < capacity && 0 < workerCount
      && TasksConserved(ledger, queue, stats)
      && ScheduleConserved(schedule, stats, ledger, threads.hand)
      && QueueBounded(queue, capacity, cursor, ledger.turns)
      && ThreadsCounted(flags.running, workerCount, threads, |ledger.executing|)
      && FlagsAgree(flags, schedule, queue, threads)
    }

    constructor (queueCapacity: nat, workers: nat)
      requires 0 < workers
      ensures Valid() && !flags.running && capacity == (if queueCapacity == 0 then 1 else queueCapacity) &&
        workerCount == workers
      ensures stats == Stats(0, 0, 0, 0, 0, 0, 0, 0, 0) && ledger.accepted == multiset{}
    {
      capacity := if queueCapacity == 0 then 1 else queueCapacity;
      workerCount := workers;
      flags := Flags(false, false, false, false);
      queue, cursor, schedule := [], Cursor(1, 0), Schedule([], 1);
      stats := Stats(0, 0, 0, 0, 0, 0, 0, 0, 0);
      threads := Threads(0, 0, 0, 0, false, Empty);
      ledger := Ledger(multiset{}, multiset{}, multiset{}, multiset{}, 0, 0, []);
    }

    // ----- Starting and stopping -----

    /** `Start`, with all threads coming up. */
    method Start()
      requires Valid()
      modifies `flags, `cursor, `threads, `ledger
      ensures Valid()
      ensures old(flags.running) ==> flags == old(flags) && threads == old(threads) && cursor == old(cursor)
      ensures !old(flags.running) ==> flags == Flags(true, true, false, false) && cursor == Cursor(1, 0)
      ensures !old(flags.running) ==> threads == Threads(0, workerCount, 0, 0, true, Empty)
    {
      hide TasksOf, QueueBounded;
      if flags.running {
        return;
      }
      flags := Flags(true, true, false, false);
      cursor := Cursor(1, 0);
      QueueBoundedEmpty(capacity, cursor);
      threads := Threads(0, workerCount, 0, 0, true, Empty);
      ledger := ledger.(turns := []);
    }

    /** The part of `Stop` and `Join` that closes the pool and gives up scheduled tasks. */
    method CancelAllScheduled()
      requires Valid() && flags.running
      modifies `schedule, `stats, `flags
      ensures Valid() && flags == Flags(true, false, true, true) && schedule.tasks == []
      ensures var n := old(|schedule.tasks|);
        stats == old(stats).(rejected := old(stats.rejected) + n, cancelled := old(stats.cancelled) + n)
    {
      hide TasksOf, QueueBounded;
      flags := flags.(accepting := false, stopRequested := true, schedulerStop := true);
      var n := |schedule.tasks|;
      stats := stats.(rejected := stats.rejected + n, cancelled := stats.cancelled + n);
      schedule := schedule.(tasks := []);
    }

    /** `Stop`: pending tasks are dropped only if asked for. */
    method Stop(cancelPending: bool)
      requires Valid()
      modifies `flags, `schedule, `queue, `stats, `ledger
      ensures Valid()
      ensures !flags.running ==>
        flags == old(flags) && queue == old(queue) && ledger == old(ledger) && stats == old(stats)
      ensures flags.running ==> flags == Flags(true, false, true, true) && schedule.tasks == []
      ensures flags.running && !cancelPending ==> queue == old(queue) && ledger == old(ledger)
      ensures flags.running && cancelPending ==>
        queue == [] && ledger.discarded == old(ledger.discarded + TasksOf(queue))
      ensures flags.running ==> stats.rejected == old(stats.rejected) + old(|schedule.tasks|) + old(|queue|) - |queue|
      ensures flags.running == old(flags.running)
    {
      hide TasksOf, QueueBounded, IdsIncrease;
      NoTasks();
      if !flags.running {
        return;
      }
      CancelAllScheduled();
      if cancelPending && queue != [] {
        QueueBoundedUse(queue, capacity, cursor, ledger.turns);
        QueueBoundedEmpty(capacity, cursor);
        stats := stats.(rejected := stats.rejected + |queue|);
        ledger := ledger.(discarded := ledger.discarded + TasksOf(queue), turns := []);
        queue := [];
      }
    }

    /** The first locked region of `Join`. */
    method JoinBegin()
      requires Valid()
      modifies `flags, `schedule, `stats
      ensures Valid() && flags.running == old(flags.running) && (flags.running ==> flags.stopRequested)
      ensures old(flags.stopRequested) || !flags.running ==>
        flags == old(flags) && schedule == old(schedule) && stats == old(stats)
    {
      hide TasksConserved, ScheduleConserved, QueueBounded, ThreadsCounted;
      if flags.running && !flags.stopRequested {
        CancelAllScheduled();
      }
    }

    /** Every thread of the pool has left its loop, which is what `Join` waits for. */
    ghost predicate ThreadsGone()
      reads `flags, `threads
    {
      flags.running ==> threads.exited == workerCount && !threads.schedulerAlive
    }

    /** The last locked region of `Join`, once all threads have been collected: no accepted task is
        left behind.  Each has been executed or was dropped by a cancelling stop. */
    method JoinEnd()
      requires Valid() && ThreadsGone()
      modifies `flags, `threads
      ensures Valid() && flags == Flags(false, false, false, false)
      ensures queue == [] && threads.active == 0 && ledger.executing == multiset{}
      ensures ledger.accepted == ledger.finished + ledger.discarded &&
        stats.submitted == stats.completed + |ledger.discarded|
      ensures ledger.discarded == multiset{} ==>
        stats.completed == stats.submitted && ledger.finished == ledger.accepted
    {
      hide ScheduleConserved, QueueBounded;
      assert |ledger.executing| == 0 && queue == [];
      flags := Flags(false, false, false, false);
      threads := threads.(exited := 0);
    }

    // ----- Enqueuing -----

    /** The end of `EnqueueTask`, with room in the queue and the pool accepting. */
    method Push(task: nat, priority: Priority)
      requires Valid() && flags.running && flags.accepting && |queue| < capacity
      modifies `queue, `cursor, `stats, `ledger
      ensures Valid()
      ensures queue == old(queue) + [Queued(task, priority, old(cursor.nextSequence))]
      ensures cursor == old(cursor).(nextSequence := old(cursor.nextSequence) + 1)
      ensures stats == old(stats).(submitted := old(stats.submitted) + 1)
      ensures ledger == old(ledger).(accepted := old(ledger.accepted) + multiset{task})
    {
      hide TasksOf, QueueBounded, IdsIncrease;
      var q := Queued(task, priority, cursor.nextSequence);
      TasksSnoc(queue, q);
      QueueBoundedSnoc(queue, capacity, cursor, ledger.turns, q);
      queue := queue + [q];
      cursor := cursor.(nextSequence := cursor.nextSequence + 1);
      stats := stats.(submitted := stats.submitted + 1);
      ledger := ledger.(accepted := ledger.accepted + multiset{task});
    }

    /** `EnqueueTask` up to its first wait. */
    method Enqueue(task: Option<nat>, priority: Priority, mayWait: bool) returns (status: Status)
      requires Valid()
      modifies `queue, `cursor, `stats, `ledger
      ensures Valid()
      ensures status == (
        if task.None? then InvalidArgument else if !flags.running then NotRunning
        else if !flags.accepting then QueueClosed
        else if |old(queue)| < capacity then Accepted else if mayWait then Blocked else QueueFull)
      ensures status == Accepted ==> queue == old(queue) + [Queued(task.value, priority, old(cursor.nextSequence))]
      ensures status == Accepted ==> ledger == old(ledger).(accepted := old(ledger.accepted) + multiset{task.value})
      ensures status != Accepted ==> queue == old(queue) && ledger == old(ledger) && cursor == old(cursor)
      ensures status == Blocked ==> stats == old(stats)
      ensures status == QueueFull ==>
        stats == old(stats).(rejected := old(stats.rejected) + 1,
          backpressureRejected := old(stats.backpressureRejected) + 1)
      ensures status in {InvalidArgument, NotRunning, QueueClosed} ==>
        stats == old(stats).(rejected := old(stats.rejected) + 1)
    {
      hide TasksOf, QueueBounded, ThreadsCounted, FlagsAgree, IdsIncrease;
      if task.None? || !flags.running || !flags.accepting {
        stats := stats.(rejected := stats.rejected + 1);
        return if task.None? then InvalidArgument else if !flags.running then NotRunning else QueueClosed;
      }
      if |queue| >= capacity {
        if !mayWait {
          stats := stats.(rejected := stats.rejected + 1, backpressureRejected := stats.backpressureRejected + 1);
          return QueueFull;
        }
        return Blocked;
      }
      Push(task.value, priority);
      status := Accepted;
    }

    /** `EnqueueTask` when a wait for room returns; with a deadline it may have run out of time. */
    method ResumeEnqueue(task: nat, priority: Priority, outOfTime: bool) returns (status: Status)
      requires Valid()
      modifies `queue, `cursor, `stats, `ledger
      ensures Valid()
      ensures status == (
        if outOfTime && |old(queue)| >= capacity then TimedOut
        else if !flags.running || !flags.accepting then QueueClosed
        else if |old(queue)| < capacity then Accepted else Blocked)
      ensures status == Accepted ==> queue == old(queue) + [Queued(task, priority, old(cursor.nextSequence))]
      ensures status == Accepted ==> ledger == old(ledger).(accepted := old(ledger.accepted) + multiset{task})
      ensures status == Accepted ==> stats == old(stats).(submitted := old(stats.submitted) + 1)
      ensures status != Accepted ==> queue == old(queue) && ledger == old(ledger) && cursor == old(cursor)
      ensures status == Blocked ==> stats == old(stats)
      ensures status == TimedOut ==> stats == old(stats).(timedOut := old(stats.timedOut) + 1)
      ensures status == QueueClosed ==> stats == old(stats).(rejected := old(stats.rejected) + 1)
    {
      hide TasksOf, QueueBounded, ThreadsCounted, FlagsAgree, IdsIncrease;
      if |queue| >= capacity {
        if outOfTime {
          stats := stats.(timedOut := stats.timedOut + 1);
          return TimedOut;
        }
        if flags.running && flags.accepting {
          return Blocked;
        }
      }
      if !flags.running || !flags.accepting {
        stats := stats.(rejected := stats.rejected + 1);
        return QueueClosed;
      }
      Push(task, priority);
      status := Accepted;
    }

    // ----- Workers -----

    /** The locked region in which a worker takes a task, finds nothing yet, or leaves its loop. */
    method WorkerTake() returns (taken: Option<Queued>, left: bool)
      requires Valid() && 0 < threads.waiting
      modifies `queue, `cursor, `threads, `ledger
      ensures Valid()
      ensures taken.Some? <==> old(queue) != []
      ensures left <==> old(queue) == [] && flags.stopRequested
      ensures taken.None? ==> queue == old(queue) && cursor == old(cursor) && ledger == old(ledger)
      ensures taken.None? && !left ==> threads == old(threads)
      ensures left ==> threads == old(threads).(waiting := old(threads.waiting) - 1, exited := old(threads.exited) + 1)
      ensures taken.Some? ==> threads == old(threads).(waiting := old(threads.waiting) - 1,
        active := old(threads.active) + 1)
      ensures taken.Some? ==>
        |ledger.turns| == |old(ledger.turns)| + 1 && ledger.turns[..|ledger.turns| - 1] == old(ledger.turns)
      ensures taken.Some? ==>
        var turn := ledger.turns[|ledger.turns| - 1];
        && turn.queue == old(queue) && turn.slot == old(cursor.nextSlot) && turn.index < |turn.queue|
        && Chosen(turn.queue, turn.slot, turn.offset, turn.index)
        && taken == Some(turn.queue[turn.index]) && queue == Without(turn.queue, turn.index)
        && cursor == old(cursor).(nextSlot := (turn.slot + turn.offset + 1) % 7)
        && ledger == old(ledger).(executing := old(ledger.executing) + multiset{taken.value.task},
          turns := ledger.turns)
    {
      hide TasksOf, QueueBounded, Chosen, IdsIncrease, Without;
      taken, left := None, false;
      if queue == [] {
        if flags.stopRequested {
          threads := threads.(waiting := threads.waiting - 1, exited := threads.exited + 1);
          left := true;
        }
        return;
      }
      QueueBoundedUse(queue, capacity, cursor, ledger.turns);
      var best, nextSlot;
      ghost var offset;
      best, nextSlot, offset := ChooseNext(queue, cursor.nextSlot);
      taken := Some(queue[best]);
      TasksWithout(queue, best);
      QueueBoundedTurn(queue, capacity, cursor, ledger.turns, offset, best);
      ledger := ledger.(
        executing := ledger.executing + multiset{queue[best].task},
        turns := ledger.turns + [Turn(queue, cursor.nextSlot, offset, best)]);
      cursor := cursor.(nextSlot := nextSlot);
      queue := Without(queue, best);
      threads := threads.(waiting := threads.waiting - 1, active := threads.active + 1);
    }

    /** A worker counts the task it has executed. */
    method WorkerComplete(task: nat)
      requires Valid() && task in ledger.executing
      modifies `stats, `threads, `ledger
      ensures Valid()
      ensures stats == old(stats).(completed := old(stats.completed) + 1)
      ensures threads == old(threads).(returning := old(threads.returning) + 1)
      ensures ledger == old(ledger).(executing := old(ledger.executing) - multiset{task},
        finished := old(ledger.finished) + multiset{task})
    {
      hide TasksConserved, QueueBounded, IdsIncrease;
      TaskCompletes(ledger, queue, stats, task);
      stats := stats.(completed := stats.completed + 1);
      threads := threads.(returning := threads.returning + 1);
      ledger := ledger.(executing := ledger.executing - multiset{task}, finished := ledger.finished + multiset{task});
    }

    /** The locked region at the end of a worker's turn. */
    method WorkerReturn()
      requires Valid() && 0 < threads.returning
      modifies `threads
      ensures Valid()
      ensures threads == old(threads).(
        active := old(threads.active) - 1, returning := old(threads.returning) - 1, waiting := old(threads.waiting) + 1)
    {
      hide TasksOf, QueueBounded, IdsIncrease;
      var active := if threads.active > 0 then threads.active - 1 else threads.active;
      threads := threads.(active := active, returning := threads.returning - 1, waiting := threads.waiting + 1);
    }

    // ----- Scheduling -----

    /** `PostDelayedUntil` and `ScheduleEvery`, which is periodic and refuses an interval that is not
        positive without counting it. */
    method AddScheduled(task: Option<nat>, due: int, interval: int, periodic: bool) returns (id: Option<nat>)
      requires Valid()
      modifies `schedule, `stats
      ensures Valid()
      ensures id.Some? <==> task.Some? && (periodic ==> 0 < interval) && flags.running && flags.accepting
      ensures id.Some? ==> id.value == old(schedule.nextId) && !HasId(old(schedule.tasks), id.value)
      ensures id.Some? ==>
        var entry := Scheduled(id.value, task.value, due, if periodic then interval else 0, periodic);
        schedule == Schedule(old(schedule.tasks) + [entry], id.value + 1)
      ensures id.Some? ==> stats == old(stats).(created := old(stats.created) + 1)
      ensures id.None? ==> schedule == old(schedule)
      ensures id.None? ==>
        var invalid := task.Some? && periodic && interval <= 0;
        stats == if invalid then old(stats) else old(stats).(rejected := old(stats.rejected) + 1)
    {
      hide TasksOf, QueueBounded, ThreadsCounted;
      if task.None? {
        stats := stats.(rejected := stats.rejected + 1);
        return None;
      }
      if periodic && interval <= 0 {
        return None;
      }
      if !flags.running || !flags.accepting {
        stats := stats.(rejected := stats.rejected + 1);
        return None;
      }
      var entry := Scheduled(schedule.nextId, task.value, due, if periodic then interval else 0, periodic);
      IdsIncreaseSnoc(schedule.tasks, schedule.nextId, entry);
      schedule := Schedule(schedule.tasks + [entry], schedule.nextId + 1);
      stats := stats.(created := stats.created + 1);
      id := Some(entry.id);
    }

    /** `CancelScheduled`: the entry is taken out of the schedule, and can be cancelled only once. */
    method CancelScheduled(id: nat) returns (cancelled: bool)
      requires Valid()
      modifies `schedule, `stats
      ensures Valid()
      ensures cancelled <==> HasId(old(schedule.tasks), id)
      ensures !HasId(schedule.tasks, id)
      ensures forall t :: t in schedule.tasks <==> t in old(schedule.tasks) && t.id != id
      ensures stats == if cancelled then old(stats).(rejected := old(stats.rejected) + 1,
        cancelled := old(stats.cancelled) + 1) else old(stats)
    {
      hide TasksOf, QueueBounded, ThreadsCounted;
      var found := FindById(schedule.tasks, id);
      if found.None? {
        return false;
      }
      IdsIncreaseErased(schedule.tasks, schedule.nextId, found.value);
      ErasedIs(schedule.tasks, schedule.nextId, found.value);
      schedule := schedule.(tasks := Erased(schedule.tasks, found.value));
      stats := stats.(rejected := stats.rejected + 1, cancelled := stats.cancelled + 1);
      cancelled := true;
    }

    /** The locked region of the scheduler: it leaves, has nothing to do yet, or takes the entry that
        is due first.  A one-shot entry leaves the schedule, a periodic one is given its next time. */
    method SchedulerTake(now: int) returns (taken: Option<nat>, left: bool)
      requires Valid() && threads.schedulerAlive && threads.hand.Empty?
      modifies `schedule, `stats, `threads, `ledger
      ensures Valid()
      ensures left <==> flags.schedulerStop || !flags.running
      ensures left ==> threads == old(threads).(schedulerAlive := false) && taken.None?
      ensures taken.Some? <==> !left && exists i :: 0 <= i < |old(schedule.tasks)| && old(schedule.tasks)[i].due <= now
      ensures taken.None? ==> schedule == old(schedule) && stats == old(stats) && ledger == old(ledger)
      ensures taken.Some? ==> exists i ::
        0 <= i < |old(schedule.tasks)| && TakesDue(old(schedule), schedule, i, now, taken.value)
        && CountsDue(old(schedule.tasks)[i].periodic, old(stats), stats, old(ledger), ledger)
      ensures taken.Some? ==> threads == old(threads).(hand := Holding(taken.value))
    {
      hide TasksOf, QueueBounded, IdsIncrease;
      taken, left := None, false;
      if flags.schedulerStop || !flags.running {
        threads := threads.(schedulerAlive := false);
        return None, true;
      }
      if schedule.tasks == [] {
        return;
      }
      var i := FindNextDue(schedule.tasks);
      var entry := schedule.tasks[i];
      if entry.due > now {
        return;
      }
      ghost var before := schedule;
      taken := Some(entry.task);
      if entry.periodic {
        IdsIncreaseSet(schedule.tasks, schedule.nextId, i, now + entry.interval);
        schedule := schedule.(tasks := schedule.tasks[i := entry.(due := now + entry.interval)]);
        stats := stats.(rescheduled := stats.rescheduled + 1);
      } else {
        IdsIncreaseErased(schedule.tasks, schedule.nextId, i);
        schedule := schedule.(tasks := Erased(schedule.tasks, i));
        ledger := ledger.(popped := ledger.popped + 1);
      }
      threads := threads.(hand := Holding(taken.value));
      assert TakesDue(before, schedule, i, now, taken.value) &&
        CountsDue(before.tasks[i].periodic, old(stats), stats, old(ledger), ledger);
    }

    /** What the scheduler has in hand once `EnqueueTask` has returned, or has to wait. */
    static function HandAfter(task: nat, status: Status): Hand {
      match status
      case Accepted => Delivered(task)
      case Blocked => Holding(task)
      case _ => Refused(task)
    }

    /** The scheduler enqueues the task it holds; without room it waits. */
    method SchedulerEnqueue() returns (status: Status)
      requires Valid() && threads.schedulerAlive && threads.hand.Holding?
      modifies `queue, `cursor, `stats, `ledger, `threads
      ensures Valid() && status in {Accepted, Blocked, QueueClosed}
      ensures threads == old(threads).(hand := HandAfter(old(threads.hand.task), status))
      ensures status == Accepted ==>
        queue == old(queue) + [Queued(old(threads.hand.task), Normal, old(cursor.nextSequence))]
      ensures status == Accepted ==>
        ledger == old(ledger).(accepted := old(ledger.accepted) + multiset{old(threads.hand.task)})
      ensures status != Accepted ==> queue == old(queue) && ledger == old(ledger) && cursor == old(cursor)
      ensures status == QueueClosed <==> !flags.accepting
    {
      hide TasksConserved, QueueBounded, IdsIncrease;
      status := Enqueue(Some(threads.hand.task), Normal, true);
      threads := threads.(hand := HandAfter(threads.hand.task, status));
    }

    /** The scheduler's wait for room returns. */
    method SchedulerResume() returns (status: Status)
      requires Valid() && threads.schedulerAlive && threads.hand.Holding?
      modifies `queue, `cursor, `stats, `ledger, `threads
      ensures Valid() && status in {Accepted, Blocked, QueueClosed}
      ensures threads == old(threads).(hand := HandAfter(old(threads.hand.task), status))
      ensures status == Accepted ==>
        queue == old(queue) + [Queued(old(threads.hand.task), Normal, old(cursor.nextSequence))]
      ensures status == Accepted ==>
        ledger == old(ledger).(accepted := old(ledger.accepted) + multiset{old(threads.hand.task)})
      ensures status != Accepted ==> queue == old(queue) && ledger == old(ledger) && cursor == old(cursor)
      ensures status == QueueClosed <==> !flags.accepting
    {
      hide TasksConserved, QueueBounded, IdsIncrease;
      status := ResumeEnqueue(threads.hand.task, Normal, false);
      threads := threads.(hand := HandAfter(threads.hand.task, status));
    }

    /** The scheduler after `EnqueueTask` has returned: it counts the delivery, or leaves a closed pool. */
    method SchedulerDelivered() returns (left: bool)
      requires Valid() && threads.schedulerAlive && (threads.hand.Delivered? || threads.hand.Refused?)
      modifies `stats, `threads, `ledger
      ensures Valid()
      ensures left <==> old(threads.hand).Refused?
      ensures left ==> flags.stopRequested
      ensures threads == old(threads).(hand := Empty, schedulerAlive := !left)
      ensures stats == if left then old(stats) else old(stats).(fired := old(stats.fired) + 1)
      ensures ledger == if left then old(ledger).(lost := old(ledger.lost) + 1) else old(ledger)
    {
      hide TasksOf, QueueBounded, IdsIncrease;
      left := threads.hand.Refused?;
      if left {
        ledger := ledger.(lost := ledger.lost + 1);
      } else {
        stats := stats.(fired := stats.fired + 1);
      }
      threads := threads.(hand := Empty, schedulerAlive := !left);
    }

    // ----- What follows in every reachable state -----

    /** A waiting task with k older tasks of its class is taken within 7(k + 1) dispatches of the pool,
        unless the queue is dropped by a cancelling stop. */
    lemma PoolTakesInTime(from: nat, p: Priority, sequence: nat)
      requires Valid() && p != Unknown && from < |ledger.turns|
      requires Waits(ledger.turns[from].queue, p, sequence)
      requires from + 7 * (Ahead(ledger.turns[from].queue, p, sequence) + 1) <= |ledger.turns|
      ensures TakenBetween(ledger.turns, from, from + 7 * (Ahead(ledger.turns[from].queue, p, sequence) + 1), sequence)
    {
      hide Waits, Ahead, TasksConserved, ScheduleConserved, QueueBounded, Consecutive, Flows, Increasing;
      QueueBoundedUse(queue, capacity, cursor, ledger.turns);
      TurnsPick(ledger.turns);
      var n := 7 * (Ahead(ledger.turns[from].queue, p, sequence) + 1);
      var window := ledger.turns[from..from + n];
      WindowFits(ledger.turns, from, n);
      TakenInTime(window, p, sequence);
      var t :| 0 <= t < |window| && window[t].queue[window[t].index].sequence == sequence;
      assert ledger.turns[from + t] == window[t];
    }
  }
}
