/** The weighted choice of the next task, and how long a task can be made to wait. */
module AsyncDispatch {
  import opened Text

  /** `Unknown` stands for any value outside the three named priorities. */
  datatype Priority = High | Normal | Low | Unknown

  datatype Queued = Queued(task: nat, priority: Priority, sequence: nat)

  const SLOTS: seq<Priority> := [High, High, High, High, Normal, Normal, Low]

  /** How many of the slots belong to a priority. */
  function Weight(p: Priority): nat {
    match p
    case High => 4
    case Normal => 2
    case Low => 1
    case Unknown => 0
  }

  /** The class of a slot, counting the slots round and round. */
  function SlotAt(position: nat): (p: Priority)
    ensures p == SLOTS[position % 7]
  {
    var slot := position % 7;
    if slot < 4 then High else if slot < 6 then Normal else Low
  }

  // ----- Choosing -----

  predicate HasClass(queue: seq<Queued>, p: Priority) {
    exists i :: 0 <= i < |queue| && queue[i].priority == p
  }

  /** Entry i is the oldest of its class. */
  predicate OldestOfClass(queue: seq<Queued>, i: nat) {
    i < |queue| && forall j :: 0 <= j < |queue| && queue[j].priority == queue[i].priority ==>
      queue[i].sequence <= queue[j].sequence
  }

  predicate OldestOfAll(queue: seq<Queued>, i: nat) {
    i < |queue| && forall j :: 0 <= j < |queue| ==> queue[i].sequence <= queue[j].sequence
  }

  /** No slot from one position up to another belongs to a class that has a task. */
  predicate PassedOver(queue: seq<Queued>, from: nat, to: nat) {
    forall position :: from <= position < to ==> !HasClass(queue, SlotAt(position))
  }

  /** Starting at the slot `slot`, the first `offset` slots belong to classes without a task and the
      next one to the class of entry i, which is the oldest of its class. */
  predicate ChosenBySlot(queue: seq<Queued>, slot: nat, offset: nat, i: nat) {
    && offset < 7 && OldestOfClass(queue, i)
    && PassedOver(queue, slot, slot + offset)
    && SlotAt(slot + offset) == queue[i].priority
  }

  /** No slot has a task: the oldest task of all is taken. */
  predicate ChosenByAge(queue: seq<Queued>, slot: nat, offset: nat, i: nat) {
    && offset == 0 && OldestOfAll(queue, i)
    && PassedOver(queue, slot, slot + 7)
  }

  predicate Chosen(queue: seq<Queued>, slot: nat, offset: nat, i: nat) {
    ChosenBySlot(queue, slot, offset, i) || ChosenByAge(queue, slot, offset, i)
  }

  /** `find_oldest_with_priority` */
  method FindOldest(queue: seq<Queued>, p: Priority) returns (chosen: Option<nat>)
    ensures chosen.Some? <==> HasClass(queue, p)
    ensures chosen.Some? ==> OldestOfClass(queue, chosen.value) && queue[chosen.value].priority == p
  {
    chosen := None;
    var i := 0;
    while i < |queue|
      invariant 0 <= i <= |queue|
      invariant chosen.None? ==> forall j :: 0 <= j < i ==> queue[j].priority != p
      invariant chosen.Some? ==> chosen.value < i && queue[chosen.value].priority == p
      invariant chosen.Some? ==> forall j :: 0 <= j < i && queue[j].priority == p ==>
        queue[chosen.value].sequence <= queue[j].sequence
    {
      if queue[i].priority == p && (chosen.None? || queue[i].sequence < queue[chosen.value].sequence) {
        chosen := Some(i);
      }
      i := i + 1;
    }
  }

  /** The choice a worker makes under the lock; the next search starts behind the slot that was used. */
  method ChooseNext(queue: seq<Queued>, slot: nat) returns (best: nat, nextSlot: nat, ghost offset: nat)
    requires queue != [] && slot < 7
    ensures best < |queue| && nextSlot < 7
    ensures Chosen(queue, slot, offset, best) && nextSlot == (slot + offset + 1) % 7
  {
    var k := 0;
    while k < 7
      invariant 0 <= k <= 7
      invariant PassedOver(queue, slot, slot + k)
    {
      var at := (slot + k) % 7;
      assert SLOTS[at] == SlotAt(slot + k);
      var candidate := FindOldest(queue, SLOTS[at]);
      if candidate.Some? {
        return candidate.value, (at + 1) % 7, k;
      }
      k := k + 1;
    }
    best := 0;
    var i := 0;
    while i < |queue|
      invariant 0 <= i <= |queue| && best < |queue|
      invariant forall j :: 0 <= j < i ==> queue[best].sequence <= queue[j].sequence
    {
      if queue[i].sequence < queue[best].sequence {
        best := i;
      }
      i := i + 1;
    }
    nextSlot := (slot + 1) % 7;
    offset := 0;
  }

  /** With valid priorities only, the fallback is never taken. */
  lemma FallbackIsDead(queue: seq<Queued>, slot: nat, offset: nat, i: nat)
    requires Chosen(queue, slot, offset, i) && forall j :: 0 <= j < |queue| ==> queue[j].priority != Unknown
    ensures ChosenBySlot(queue, slot, offset, i) && !ChosenByAge(queue, slot, offset, i)
  {
    assert i < |queue|;
    SlotInReach(queue, slot, queue[i].priority);
  }

  /** Seven slots in a row include every class. */
  lemma SlotInReach(queue: seq<Queued>, slot: nat, p: Priority)
    requires p != Unknown && HasClass(queue, p)
    ensures !PassedOver(queue, slot, slot + 7)
  {
    hide HasClass;
    var first := if p == High then 0 else if p == Normal then 4 else 6;
    var k := (first + 7 - slot % 7) % 7;
    assert SlotAt(slot + k) == p;
  }

  // ----- Counting slots -----

  /** How many of the n positions from `from` on are slots of the class. */
  function SlotCount(p: Priority, from: nat, n: nat): nat {
    if n == 0 then 0 else SlotCount(p, from, n - 1) + if SlotAt(from + n - 1) == p then 1 else 0
  }

  lemma {:induction false} SlotCountAdd(p: Priority, from: nat, m: nat, n: nat)
    ensures SlotCount(p, from, m + n) == SlotCount(p, from, m) + SlotCount(p, from + m, n)
  {
    if n != 0 {
      SlotCountAdd(p, from, m, n - 1);
    }
  }

  lemma SlotAtModulo(a: nat, b: nat)
    requires a % 7 == b % 7
    ensures SlotAt(a) == SlotAt(b)
  {
  }

  lemma SameRemainder(from: nat, k: nat)
    ensures (from + k) % 7 == (from % 7 + k) % 7
  {
  }

  lemma {:induction false} SlotCountModulo(p: Priority, from: nat, n: nat)
    ensures SlotCount(p, from, n) == SlotCount(p, from % 7, n)
  {
    hide SlotAt;
    if n != 0 {
      SlotCountModulo(p, from, n - 1);
      SameRemainder(from, n - 1);
      SlotAtModulo(from + n - 1, from % 7 + n - 1);
    }
  }

  /** Wherever one starts, seven positions hold each class as often as its weight. */
  lemma SlotsPerRound(p: Priority, from: nat)
    requires p != Unknown
    ensures SlotCount(p, from, 7) == Weight(p)
  {
    var s := from % 7;
    SlotCountModulo(p, from, 7);
    RoundFrom(p, s);
  }

  lemma RoundFrom(p: Priority, s: nat)
    requires s < 7 && p != Unknown
    ensures SlotCount(p, s, 7) == Weight(p)
  {
    hide SlotCount, Hit, SlotAt;
    UnrollSeven(p, s);
    HitTable(p);
    if s == 0 {} else if s == 1 {} else if s == 2 {} else if s == 3 {} else if s == 4 {} else if s == 5 {} else {}
  }

  lemma HitTable(p: Priority)
    ensures Hit(p, 0) == Hit(p, 1) == Hit(p, 2) == Hit(p, 3) == if p == High then 1 else 0
    ensures Hit(p, 4) == Hit(p, 5) == if p == Normal then 1 else 0
    ensures Hit(p, 6) == if p == Low then 1 else 0
    ensures Hit(p, 7) == Hit(p, 0) && Hit(p, 8) == Hit(p, 1) && Hit(p, 9) == Hit(p, 2) && Hit(p, 10) == Hit(p, 3)
    ensures Hit(p, 11) == Hit(p, 4) && Hit(p, 12) == Hit(p, 5)
  {
  }

  function Hit(p: Priority, position: nat): nat {
    if SlotAt(position) == p then 1 else 0
  }

  lemma UnrollSeven(p: Priority, s: nat)
    ensures SlotCount(p, s, 7) == Hit(p, s) + Hit(p, s + 1) + Hit(p, s + 2) + Hit(p, s + 3) + Hit(p, s + 4) +
      Hit(p, s + 5) + Hit(p, s + 6)
  {
    assert SlotCount(p, s, 0) == 0;
    assert SlotCount(p, s, 1) == Hit(p, s);
    assert SlotCount(p, s, 2) == Hit(p, s) + Hit(p, s + 1);
    assert SlotCount(p, s, 3) == Hit(p, s) + Hit(p, s + 1) + Hit(p, s + 2);
    assert SlotCount(p, s, 4) == Hit(p, s) + Hit(p, s + 1) + Hit(p, s + 2) + Hit(p, s + 3);
    assert SlotCount(p, s, 5) == Hit(p, s) + Hit(p, s + 1) + Hit(p, s + 2) + Hit(p, s + 3) + Hit(p, s + 4);
    assert SlotCount(p, s, 6) == Hit(p, s) + Hit(p, s + 1) + Hit(p, s + 2) + Hit(p, s + 3) + Hit(p, s + 4) +
      Hit(p, s + 5);
  }

  lemma {:induction false} SlotsPerRounds(p: Priority, from: nat, rounds: nat, n: nat)
    requires p != Unknown && 7 * rounds <= n
    ensures rounds * Weight(p) <= SlotCount(p, from, n)
    decreases rounds
  {
    hide SlotCount;
    if rounds != 0 {
      SlotsPerRounds(p, from + 7, rounds - 1, n - 7);
      SlotCountAdd(p, from, 7, n - 7);
      SlotsPerRound(p, from);
    }
  }

  // ----- Consecutive dispatches -----

  /** One dispatch: the queue it found, the slot its search started at, and what it chose. */
  datatype Turn = Turn(queue: seq<Queued>, slot: nat, offset: nat, index: nat)

  ghost predicate Consecutive(turns: seq<Turn>) {
    && (forall t :: 0 <= t < |turns| ==> Chosen(turns[t].queue, turns[t].slot, turns[t].offset, turns[t].index))
    && (forall t :: 0 <= t < |turns| - 1 ==> turns[t + 1].slot == (turns[t].slot + turns[t].offset + 1) % 7)
  }

  ghost predicate StaysNonEmpty(turns: seq<Turn>, p: Priority) {
    forall t :: 0 <= t < |turns| ==> HasClass(turns[t].queue, p)
  }

  predicate Serves(turn: Turn, p: Priority) {
    turn.index < |turn.queue| && turn.queue[turn.index].priority == p
  }

  function Served(turns: seq<Turn>, p: Priority): nat {
    if turns == [] then 0 else Served(turns[..|turns| - 1], p) + if Serves(turns[|turns| - 1], p) then 1 else 0
  }

  /** How far the search has moved on in all. */
  function Advance(turns: seq<Turn>): nat {
    if turns == [] then 0 else Advance(turns[..|turns| - 1]) + turns[|turns| - 1].offset + 1
  }

  /** A class that has a task is served at its first slot the search comes to. */
  lemma {:induction false} PassedSlots(queue: seq<Queued>, slot: nat, n: nat, p: Priority)
    requires HasClass(queue, p) && PassedOver(queue, slot, slot + n)
    ensures SlotCount(p, slot, n) == 0
  {
    hide HasClass, SlotAt;
    if n != 0 {
      PassedSlots(queue, slot, n - 1, p);
      assert !HasClass(queue, SlotAt(slot + n - 1));
    }
  }

  lemma TurnCounts(turn: Turn, p: Priority)
    requires p != Unknown && HasClass(turn.queue, p) && Chosen(turn.queue, turn.slot, turn.offset, turn.index)
    ensures SlotCount(p, turn.slot, turn.offset + 1) == if Serves(turn, p) then 1 else 0
  {
    hide HasClass, SlotAt;
    SlotInReach(turn.queue, turn.slot, p);
    assert ChosenBySlot(turn.queue, turn.slot, turn.offset, turn.index);
    PassedSlots(turn.queue, turn.slot, turn.offset, p);
  }

  /** While a class has tasks, it is served exactly at its slots. */
  lemma {:induction false} ServedAtSlots(turns: seq<Turn>, p: Priority)
    requires p != Unknown && turns != [] && Consecutive(turns) && StaysNonEmpty(turns, p)
    ensures Served(turns, p) == SlotCount(p, turns[0].slot, Advance(turns))
    ensures 0 < |turns| ==>
      (turns[|turns| - 1].slot + turns[|turns| - 1].offset + 1) % 7 == (turns[0].slot + Advance(turns)) % 7
    ensures |turns| <= Advance(turns)
  {
    hide Chosen, HasClass, SlotCount, Served, Advance, Serves, SlotAt;
    var front, last := turns[..|turns| - 1], turns[|turns| - 1];
    TurnCounts(last, p);
    Unroll(turns, p);
    if front == [] {
      SlotCountStart(p, turns[0].slot);
    } else {
      assert forall t :: 0 <= t < |front| ==> front[t] == turns[t];
      ServedAtSlots(front, p);
      SlotCountAdd(p, turns[0].slot, Advance(front), last.offset + 1);
      SlotCountModulo(p, turns[0].slot + Advance(front), last.offset + 1);
      SlotCountModulo(p, last.slot, last.offset + 1);
      assert last.slot == turns[|turns| - 2 + 1].slot;
      MovedOn(turns[0].slot + Advance(front), last.slot, last.offset + 1);
    }
  }

  lemma Unroll(turns: seq<Turn>, p: Priority)
    requires turns != []
    ensures Served(turns, p) == Served(turns[..|turns| - 1], p) + if Serves(turns[|turns| - 1], p) then 1 else 0
    ensures Advance(turns) == Advance(turns[..|turns| - 1]) + turns[|turns| - 1].offset + 1
    ensures Served([], p) == 0 && Advance([]) == 0
  {
  }

  lemma SlotCountStart(p: Priority, from: nat)
    ensures SlotCount(p, from, 0) == 0
  {
  }

  lemma MovedOn(a: nat, b: nat, n: nat)
    requires b == a % 7
    ensures b % 7 == a % 7 && (b + n) % 7 == (a + n) % 7
  {
  }

  /** In any 7n consecutive dispatches during which a class stays non-empty it is served at least
      n times its weight: 4n for High, 2n for Normal, n for Low. */
  lemma WeightedService(turns: seq<Turn>, p: Priority, n: nat)
    requires p != Unknown && Consecutive(turns) && StaysNonEmpty(turns, p) && |turns| == 7 * n
    ensures n * Weight(p) <= Served(turns, p)
  {
    hide Consecutive, StaysNonEmpty;
    if turns != [] {
      ServedAtSlots(turns, p);
      SlotsPerRounds(p, turns[0].slot, n, Advance(turns));
    }
  }

  // ----- How long a task waits -----

  ghost predicate Increasing(queue: seq<Queued>) {
    forall i, j :: 0 <= i < j < |queue| ==> queue[i].sequence < queue[j].sequence
  }

  function Without(queue: seq<Queued>, i: nat): seq<Queued>
    requires i < |queue|
  {
    queue[..i] + queue[i + 1..]
  }

  /** Between two dispatches the chosen task leaves, and new tasks may arrive at the end. */
  ghost predicate Flows(turns: seq<Turn>) {
    && (forall t :: 0 <= t < |turns| ==> turns[t].index < |turns[t].queue| && Increasing(turns[t].queue))
    && (forall t :: 0 <= t < |turns| - 1 ==> Without(turns[t].queue, turns[t].index) <= turns[t + 1].queue)
  }

  /** How many tasks of its class are ahead of the entry with this sequence number. */
  function Ahead(queue: seq<Queued>, p: Priority, sequence: nat): nat {
    if queue == [] then 0
    else
      var last := queue[|queue| - 1];
      Ahead(queue[..|queue| - 1], p, sequence) + if last.priority == p && last.sequence < sequence then 1 else 0
  }

  ghost predicate Waits(queue: seq<Queued>, p: Priority, sequence: nat) {
    exists i :: 0 <= i < |queue| && queue[i].priority == p && queue[i].sequence == sequence
  }

  lemma {:induction false} AheadConcat(a: seq<Queued>, b: seq<Queued>, p: Priority, sequence: nat)
    ensures Ahead(a + b, p, sequence) == Ahead(a, p, sequence) + Ahead(b, p, sequence)
  {
    if b == [] {
      assert a + b == a;
    } else {
      assert (a + b)[..|a + b| - 1] == a + b[..|b| - 1];
      AheadConcat(a, b[..|b| - 1], p, sequence);
    }
  }

  lemma {:induction false} NoneAhead(queue: seq<Queued>, p: Priority, sequence: nat)
    requires forall i :: 0 <= i < |queue| ==> sequence <= queue[i].sequence
    ensures Ahead(queue, p, sequence) == 0
  {
    if queue != [] {
      NoneAhead(queue[..|queue| - 1], p, sequence);
    }
  }

  lemma AheadWithout(queue: seq<Queued>, i: nat, p: Priority, sequence: nat)
    requires i < |queue|
    ensures Ahead(queue, p, sequence)
      == Ahead(Without(queue, i), p, sequence) + if queue[i].priority == p && queue[i].sequence < sequence then 1 else 0
  {
    hide Ahead;
    var front, back := queue[..i], queue[i + 1..];
    assert queue == front + [queue[i]] + back;
    AheadConcat(front + [queue[i]], back, p, sequence);
    AheadConcat(front, [queue[i]], p, sequence);
    AheadConcat(front, back, p, sequence);
    AheadSingle(queue[i], p, sequence);
  }

  lemma AheadSingle(q: Queued, p: Priority, sequence: nat)
    ensures Ahead([q], p, sequence) == if q.priority == p && q.sequence < sequence then 1 else 0
  {
    assert [q][..0] == [];
  }

  lemma WaitsWithout(queue: seq<Queued>, i: nat, p: Priority, sequence: nat)
    requires i < |queue| && Waits(queue, p, sequence) && queue[i].sequence != sequence
    ensures Waits(Without(queue, i), p, sequence)
  {
    var k :| 0 <= k < |queue| && queue[k].priority == p && queue[k].sequence == sequence;
    assert Without(queue, i)[if k < i then k else k - 1] == queue[k];
  }

  /** A dispatch that does not take the task itself takes one ahead of it exactly if it serves the class. */
  lemma AheadAfterTurn(queue: seq<Queued>, i: nat, p: Priority, sequence: nat)
    requires i < |queue| && Waits(queue, p, sequence) && queue[i].sequence != sequence
    requires queue[i].priority == p ==> OldestOfClass(queue, i)
    ensures Ahead(queue, p, sequence) == Ahead(Without(queue, i), p, sequence) + if queue[i].priority == p then 1 else 0
    ensures Waits(Without(queue, i), p, sequence)
  {
    hide Ahead, Without;
    AheadWithout(queue, i, p, sequence);
    WaitsWithout(queue, i, p, sequence);
    var k :| 0 <= k < |queue| && queue[k].priority == p && queue[k].sequence == sequence;
    assert queue[i].priority == p ==> queue[i].sequence <= queue[k].sequence;
  }

  /** Arrivals stand behind a waiting task. */
  lemma AheadAfterArrivals(before: seq<Queued>, after: seq<Queued>, p: Priority, sequence: nat)
    requires before <= after && Increasing(after) && Waits(before, p, sequence)
    ensures Ahead(after, p, sequence) == Ahead(before, p, sequence) && Waits(after, p, sequence)
  {
    var k :| 0 <= k < |before| && before[k].priority == p && before[k].sequence == sequence;
    assert after[k] == before[k];
    var arrivals := after[|before|..];
    assert after == before + arrivals;
    AheadConcat(before, arrivals, p, sequence);
    forall i | 0 <= i < |arrivals| ensures sequence <= arrivals[i].sequence {
      assert arrivals[i] == after[|before| + i];
    }
    NoneAhead(arrivals, p, sequence);
  }

  ghost predicate NeverTaken(turns: seq<Turn>, sequence: nat) {
    forall t :: 0 <= t < |turns| && turns[t].index < |turns[t].queue| ==>
      turns[t].queue[turns[t].index].sequence != sequence
  }

  /** As long as a task is not taken it waits, and every service of its class brings it forward. */
  lemma {:induction false} WaitsOn(turns: seq<Turn>, p: Priority, sequence: nat)
    requires turns != [] && Consecutive(turns) && Flows(turns) && NeverTaken(turns, sequence) && p != Unknown
    requires Waits(turns[0].queue, p, sequence)
    ensures StaysNonEmpty(turns, p)
    ensures var last := turns[|turns| - 1];
      && Waits(last.queue, p, sequence)
      && Served(turns, p) + Ahead(Without(last.queue, last.index), p, sequence) == Ahead(turns[0].queue, p, sequence)
      && Waits(Without(last.queue, last.index), p, sequence)
  {
    hide Chosen, Ahead, Without, Waits, OldestOfClass, Served, SlotAt;
    var front, last := turns[..|turns| - 1], turns[|turns| - 1];
    Unroll(turns, p);
    if front == [] {
      assert turns[0] == last;
    } else {
      ConsecutiveFront(turns, sequence);
      WaitsOn(front, p, sequence);
      var previous := front[|front| - 1];
      assert turns[|turns| - 2] == previous && turns[|turns| - 2 + 1] == last;
      AheadAfterArrivals(Without(previous.queue, previous.index), last.queue, p, sequence);
    }
    WaitingHasClass(last.queue, p, sequence);
    ServedOldest(last, p);
    AheadAfterTurn(last.queue, last.index, p, sequence);
    forall t | 0 <= t < |turns| ensures HasClass(turns[t].queue, p) {
      if t < |front| {
        assert front[t] == turns[t];
      }
    }
  }

  lemma ConsecutiveFront(turns: seq<Turn>, sequence: nat)
    requires turns != [] && Consecutive(turns) && Flows(turns) && NeverTaken(turns, sequence)
    ensures Consecutive(turns[..|turns| - 1]) && Flows(turns[..|turns| - 1]) &&
      NeverTaken(turns[..|turns| - 1], sequence)
  {
    hide Chosen, Without, Increasing;
    var front := turns[..|turns| - 1];
    assert forall t :: 0 <= t < |front| ==> front[t] == turns[t];
  }

  lemma WaitingHasClass(queue: seq<Queued>, p: Priority, sequence: nat)
    requires Waits(queue, p, sequence)
    ensures HasClass(queue, p)
  {
  }

  /** A class is served oldest first. */
  lemma ServedOldest(turn: Turn, p: Priority)
    requires Chosen(turn.queue, turn.slot, turn.offset, turn.index) && p != Unknown
    ensures Serves(turn, p) ==> OldestOfClass(turn.queue, turn.index)
  {
  }

  /** A task with k older tasks of its class ahead of it is taken within 7(k + 1) dispatches. */
  lemma TakenInTime(turns: seq<Turn>, p: Priority, sequence: nat)
    requires p != Unknown && turns != [] && Consecutive(turns) && Flows(turns)
    requires Waits(turns[0].queue, p, sequence)
    requires |turns| == 7 * (Ahead(turns[0].queue, p, sequence) + 1)
    ensures exists t :: 0 <= t < |turns| && turns[t].queue[turns[t].index].sequence == sequence
  {
    hide Consecutive, Waits, Ahead, Served, StaysNonEmpty;
    var k := Ahead(turns[0].queue, p, sequence);
    if NeverTaken(turns, sequence) {
      WaitsOn(turns, p, sequence);
      WeightedService(turns, p, k + 1);
      AtLeastOnce(k + 1, Weight(p));
    }
  }

  lemma AtLeastOnce(n: nat, weight: nat)
    requires 0 < weight
    ensures n <= n * weight
  {
  }
}
