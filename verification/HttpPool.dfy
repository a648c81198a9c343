/** The socket pool of one client: per-host and total limits, idle expiry, and the fate of every
    handle. */
module HttpPool {
  import opened Text

  datatype Connection = Connection(handle: nat, lastUsed: int)

  /** The idle connections to one host, oldest first. */
  datatype Bucket = Bucket(key: string, idle: seq<Connection>)

  datatype PoolLimits = PoolLimits(perHost: nat, total: nat)

  /** Seconds a connection may stay idle. */
  const IDLE_TTL: int := 30

  predicate Expired(c: Connection, now: int) {
    now - c.lastUsed > IDLE_TTL
  }

  // ----- Handles -----

  function HandlesOf(idle: seq<Connection>): (handles: seq<nat>)
    ensures |handles| == |idle|
  {
    seq(|idle|, i requires 0 <= i < |idle| => idle[i].handle)
  }

  /** All pooled handles, bucket after bucket. */
  function Pooled(buckets: seq<Bucket>): seq<nat> {
    if buckets == [] then [] else HandlesOf(buckets[0].idle) + Pooled(buckets[1..])
  }

  function Total(buckets: seq<Bucket>): nat {
    if buckets == [] then 0 else |buckets[0].idle| + Total(buckets[1..])
  }

  lemma {:induction false} TotalIsPooled(buckets: seq<Bucket>)
    ensures Total(buckets) == |Pooled(buckets)|
  {
    if buckets != [] {
      TotalIsPooled(buckets[1..]);
    }
  }

  lemma HandlesConcat(a: seq<Connection>, b: seq<Connection>)
    ensures HandlesOf(a + b) == HandlesOf(a) + HandlesOf(b)
  {
  }

  lemma {:induction false} PooledConcat(a: seq<Bucket>, b: seq<Bucket>)
    ensures Pooled(a + b) == Pooled(a) + Pooled(b) && Total(a + b) == Total(a) + Total(b)
  {
    if a == [] {
      assert a + b == b;
      assert Pooled(a) + Pooled(b) == Pooled(b);
    } else {
      assert (a + b)[1..] == a[1..] + b;
      PooledConcat(a[1..], b);
      assert HandlesOf(a[0].idle) + (Pooled(a[1..]) + Pooled(b)) == Pooled(a) + Pooled(b);
    }
  }

  /** How often a handle occurs. */
  function Count(handles: seq<nat>, h: nat): nat {
    multiset(handles)[h]
  }

  lemma CountConcat(a: seq<nat>, b: seq<nat>, h: nat)
    ensures Count(a + b, h) == Count(a, h) + Count(b, h)
  {
  }

  /** Replacing one bucket changes the count by the difference of the buckets. */
  lemma ReplaceBucket(buckets: seq<Bucket>, i: nat, b: Bucket, h: nat)
    requires i < |buckets|
    ensures Count(Pooled(buckets[i := b]), h) + Count(HandlesOf(buckets[i].idle), h)
         == Count(Pooled(buckets), h) + Count(HandlesOf(b.idle), h)
    ensures Total(buckets[i := b]) + |buckets[i].idle| == Total(buckets) + |b.idle|
  {
    hide Pooled, Total, HandlesOf, Count;
    var front, back := buckets[..i], buckets[i + 1..];
    assert buckets == front + ([buckets[i]] + back);
    assert buckets[i := b] == front + ([b] + back);
    PooledConcat(front, [buckets[i]] + back);
    PooledConcat([buckets[i]], back);
    PooledConcat(front, [b] + back);
    PooledConcat([b], back);
    SingleBucket(buckets[i]);
    SingleBucket(b);
    CountConcat(Pooled(front), HandlesOf(buckets[i].idle) + Pooled(back), h);
    CountConcat(HandlesOf(buckets[i].idle), Pooled(back), h);
    CountConcat(Pooled(front), HandlesOf(b.idle) + Pooled(back), h);
    CountConcat(HandlesOf(b.idle), Pooled(back), h);
  }

  lemma SingleBucket(b: Bucket)
    ensures Pooled([b]) == HandlesOf(b.idle) && Total([b]) == |b.idle|
  {
    assert [b][1..] == [];
    assert HandlesOf(b.idle) + [] == HandlesOf(b.idle);
  }

  // ----- Expiry -----

  function Fresh(idle: seq<Connection>, now: int): seq<Connection> {
    if idle == [] then []
    else
      var front := Fresh(idle[..|idle| - 1], now);
      if Expired(idle[|idle| - 1], now) then front else front + [idle[|idle| - 1]]
  }

  function Stale(idle: seq<Connection>, now: int): seq<nat> {
    if idle == [] then []
    else
      var front := Stale(idle[..|idle| - 1], now);
      if Expired(idle[|idle| - 1], now) then front + [idle[|idle| - 1].handle] else front
  }

  lemma {:induction false} FreshOrStale(idle: seq<Connection>, now: int, h: nat)
    ensures Count(HandlesOf(idle), h) == Count(HandlesOf(Fresh(idle, now)), h) + Count(Stale(idle, now), h)
    ensures |Fresh(idle, now)| <= |idle|
    ensures forall i :: 0 <= i < |Fresh(idle, now)| ==>
      !Expired(Fresh(idle, now)[i], now) && Fresh(idle, now)[i] in idle
  {
    if idle != [] {
      var front, last := idle[..|idle| - 1], idle[|idle| - 1];
      FreshOrStale(front, now, h);
      assert idle == front + [last];
      HandlesConcat(front, [last]);
      HandlesConcat(Fresh(front, now), [last]);
      assert HandlesOf([last]) == [last.handle];
    }
  }

  /** Buckets without their expired connections; empty buckets disappear. */
  function Pruned(buckets: seq<Bucket>, now: int): seq<Bucket> {
    if buckets == [] then []
    else
      var front := Pruned(buckets[..|buckets| - 1], now);
      var last := buckets[|buckets| - 1];
      if Fresh(last.idle, now) == [] then front else front + [last.(idle := Fresh(last.idle, now))]
  }

  function AllStale(buckets: seq<Bucket>, now: int): seq<nat> {
    if buckets == [] then []
    else AllStale(buckets[..|buckets| - 1], now) + Stale(buckets[|buckets| - 1].idle, now)
  }

  ghost predicate KeysDistinct(buckets: seq<Bucket>) {
    forall i, j :: 0 <= i < j < |buckets| ==> buckets[i].key != buckets[j].key
  }

  ghost predicate WithinPerHost(buckets: seq<Bucket>, limit: nat) {
    forall i :: 0 <= i < |buckets| ==> |buckets[i].idle| <= limit
  }

  /** Pruning closes exactly what it takes out. */
  lemma {:induction false} PrunedOrStale(buckets: seq<Bucket>, now: int, h: nat)
    ensures Count(Pooled(buckets), h) == Count(Pooled(Pruned(buckets, now)), h) + Count(AllStale(buckets, now), h)
    ensures Total(Pruned(buckets, now)) <= Total(buckets)
  {
    hide Count, HandlesOf, Pooled, Total;
    if buckets == [] {
      NothingPooled(h);
    } else {
      var front, last := buckets[..|buckets| - 1], buckets[|buckets| - 1];
      var kept := last.(idle := Fresh(last.idle, now));
      PrunedOrStale(front, now, h);
      FreshOrStale(last.idle, now, h);
      assert buckets == front + [last];
      PooledConcat(front, [last]);
      SingleBucket(last);
      CountConcat(Pooled(front), HandlesOf(last.idle), h);
      CountConcat(AllStale(front, now), Stale(last.idle, now), h);
      PooledConcat(Pruned(front, now), [kept]);
      SingleBucket(kept);
      CountConcat(Pooled(Pruned(front, now)), HandlesOf(kept.idle), h);
      NothingHeld(h);
    }
  }

  lemma NothingPooled(h: nat)
    ensures Count(Pooled([]), h) == 0 && Count([], h) == 0 && Total([]) == 0
  {
  }

  lemma NothingHeld(h: nat)
    ensures Count(HandlesOf([]), h) == 0
  {
  }

  predicate HasKey(buckets: seq<Bucket>, key: string) {
    exists i :: 0 <= i < |buckets| && buckets[i].key == key
  }

  lemma {:induction false} PrunedShape(buckets: seq<Bucket>, now: int, limit: nat)
    ensures KeysDistinct(buckets) ==> KeysDistinct(Pruned(buckets, now))
    ensures WithinPerHost(buckets, limit) ==> WithinPerHost(Pruned(buckets, now), limit)
    ensures forall b :: b in Pruned(buckets, now) ==> b.idle != [] && HasKey(buckets, b.key)
  {
    hide Fresh, Stale;
    if buckets != [] {
      var front, last := buckets[..|buckets| - 1], buckets[|buckets| - 1];
      PrunedShape(front, now, limit);
      FreshOrStale(last.idle, now, 0);
      KeysOfFront(buckets);
      forall b | b in Pruned(front, now)
        ensures HasKey(buckets, b.key) && (KeysDistinct(buckets) ==> b.key != last.key)
      {
        assert HasKey(front, b.key);
      }
      assert buckets[|buckets| - 1].key == last.key && HasKey(buckets, last.key);
    }
  }

  lemma KeysOfFront(buckets: seq<Bucket>)
    requires buckets != []
    ensures forall key :: HasKey(buckets[..|buckets| - 1], key) ==>
      HasKey(buckets, key) && (KeysDistinct(buckets) ==> key != buckets[|buckets| - 1].key)
  {
    var front := buckets[..|buckets| - 1];
    forall key | HasKey(front, key)
      ensures HasKey(buckets, key) && (KeysDistinct(buckets) ==> key != buckets[|buckets| - 1].key)
    {
      var i :| 0 <= i < |front| && front[i].key == key;
      assert buckets[i].key == key;
    }
  }

  /** Part of a bucket is pruned as the whole is: order is kept, and a connection stays exactly if it has been
      idle for at most 30 seconds. */
  lemma {:induction false} FreshByParts(a: seq<Connection>, b: seq<Connection>, c: Connection, now: int)
    ensures Fresh(a + b, now) == Fresh(a, now) + Fresh(b, now)
    ensures Fresh([c], now) == if now - c.lastUsed <= 30 then [c] else []
    decreases |b|
  {
    assert [c][..0] == [];
    if b == [] {
      assert a + b == a;
    } else {
      var front, last := b[..|b| - 1], b[|b| - 1];
      FreshByParts(a, front, c, now);
      assert (a + b)[..|a + b| - 1] == a + front;
    }
  }

  /** The same for buckets; one whose connections are all gone disappears. */
  lemma {:induction false} PrunedByParts(a: seq<Bucket>, b: seq<Bucket>, c: Bucket, now: int)
    ensures Pruned(a + b, now) == Pruned(a, now) + Pruned(b, now)
    ensures Pruned([c], now) == if Fresh(c.idle, now) == [] then [] else [Bucket(c.key, Fresh(c.idle, now))]
    decreases |b|
  {
    hide Fresh;
    assert [c][..0] == [];
    if b == [] {
      assert a + b == a;
    } else {
      var front, last := b[..|b| - 1], b[|b| - 1];
      PrunedByParts(a, front, c, now);
      assert (a + b)[..|a + b| - 1] == a + front;
    }
  }

  lemma {:induction false} FreshIff(idle: seq<Connection>, now: int, c: Connection)
    ensures c in Fresh(idle, now) <==> c in idle && now - c.lastUsed <= 30
  {
    if idle != [] {
      FreshIff(idle[..|idle| - 1], now, c);
      assert idle == idle[..|idle| - 1] + [idle[|idle| - 1]];
    }
  }

  /** The connection is pooled under this key. */
  ghost predicate PooledAt(buckets: seq<Bucket>, key: string, c: Connection) {
    exists b :: b in buckets && b.key == key && c in b.idle
  }

  /** Pruning keeps a connection exactly if it has been idle for at most 30 seconds. */
  lemma {:induction false} PrunedIff(buckets: seq<Bucket>, now: int, key: string, c: Connection)
    ensures PooledAt(Pruned(buckets, now), key, c) <==> PooledAt(buckets, key, c) && now - c.lastUsed <= 30
  {
    hide Fresh;
    if buckets != [] {
      var front, last := buckets[..|buckets| - 1], buckets[|buckets| - 1];
      var kept := last.(idle := Fresh(last.idle, now));
      PrunedIff(front, now, key, c);
      FreshIff(last.idle, now, c);
      assert buckets == front + [last];
      PooledSnoc(front, last, key, c);
      PooledSnoc(Pruned(front, now), kept, key, c);
    }
  }

  lemma PooledSnoc(front: seq<Bucket>, last: Bucket, key: string, c: Connection)
    ensures PooledAt(front + [last], key, c) <==> PooledAt(front, key, c) || (last.key == key && c in last.idle)
  {
    var all := front + [last];
    assert last in all;
    if PooledAt(front, key, c) {
      var b :| b in front && b.key == key && c in b.idle;
      assert b in all;
    }
  }

  lemma {:induction false} StaleIff(idle: seq<Connection>, now: int, h: nat)
    ensures h in Stale(idle, now) <==> exists c :: c in idle && c.handle == h && now - c.lastUsed > 30
  {
    if idle != [] {
      var front, last := idle[..|idle| - 1], idle[|idle| - 1];
      StaleIff(front, now, h);
      assert idle == front + [last];
      assert last in idle;
      assert forall c :: c in front ==> c in idle;
    }
  }

  /** Pruning closes exactly the connections idle for more than 30 seconds. */
  lemma {:induction false} ClosedIff(buckets: seq<Bucket>, now: int, h: nat)
    ensures h in AllStale(buckets, now) <==>
      exists key, c :: PooledAt(buckets, key, c) && c.handle == h && now - c.lastUsed > 30
  {
    hide Stale, PooledAt;
    if buckets == [] {
      assert forall key, c :: !PooledAt([], key, c) by {
        NonePooled();
      }
    } else {
      var front, last := buckets[..|buckets| - 1], buckets[|buckets| - 1];
      ClosedIff(front, now, h);
      StaleIff(last.idle, now, h);
      assert buckets == front + [last];
      forall key, c
        ensures PooledAt(buckets, key, c) <==> PooledAt(front, key, c) || (last.key == key && c in last.idle)
      {
        PooledSnoc(front, last, key, c);
      }
      if c :| c in last.idle && c.handle == h && now - c.lastUsed > 30 {
        assert PooledAt(buckets, last.key, c);
      }
      if key, c :| PooledAt(front, key, c) && c.handle == h && now - c.lastUsed > 30 {
        assert PooledAt(buckets, key, c);
      }
    }
  }

  lemma NonePooled()
    ensures forall key, c :: !PooledAt([], key, c)
  {
  }

  // ----- The pool -----

  /** Every handle the client has ever opened is in exactly one place: pooled, in use, or closed. */
  ghost predicate Accounted(buckets: seq<Bucket>, closed: seq<nat>, inUse: set<nat>, known: set<nat>) {
    forall h :: AccountedFor(buckets, closed, inUse, known, h)
  }

  ghost predicate AccountedFor(buckets: seq<Bucket>, closed: seq<nat>, inUse: set<nat>, known: set<nat>, h: nat) {
    Count(Pooled(buckets), h) + Count(closed, h) + (if h in inUse then 1 else 0) == if h in known then 1 else 0
  }

  lemma AccountedPruned(buckets: seq<Bucket>, closed: seq<nat>, inUse: set<nat>, known: set<nat>, now: int)
    requires Accounted(buckets, closed, inUse, known)
    ensures Accounted(Pruned(buckets, now), closed + AllStale(buckets, now), inUse, known)
  {
    hide Count, Pooled, Pruned, AllStale;
    forall h ensures AccountedFor(Pruned(buckets, now), closed + AllStale(buckets, now), inUse, known, h) {
      assert AccountedFor(buckets, closed, inUse, known, h);
      PrunedOrStale(buckets, now, h);
      CountConcat(closed, AllStale(buckets, now), h);
    }
  }

  /** Some connections at the front of a bucket are closed. */
  lemma AccountedClose(buckets: seq<Bucket>, closed: seq<nat>, inUse: set<nat>, known: set<nat>, i: nat)
    requires Accounted(buckets, closed, inUse, known) && i < |buckets| && buckets[i].idle != []
    ensures var b := buckets[i];
      var after := buckets[i := b.(idle := b.idle[1..])];
      && Accounted(after, closed + [b.idle[0].handle], inUse, known)
      && Total(after) == Total(buckets) - 1
  {
    hide Count, Pooled, Total;
    var b := buckets[i];
    var kept := b.(idle := b.idle[1..]);
    ReplaceBucket(buckets, i, kept, 0);
    var after, log := buckets[i := kept], closed + [b.idle[0].handle];
    forall h ensures AccountedFor(after, log, inUse, known, h) {
      assert AccountedFor(buckets, closed, inUse, known, h);
      ReplaceBucket(buckets, i, kept, h);
      CountConcat(closed, [b.idle[0].handle], h);
      assert b.idle == [b.idle[0]] + kept.idle;
      HandlesConcat([b.idle[0]], kept.idle);
      assert HandlesOf([b.idle[0]]) == [b.idle[0].handle];
      CountConcat([b.idle[0].handle], HandlesOf(kept.idle), h);
    }
  }

  /** The newest connection of a bucket goes back into use. */
  lemma AccountedTake(buckets: seq<Bucket>, closed: seq<nat>, inUse: set<nat>, known: set<nat>, i: nat)
    requires Accounted(buckets, closed, inUse, known) && i < |buckets| && buckets[i].idle != []
    ensures var b := buckets[i];
      var n := |b.idle| - 1;
      var after := buckets[i := b.(idle := b.idle[..n])];
      && b.idle[n].handle !in inUse && b.idle[n].handle in known && b.idle[n].handle !in closed
      && Accounted(after, closed, inUse + {b.idle[n].handle}, known)
      && Total(after) == Total(buckets) - 1
  {
    hide Count, Pooled, Total;
    var b := buckets[i];
    var n := |b.idle| - 1;
    var kept := b.(idle := b.idle[..n]);
    var taken := b.idle[n].handle;
    assert b.idle == kept.idle + [b.idle[n]];
    HandlesConcat(kept.idle, [b.idle[n]]);
    assert HandlesOf([b.idle[n]]) == [taken];
    ReplaceBucket(buckets, i, kept, taken);
    CountConcat(HandlesOf(kept.idle), [taken], taken);
    CountSingle(taken, taken);
    assert AccountedFor(buckets, closed, inUse, known, taken);
    CountPositive(closed, taken);
    var after, used := buckets[i := kept], inUse + {taken};
    forall h ensures AccountedFor(after, closed, used, known, h) {
      assert AccountedFor(buckets, closed, inUse, known, h);
      ReplaceBucket(buckets, i, kept, h);
      CountConcat(HandlesOf(kept.idle), [taken], h);
      CountSingle(taken, h);
    }
  }

  lemma CountSingle(x: nat, h: nat)
    ensures Count([x], h) == if x == h then 1 else 0
  {
  }

  lemma CountPositive(handles: seq<nat>, h: nat)
    ensures Count(handles, h) == 0 <==> h !in handles
  {
  }

  /** A connection in use is put at the end of a bucket. */
  lemma AccountedPut(buckets: seq<Bucket>, closed: seq<nat>, inUse: set<nat>, known: set<nat>, i: nat, c: Connection)
    requires Accounted(buckets, closed, inUse, known) && i < |buckets| && c.handle in inUse
    ensures var after := buckets[i := buckets[i].(idle := buckets[i].idle + [c])];
      && Accounted(after, closed, inUse - {c.handle}, known) && Total(after) == Total(buckets) + 1
  {
    hide Count, Pooled, Total;
    var b := buckets[i];
    var longer := b.(idle := b.idle + [c]);
    ReplaceBucket(buckets, i, longer, 0);
    var after, used := buckets[i := longer], inUse - {c.handle};
    forall h ensures AccountedFor(after, closed, used, known, h) {
      assert AccountedFor(buckets, closed, inUse, known, h);
      ReplaceBucket(buckets, i, longer, h);
      HandlesConcat(b.idle, [c]);
      assert HandlesOf([c]) == [c.handle];
      CountConcat(HandlesOf(b.idle), [c.handle], h);
      CountSingle(c.handle, h);
    }
  }

  lemma AccountedNewBucket(buckets: seq<Bucket>, closed: seq<nat>, inUse: set<nat>, known: set<nat>, key: string)
    requires Accounted(buckets, closed, inUse, known)
    ensures Accounted(buckets + [Bucket(key, [])], closed, inUse, known)
    ensures Total(buckets + [Bucket(key, [])]) == Total(buckets)
  {
    hide Count, Pooled, Total;
    var b := Bucket(key, []);
    PooledConcat(buckets, [b]);
    SingleBucket(b);
    assert Pooled(buckets) + [] == Pooled(buckets);
    forall h ensures AccountedFor(buckets + [b], closed, inUse, known, h) {
      assert AccountedFor(buckets, closed, inUse, known, h);
    }
  }

  lemma {:induction false} TotalOfEmpty(buckets: seq<Bucket>)
    requires forall i :: 0 <= i < |buckets| ==> buckets[i].idle == []
    ensures Total(buckets) == 0
  {
    if buckets != [] {
      TotalOfEmpty(buckets[1..]);
    }
  }

  /** Erasing an empty bucket. */
  lemma AccountedErase(buckets: seq<Bucket>, closed: seq<nat>, inUse: set<nat>, known: set<nat>, i: nat)
    requires Accounted(buckets, closed, inUse, known) && i < |buckets| && buckets[i].idle == []
    ensures Accounted(buckets[..i] + buckets[i + 1..], closed, inUse, known)
    ensures Total(buckets[..i] + buckets[i + 1..]) == Total(buckets)
  {
    hide Count, Pooled, Total, HandlesOf;
    var front, back := buckets[..i], buckets[i + 1..];
    assert buckets == front + ([buckets[i]] + back);
    PooledConcat(front, [buckets[i]] + back);
    PooledConcat([buckets[i]], back);
    PooledConcat(front, back);
    SingleBucket(buckets[i]);
    assert HandlesOf([]) == [];
    assert Pooled(front) + ([] + Pooled(back)) == Pooled(front) + Pooled(back);
    forall h ensures AccountedFor(front + back, closed, inUse, known, h) {
      assert AccountedFor(buckets, closed, inUse, known, h);
    }
  }

  /** A connection is put at the end of the bucket of its host. */
  function PutInto(buckets: seq<Bucket>, key: string, c: Connection): seq<Bucket> {
    if buckets == [] then [Bucket(key, [c])]
    else if buckets[0].key == key then [buckets[0].(idle := buckets[0].idle + [c])] + buckets[1..]
    else [buckets[0]] + PutInto(buckets[1..], key, c)
  }

  lemma {:induction false} PutIntoAt(buckets: seq<Bucket>, key: string, c: Connection, i: nat)
    requires i < |buckets| && buckets[i].key == key && KeysDistinct(buckets)
    ensures PutInto(buckets, key, c) == buckets[i := buckets[i].(idle := buckets[i].idle + [c])]
  {
    if i != 0 {
      PutIntoAt(buckets[1..], key, c, i - 1);
    }
  }

  lemma {:induction false} PutIntoNew(buckets: seq<Bucket>, key: string, c: Connection)
    requires forall j :: 0 <= j < |buckets| ==> buckets[j].key != key
    ensures PutInto(buckets, key, c) == buckets + [Bucket(key, [c])]
  {
    if buckets != [] {
      PutIntoNew(buckets[1..], key, c);
    }
  }

  predicate IsSuffix(a: seq<Connection>, b: seq<Connection>) {
    |a| <= |b| && b[|b| - |a|..] == a
  }

  /** Only oldest connections are missing. */
  ghost predicate Shrunk(before: seq<Bucket>, after: seq<Bucket>) {
    |before| == |after| &&
    forall i :: 0 <= i < |before| ==> before[i].key == after[i].key && IsSuffix(after[i].idle, before[i].idle)
  }

  /** What a bucket keeps under the limit of its host: the newest connections. */
  function Newest(idle: seq<Connection>, limit: nat): (kept: seq<Connection>)
    ensures IsSuffix(kept, idle) && |kept| == if |idle| > limit then limit else |idle|
  {
    if |idle| > limit then idle[|idle| - limit..] else idle
  }

  /** All buckets cut down to the limit of their host. */
  function Capped(buckets: seq<Bucket>, limit: nat): (capped: seq<Bucket>)
    ensures |capped| == |buckets|
    ensures forall i :: 0 <= i < |buckets| ==> capped[i] == buckets[i].(idle := Newest(buckets[i].idle, limit))
  {
    seq(|buckets|, i requires 0 <= i < |buckets| => buckets[i].(idle := Newest(buckets[i].idle, limit)))
  }

  lemma CappedAt(buckets: seq<Bucket>, limit: nat, i: nat)
    requires i < |buckets| && forall k :: 0 <= k < |buckets| && k != i ==> |buckets[k].idle| <= limit
    ensures buckets[i := buckets[i].(idle := Newest(buckets[i].idle, limit))] == Capped(buckets, limit)
    ensures WithinPerHost(Capped(buckets, limit), limit)
  {
  }

  /** A bucket loses connections only once all buckets before it are empty. */
  ghost predicate FromTheFront(before: seq<Bucket>, after: seq<Bucket>)
    requires |before| == |after|
  {
    forall j, k :: 0 <= j < k < |after| && after[k] != before[k] ==> after[j].idle == []
  }

  lemma ShrunkSame(buckets: seq<Bucket>)
    ensures Shrunk(buckets, buckets)
  {
  }

  lemma ShrunkStep(before: seq<Bucket>, after: seq<Bucket>, i: nat)
    requires Shrunk(before, after) && i < |after| && after[i].idle != []
    ensures Shrunk(before, after[i := after[i].(idle := after[i].idle[1..])])
  {
    assert IsSuffix(after[i].idle, before[i].idle);
  }

  /** The newest connection of bucket i is gone, the bucket itself too if it was the last. */
  ghost predicate TakesNewest(before: seq<Bucket>, after: seq<Bucket>, i: nat, key: string, handle: nat) {
    && i < |before| && before[i].key == key && before[i].idle != []
    && before[i].idle[|before[i].idle| - 1].handle == handle
    && after == if |before[i].idle| == 1 then before[..i] + before[i + 1..]
                else before[i := before[i].(idle := before[i].idle[..|before[i].idle| - 1])]
  }

  lemma NewKey(buckets: seq<Bucket>, key: string)
    requires KeysDistinct(buckets) && forall j :: 0 <= j < |buckets| ==> buckets[j].key != key
    ensures KeysDistinct(buckets + [Bucket(key, [])])
  {
  }

  lemma SameKeys(buckets: seq<Bucket>, i: nat, idle: seq<Connection>)
    requires KeysDistinct(buckets) && i < |buckets|
    ensures KeysDistinct(buckets[i := buckets[i].(idle := idle)])
  {
  }

  lemma InUseIsKnown(buckets: seq<Bucket>, closed: seq<nat>, inUse: set<nat>, known: set<nat>, h: nat)
    requires Accounted(buckets, closed, inUse, known) && h in inUse
    ensures h in known
  {
    hide Count, Pooled;
    assert AccountedFor(buckets, closed, inUse, known, h);
  }

  lemma PooledOrClosed(buckets: seq<Bucket>, closed: seq<nat>, inUse: set<nat>, known: set<nat>, h: nat)
    requires Accounted(buckets, closed, inUse, known) && h in known && h !in inUse
    ensures h in Pooled(buckets) <==> h !in closed
  {
    hide Count, Pooled;
    assert AccountedFor(buckets, closed, inUse, known, h);
    CountPositive(closed, h);
    CountPositive(Pooled(buckets), h);
  }

  lemma NothingToTake(buckets: seq<Bucket>, now: int, key: string)
    requires forall b :: b in Pruned(buckets, now) ==> b.key != key
    ensures forall c :: PooledAt(buckets, key, c) ==> now - c.lastUsed > 30
  {
    hide Pruned;
    forall c | PooledAt(buckets, key, c) ensures now - c.lastUsed > 30 {
      PrunedIff(buckets, now, key, c);
    }
  }

  class ConnectionPool {
    const limits: PoolLimits
    var buckets: seq<Bucket>
    /** Every handle that has been closed, in order. */
    var closed: seq<nat>
    ghost var inUse: set<nat>
    ghost var known: set<nat>

    ghost predicate Valid()
      reads this
    {
      && Accounted(buckets, closed, inUse, known) && KeysDistinct(buckets)
      && WithinPerHost(buckets, limits.perHost) && Total(buckets) <= limits.total
    }

    constructor (l: PoolLimits)
      ensures Valid() && limits == l && buckets == [] && closed == [] && inUse == {} && known == {}
    {
      limits := l;
      buckets, closed, inUse, known := [], [], {}, {};
    }

    /** The client connects. */
    method Connect(handle: nat)
      requires Valid() && handle !in known
      modifies `inUse, `known
      ensures Valid() && inUse == old(inUse) + {handle} && known == old(known) + {handle}
    {
      hide Count, Pooled, Total;
      inUse, known := inUse + {handle}, known + {handle};
      forall h ensures AccountedFor(buckets, closed, inUse, known, h) {
        assert AccountedFor(buckets, closed, old(inUse), old(known), h);
      }
    }

    /** `PrunePoolLocked` */
    method Prune(now: int)
      requires Accounted(buckets, closed, inUse, known)
      modifies `buckets, `closed
      ensures buckets == Pruned(old(buckets), now) && closed == old(closed) + AllStale(old(buckets), now)
      ensures Accounted(buckets, closed, inUse, known)
    {
      hide Accounted, Fresh, Stale;
      AccountedPruned(buckets, closed, inUse, known, now);
      var all, kept: seq<Bucket> := buckets, [];
      ghost var before := closed;
      var i := 0;
      assert all[..0] == [] && before + [] == before;
      while i < |all|
        invariant 0 <= i <= |all| && kept == Pruned(all[..i], now)
        invariant closed == before + AllStale(all[..i], now)
      {
        assert all[..i + 1][..i] == all[..i];
        var fresh', stale := Sift(all[i].idle, now);
        assert before + AllStale(all[..i], now) + stale == before + (AllStale(all[..i], now) + stale);
        closed := closed + stale;
        if fresh' != [] {
          kept := kept + [all[i].(idle := fresh')];
        }
        i := i + 1;
      }
      assert all[..|all|] == all;
      buckets := kept;
    }

    /** The inner loop of pruning: what stays and what is closed. */
    method Sift(idle: seq<Connection>, now: int) returns (kept: seq<Connection>, stale: seq<nat>)
      ensures kept == Fresh(idle, now) && stale == Stale(idle, now)
    {
      kept, stale := [], [];
      var i := 0;
      assert idle[..0] == [];
      while i < |idle|
        invariant 0 <= i <= |idle| && kept == Fresh(idle[..i], now) && stale == Stale(idle[..i], now)
      {
        assert idle[..i + 1][..i] == idle[..i];
        if Expired(idle[i], now) {
          stale := stale + [idle[i].handle];
        } else {
          kept := kept + [idle[i]];
        }
        i := i + 1;
      }
      assert idle[..|idle|] == idle;
    }

    /** The bucket of a key. */
    method FindBucket(key: string) returns (found: Option<nat>)
      ensures found.Some? ==> found.value < |buckets| && buckets[found.value].key == key
      ensures found.None? ==> forall j :: 0 <= j < |buckets| ==> buckets[j].key != key
    {
      var i := 0;
      while i < |buckets|
        invariant 0 <= i <= |buckets| && forall j :: 0 <= j < i ==> buckets[j].key != key
      {
        if buckets[i].key == key {
          return Some(i);
        }
        i := i + 1;
      }
      found := None;
    }

    /** `AcquirePooledSocket`: the newest connection to the host that has not expired, if any; it is
        in use from now on and was neither in use nor closed before. */
    method Acquire(key: string, now: int) returns (handle: Option<nat>)
      requires Valid()
      modifies `buckets, `closed, `inUse
      ensures Valid()
      ensures handle.None? ==> buckets == Pruned(old(buckets), now) && inUse == old(inUse)
      ensures handle.None? ==> forall b :: b in Pruned(old(buckets), now) ==> b.key != key
      ensures handle.Some? ==>
        handle.value !in old(inUse) && inUse == old(inUse) + {handle.value} && handle.value in known
      ensures handle.Some? ==> exists i :: TakesNewest(Pruned(old(buckets), now), buckets, i, key, handle.value)
      ensures handle.Some? ==>
        exists c :: PooledAt(old(buckets), key, c) && c.handle == handle.value && now - c.lastUsed <= 30
      ensures handle.None? ==> forall c :: PooledAt(old(buckets), key, c) ==> now - c.lastUsed > 30
      ensures closed == old(closed) + AllStale(old(buckets), now)
    {
      hide Accounted, Pooled, Total, Fresh, Stale, Pruned, AllStale;
      PrunedShape(buckets, now, limits.perHost);
      PrunedOrStale(buckets, now, 0);
      Prune(now);
      ghost var pruned := buckets;
      var found := FindBucket(key);
      if found.None? {
        NothingToTake(old(buckets), now, key);
        return None;
      }
      var i := found.value;
      var b := buckets[i];
      assert b in buckets;
      var n := |b.idle| - 1;
      assert PooledAt(pruned, key, b.idle[n]);
      PrunedIff(old(buckets), now, key, b.idle[n]);
      AccountedTake(buckets, closed, inUse, known, i);
      handle := Some(b.idle[n].handle);
      inUse := inUse + {b.idle[n].handle};
      buckets := buckets[i := b.(idle := b.idle[..n])];
      if n == 0 {
        AccountedErase(buckets, closed, inUse, known, i);
        buckets := buckets[..i] + buckets[i + 1..];
      }
      assert TakesNewest(pruned, buckets, i, key, handle.value);
    }

    /** Closes the oldest connection of a bucket. */
    method CloseOldest(i: nat)
      requires Accounted(buckets, closed, inUse, known) && i < |buckets| && buckets[i].idle != []
      modifies `buckets, `closed
      ensures Accounted(buckets, closed, inUse, known)
      ensures buckets == old(buckets)[i := old(buckets)[i].(idle := old(buckets)[i].idle[1..])]
      ensures closed == old(closed) + [old(buckets)[i].idle[0].handle]
      ensures Total(buckets) == Total(old(buckets)) - 1
    {
      hide Accounted, Total;
      AccountedClose(buckets, closed, inUse, known, i);
      closed := closed + [buckets[i].idle[0].handle];
      buckets := buckets[i := buckets[i].(idle := buckets[i].idle[1..])];
    }

    /** The loop that enforces the limit of one host. */
    method TrimBucket(i: nat)
      requires Accounted(buckets, closed, inUse, known) && KeysDistinct(buckets) && i < |buckets|
      modifies `buckets, `closed
      ensures Accounted(buckets, closed, inUse, known) && KeysDistinct(buckets)
      ensures buckets == old(buckets)[i := old(buckets)[i].(idle := Newest(old(buckets)[i].idle, limits.perHost))]
    {
      hide Accounted, Total, KeysDistinct;
      ghost var full := buckets[i].idle;
      while |buckets[i].idle| > limits.perHost
        invariant |buckets| == |old(buckets)| && buckets == old(buckets)[i := old(buckets)[i].(idle := buckets[i].idle)]
        invariant Accounted(buckets, closed, inUse, known) && KeysDistinct(buckets)
        invariant IsSuffix(buckets[i].idle, full) && (buckets[i].idle == full || |buckets[i].idle| >= limits.perHost)
        decreases |buckets[i].idle|
      {
        SameKeys(buckets, i, buckets[i].idle[1..]);
        CloseOldest(i);
      }
    }

    /** The loop over all buckets that enforces the total limit. */
    method TrimTotal()
      requires Accounted(buckets, closed, inUse, known) && KeysDistinct(buckets) &&
        WithinPerHost(buckets, limits.perHost)
      modifies `buckets, `closed
      ensures Valid()
      ensures Total(buckets) == if Total(old(buckets)) > limits.total then limits.total else Total(old(buckets))
      ensures Shrunk(old(buckets), buckets)
      ensures |buckets| == |old(buckets)| && FromTheFront(old(buckets), buckets)
    {
      hide Accounted, Total, Shrunk;
      ShrunkSame(buckets);
      var i := 0;
      while i < |buckets| && Total(buckets) > limits.total
        invariant 0 <= i <= |buckets|
        invariant Accounted(buckets, closed, inUse, known) && KeysDistinct(buckets) &&
          WithinPerHost(buckets, limits.perHost)
        invariant Shrunk(old(buckets), buckets)
        invariant Total(buckets) <= Total(old(buckets))
        invariant Total(buckets) == Total(old(buckets)) || limits.total <= Total(buckets)
        invariant Total(buckets) > limits.total ==> forall k :: 0 <= k < i ==> buckets[k].idle == []
        invariant |buckets| == |old(buckets)| && FromTheFront(old(buckets), buckets)
        invariant forall k :: i <= k < |buckets| ==> buckets[k] == old(buckets)[k]
        decreases |buckets| - i
      {
        ghost var keys := |buckets|;
        while buckets[i].idle != [] && Total(buckets) > limits.total
          invariant i < |buckets| == keys
          invariant Accounted(buckets, closed, inUse, known) && KeysDistinct(buckets) &&
            WithinPerHost(buckets, limits.perHost)
          invariant Shrunk(old(buckets), buckets)
          invariant Total(buckets) <= Total(old(buckets))
          invariant Total(buckets) == Total(old(buckets)) || limits.total <= Total(buckets)
          invariant Total(buckets) > limits.total ==> forall k :: 0 <= k < i ==> buckets[k].idle == []
          invariant |buckets| == |old(buckets)| && FromTheFront(old(buckets), buckets)
          invariant forall k :: i < k < |buckets| ==> buckets[k] == old(buckets)[k]
          decreases |buckets[i].idle|
        {
          ShrunkStep(old(buckets), buckets, i);
          CloseOldest(i);
        }
        i := i + 1;
      }
      if Total(buckets) > limits.total {
        TotalOfEmpty(buckets);
      }
    }

    /** `ReleasePooledSocket`: a connection that is no longer used goes to the end of its bucket; the
        limits are restored by closing the oldest connections. */
    method Release(key: string, socket: Option<nat>, now: int)
      requires Valid() && (socket.Some? ==> socket.value in inUse)
      modifies `buckets, `closed, `inUse
      ensures Valid()
      ensures socket.Some? ==>
        inUse == old(inUse) - {socket.value} && (socket.value in Pooled(buckets) || socket.value in closed)
      ensures socket.Some? ==>
        var full := Capped(PutInto(Pruned(old(buckets), now), key, Connection(socket.value, now)), limits.perHost);
        && Shrunk(full, buckets) && FromTheFront(full, buckets)
        && Total(buckets) == if Total(full) > limits.total then limits.total else Total(full)
      ensures socket.None? ==> inUse == old(inUse) && buckets == old(buckets) && closed == old(closed)
    {
      hide Accounted, Pooled, Total, Fresh, Stale, Pruned, AllStale, KeysDistinct, Shrunk, PutInto;
      if socket.None? {
        return;
      }
      var handle := socket.value;
      InUseIsKnown(buckets, closed, inUse, known, handle);
      PrunedShape(buckets, now, limits.perHost);
      Prune(now);
      ghost var pruned := buckets;
      var c := Connection(handle, now);
      var found := FindBucket(key);
      if found.None? {
        PutIntoNew(buckets, key, c);
        AccountedNewBucket(buckets, closed, inUse, known, key);
        NewKey(buckets, key);
        buckets := buckets + [Bucket(key, [])];
      }
      var i := if found.Some? then found.value else |buckets| - 1;
      if found.Some? {
        PutIntoAt(buckets, key, c, i);
      }
      AccountedPut(buckets, closed, inUse, known, i, c);
      inUse := inUse - {handle};
      SameKeys(buckets, i, buckets[i].idle + [c]);
      buckets := buckets[i := buckets[i].(idle := buckets[i].idle + [c])];
      if found.None? {
        assert [] + [c] == [c];
        assert buckets == pruned + [Bucket(key, [c])];
      }
      assert buckets == PutInto(pruned, key, c);
      ghost var full := buckets;
      TrimBucket(i);
      CappedAt(full, limits.perHost, i);
      TrimTotal();
      PooledOrClosed(buckets, closed, inUse, known, handle);
    }
  }
}
