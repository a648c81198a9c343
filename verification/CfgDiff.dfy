/** Comparing two configuration snapshots through their flattened leaves. */
module CfgDiff {
  import opened Text
  import opened CfgPath
  import opened CfgNode
  import opened CfgMerge

  type Flat = map<string, Node>

  // ----- Equality of trees -----

  /** Objects are equal when they have the same keys with equal nodes, in any order. */
  function Equals(a: Node, b: Node): bool
    decreases a
  {
    match (a, b)
    case (Object(left), Object(right)) =>
      |left| == |right| &&
      forall i :: 0 <= i < |left| ==>
        Get(right, left[i].0).Some? && Equals(left[i].1, Get(right, left[i].0).value)
    case (Array(left), Array(right)) =>
      |left| == |right| && forall i :: 0 <= i < |left| ==> Equals(left[i], right[i])
    case _ => a == b
  }

  method NodeEquals(a: Node, b: Node) returns (equal: bool)
    ensures equal == Equals(a, b)
    decreases a
  {
    match (a, b)
    case (Object(left), Object(right)) =>
      if |left| != |right| {
        return false;
      }
      for i := 0 to |left|
        invariant forall j :: 0 <= j < i ==>
                    Get(right, left[j].0).Some? && Equals(left[j].1, Get(right, left[j].0).value)
      {
        var index := FindObjectIndex(right, left[i].0);
        if index.None? {
          return false;
        }
        var same := NodeEquals(left[i].1, right[index.value].1);
        if !same {
          return false;
        }
      }
      return true;
    case (Array(left), Array(right)) =>
      if |left| != |right| {
        return false;
      }
      for i := 0 to |left|
        invariant forall j :: 0 <= j < i ==> Equals(left[j], right[j])
      {
        var same := NodeEquals(left[i], right[i]);
        if !same {
          return false;
        }
      }
      return true;
    case _ =>
      return a == b;
  }

  /** On leaves, equality is equality of kind and value. */
  lemma LeavesEqualIff(a: Node, b: Node)
    requires IsLeaf(a) || IsLeaf(b)
    ensures Equals(a, b) <==> a == b
  {
  }

  // ----- Equality by leaves -----

  /** Every tree has a leaf. */
  lemma {:induction false} SomeLeaf(node: Node) returns (q: seq<Token>)
    ensures LeafAt(node, q)
    decreases node
  {
    if IsLeaf(node) {
      q := [];
    } else if node.Object? {
      var t := Key(node.entries[0].0);
      FindIndexIs(node.entries, node.entries[0].0, 0);
      var rest := SomeLeaf(node.entries[0].1);
      q := [t] + rest;
      assert q[1..] == rest;
    } else {
      var rest := SomeLeaf(node.items[0]);
      q := [Index(0)] + rest;
      assert q[1..] == rest;
    }
  }

  ghost predicate SameLeaves(a: Node, b: Node) {
    (forall q :: LeafAt(a, q) <==> LeafAt(b, q)) &&
    forall q :: LeafAt(a, q) && LeafAt(b, q) ==> At(a, q) == At(b, q)
  }

  lemma LeafOfChild(node: Node, t: Token, q: seq<Token>)
    requires Child(node, t).Ok?
    ensures LeafAt(node, [t] + q) <==> LeafAt(Child(node, t).value, q)
    ensures At(node, [t] + q) == At(Child(node, t).value, q)
  {
    assert ([t] + q)[1..] == q;
  }

  lemma SameLeavesOfChildren(a: Node, b: Node, t: Token)
    requires SameLeaves(a, b) && Child(a, t).Ok? && Child(b, t).Ok?
    ensures SameLeaves(Child(a, t).value, Child(b, t).value)
  {
    forall q
      ensures LeafAt(Child(a, t).value, q) <==> LeafAt(Child(b, t).value, q)
      ensures LeafAt(Child(a, t).value, q) && LeafAt(Child(b, t).value, q) ==>
                At(Child(a, t).value, q) == At(Child(b, t).value, q)
    {
      LeafOfChild(a, t, q);
      LeafOfChild(b, t, q);
    }
  }

  lemma SameLeavesSameChildren(a: Node, b: Node, t: Token)
    requires SameLeaves(a, b) && Child(a, t).Ok?
    ensures Child(b, t).Ok?
  {
    var q := SomeLeaf(Child(a, t).value);
    LeafOfChild(a, t, q);
    assert LeafAt(b, [t] + q);
    assert ([t] + q)[0] == t;
  }

  function Keys(entries: seq<(string, Node)>): set<string> {
    set i | 0 <= i < |entries| :: entries[i].0
  }

  lemma {:induction false} KeysCount(entries: seq<(string, Node)>)
    requires DistinctKeys(entries)
    ensures |Keys(entries)| == |entries|
  {
    if entries != [] {
      var init := entries[..|entries| - 1];
      KeysCount(init);
      assert Keys(entries) == Keys(init) + {entries[|entries| - 1].0};
    }
  }

  lemma GetIsKey(entries: seq<(string, Node)>, k: string)
    ensures Get(entries, k).Some? <==> k in Keys(entries)
  {
  }

  lemma {:induction false} SameLeavesEqual(a: Node, b: Node)
    requires UniqueKeys(a) && UniqueKeys(b) && SameLeaves(a, b)
    ensures Equals(a, b)
    decreases a
  {
    if IsLeaf(a) || IsLeaf(b) {
      assert LeafAt(a, []) == LeafAt(b, []);
      assert At(a, []) == At(b, []);
      LeavesEqualIff(a, b);
      return;
    }
    forall t
      ensures Child(a, t).Ok? <==> Child(b, t).Ok?
    {
      if Child(a, t).Ok? {
        SameLeavesSameChildren(a, b, t);
      }
      if Child(b, t).Ok? {
        SameLeavesSameChildren(b, a, t);
      }
    }
    if a.Object? {
      FindIndexIs(a.entries, a.entries[0].0, 0);
      assert Child(b, Key(a.entries[0].0)).Ok?;
      forall i | 0 <= i < |a.entries|
        ensures Get(b.entries, a.entries[i].0).Some? && Equals(a.entries[i].1, Get(b.entries, a.entries[i].0).value)
      {
        var t := Key(a.entries[i].0);
        FindIndexIs(a.entries, a.entries[i].0, i);
        SameLeavesOfChildren(a, b, t);
        assert UniqueKeys(b.entries[FindIndex(b.entries, a.entries[i].0)].1);
        SameLeavesEqual(a.entries[i].1, Child(b, t).value);
      }
      forall k
        ensures k in Keys(a.entries) <==> k in Keys(b.entries)
      {
        GetIsKey(a.entries, k);
        GetIsKey(b.entries, k);
        assert Child(a, Key(k)).Ok? <==> Child(b, Key(k)).Ok?;
      }
      assert Keys(a.entries) == Keys(b.entries);
      KeysCount(a.entries);
      KeysCount(b.entries);
    } else {
      assert Child(b, Index(0)).Ok?;
      assert Child(a, Index(|a.items|)).Err? && Child(b, Index(|b.items|)).Err?;
      assert |a.items| == |b.items|;
      forall i | 0 <= i < |a.items|
        ensures Equals(a.items[i], b.items[i])
      {
        SameLeavesOfChildren(a, b, Index(i));
        SameLeavesEqual(a.items[i], b.items[i]);
      }
    }
  }

  lemma EqualObjectsSameKeys(left: seq<(string, Node)>, right: seq<(string, Node)>)
    requires DistinctKeys(left) && DistinctKeys(right) && |left| == |right|
    requires forall i :: 0 <= i < |left| ==> Get(right, left[i].0).Some?
    ensures Keys(left) == Keys(right)
  {
    KeysCount(left);
    KeysCount(right);
    assert Keys(left) <= Keys(right) by {
      forall k | k in Keys(left)
        ensures k in Keys(right)
      {
        GetIsKey(right, k);
      }
    }
    SubsetOfEqualSize(Keys(left), Keys(right));
  }

  lemma SubsetOfEqualSize(a: set<string>, b: set<string>)
    requires a <= b && |a| == |b|
    ensures a == b
  {
    assert |b - a| == |b| - |a|;
  }

  lemma {:induction false} EqualSameLeaves(a: Node, b: Node)
    requires UniqueKeys(a) && UniqueKeys(b) && Equals(a, b)
    ensures SameLeaves(a, b)
    decreases a
  {
    forall q
      ensures LeafAt(a, q) <==> LeafAt(b, q)
      ensures LeafAt(a, q) && LeafAt(b, q) ==> At(a, q) == At(b, q)
    {
      EqualLeafAt(a, b, q);
    }
  }

  lemma {:induction false} EqualLeafAt(a: Node, b: Node, q: seq<Token>)
    requires UniqueKeys(a) && UniqueKeys(b) && Equals(a, b)
    ensures LeafAt(a, q) <==> LeafAt(b, q)
    ensures LeafAt(a, q) && LeafAt(b, q) ==> At(a, q) == At(b, q)
    decreases |q|
  {
    if q == [] {
      if IsLeaf(a) || IsLeaf(b) {
        LeavesEqualIff(a, b);
      }
      return;
    }
    if a.Object? && q[0].Key? {
      EqualObjectsSameKeys(a.entries, b.entries);
      GetIsKey(a.entries, q[0].key);
      GetIsKey(b.entries, q[0].key);
      AtKey(a, q);
      AtKey(b, q);
      var i, j := FindIndex(a.entries, q[0].key), FindIndex(b.entries, q[0].key);
      if i < |a.entries| {
        assert UniqueKeys(a.entries[i].1) && UniqueKeys(b.entries[j].1);
        EqualLeafAt(a.entries[i].1, b.entries[j].1, q[1..]);
      }
    } else if a.Array? && q[0].Index? && q[0].index < |a.items| {
      EqualLeafAt(a.items[q[0].index], b.items[q[0].index], q[1..]);
    }
  }

  // ----- Flattening -----

  ghost predicate SameEntry(before: Flat, after: Flat, s: string) {
    (s in before <==> s in after) && (s in before ==> before[s] == after[s])
  }

  /** `v` is the leaf of `node`, which sits at `p`, whose printed path is `s`. */
  ghost predicate LeafValue(s: string, p: seq<Token>, node: Node, v: Node) {
    exists q :: s == Format(p + q) && LeafAt(node, q) && At(node, q).value == v
  }

  ghost predicate Flattened(before: Flat, after: Flat, p: seq<Token>, node: Node) {
    forall s: string ::
      if LeafName(s, p, node) then s in after && LeafValue(s, p, node, after[s]) else SameEntry(before, after, s)
  }

  ghost predicate FlattenedChildren(before: Flat, after: Flat, p: seq<Token>, tokens: seq<Token>, node: Node) {
    forall s: string ::
      if ChildLeafName(s, p, tokens, node) then s in after && LeafValue(s, p, node, after[s])
      else SameEntry(before, after, s)
  }

  lemma LeafValueUnder(s: string, p: seq<Token>, t: Token, node: Node, v: Node)
    requires Child(node, t).Ok? && LeafValue(s, p + [t], Child(node, t).value, v)
    ensures LeafValue(s, p, node, v)
  {
    hide Format;
    var q :| s == Format(p + [t] + q) && LeafAt(Child(node, t).value, q) && At(Child(node, t).value, q).value == v;
    assert p + [t] + q == p + ([t] + q);
    LeafOfChild(node, t, q);
  }

  lemma FlattenChild(before: Flat, mid: Flat, after: Flat, p: seq<Token>, tokens: seq<Token>, t: Token, node: Node)
    requires FlattenedChildren(before, mid, p, tokens, node) && Child(node, t).Ok?
    requires Flattened(mid, after, p + [t], Child(node, t).value)
    ensures FlattenedChildren(before, after, p, tokens + [t], node)
  {
    hide Format, LeafName, LeafValue;
    forall s: string
      ensures if ChildLeafName(s, p, tokens + [t], node) then s in after && LeafValue(s, p, node, after[s])
              else SameEntry(before, after, s)
    {
      OneMoreChild(s, p, tokens, t, node);
      if LeafName(s, p + [t], Child(node, t).value) {
        LeafValueUnder(s, p, t, node, after[s]);
      } else {
        assert SameEntry(mid, after, s);
      }
    }
  }

  lemma AllChildrenFlattened(before: Flat, after: Flat, p: seq<Token>, tokens: seq<Token>, node: Node)
    requires FlattenedChildren(before, after, p, tokens, node) && !IsLeaf(node)
    requires forall t :: Child(node, t).Ok? ==> t in tokens
    ensures Flattened(before, after, p, node)
  {
    hide Format, LeafName, LeafValue;
    forall s: string
      ensures LeafName(s, p, node) <==> ChildLeafName(s, p, tokens, node)
    {
      if LeafName(s, p, node) {
        var t := LeafNameInside(s, p, node);
        var j :| 0 <= j < |tokens| && tokens[j] == t;
      }
      if ChildLeafName(s, p, tokens, node) {
        var j :| 0 <= j < |tokens| && Child(node, tokens[j]).Ok? &&
          LeafName(s, p + [tokens[j]], Child(node, tokens[j]).value);
        LeafNameUnder(s, p, tokens[j], node, Child(node, tokens[j]).value);
      }
    }
  }

  lemma FlattenedLeaf(before: Flat, p: seq<Token>, node: Node)
    requires IsLeaf(node)
    ensures Flattened(before, before[Format(p) := node], p, node)
  {
    hide Format;
    assert p + [] == p;
    assert LeafAt(node, []);
    forall s: string
      ensures LeafName(s, p, node) <==> s == Format(p)
    {
      if LeafName(s, p, node) {
        var q :| s == Format(p + q) && LeafAt(node, q);
        NothingInsideLeaf(node, q);
      }
    }
    assert LeafValue(Format(p), p, node, node);
  }

  /** Below a leaf root the library files its value under "value". */
  function FiledAt(node: Node, p: seq<Token>): seq<Token> {
    if p == [] && IsLeaf(node) then [Key("value")] else p
  }

  lemma {:induction false} PlainEscapes(s: string)
    requires forall i :: 0 <= i < |s| ==> !NeedsEscape(s[i])
    ensures EscapeChars(s) == s
  {
    if s != "" {
      PlainEscapes(s[..|s| - 1]);
    }
  }

  lemma ValueKeyPrints()
    ensures Format([Key("value")]) == "value"
  {
    PlainEscapes("value");
    assert [Key("value")][..0] == [];
  }

  method FlattenLeafNodes(node: Node, path: string, flat: Flat, ghost p: seq<Token>) returns (out: Flat)
    requires path == Format(p) && UniqueKeys(node)
    ensures Flattened(flat, out, FiledAt(node, p), node)
    decreases node, 1
  {
    hide Format, LeafName, LeafValue, Flattened, FlattenedChildren;
    FormatNonempty(p);
    if node.Object? && node.entries != [] {
      out := FlattenEntries(node, path, flat, p);
      return;
    }
    if node.Array? && node.items != [] {
      out := FlattenItems(node, path, flat, p);
      return;
    }
    ValueKeyPrints();
    FlattenedLeaf(flat, FiledAt(node, p), node);
    out := flat[if path == "" then "value" else path := node];
  }

  method FlattenEntries(node: Node, path: string, flat: Flat, ghost p: seq<Token>) returns (out: Flat)
    requires path == Format(p) && UniqueKeys(node) && node.Object? && node.entries != []
    ensures Flattened(flat, out, p, node)
    decreases node, 0
  {
    hide Format, LeafName, LeafValue, Flattened, FlattenedChildren, EscapeSegment;
    out := flat;
    ghost var tokens: seq<Token> := [];
    NoChildFlattened(flat, p, node);
    for i := 0 to |node.entries|
      invariant |tokens| == i && forall j :: 0 <= j < i ==> tokens[j] == Key(node.entries[j].0)
      invariant FlattenedChildren(flat, out, p, tokens, node)
    {
      var entry := node.entries[i];
      var key := EscapePathSegment(entry.0);
      ghost var mid := out;
      FindIndexIs(node.entries, entry.0, i);
      FormatOfChild(p, Key(entry.0));
      out := FlattenLeafNodes(entry.1, JoinObjectPath(path, key), out, p + [Key(entry.0)]);
      FlattenChild(flat, mid, out, p, tokens, Key(entry.0), node);
      tokens := tokens + [Key(entry.0)];
    }
    EntriesListed(node, tokens);
    AllChildrenFlattened(flat, out, p, tokens, node);
  }

  method FlattenItems(node: Node, path: string, flat: Flat, ghost p: seq<Token>) returns (out: Flat)
    requires path == Format(p) && UniqueKeys(node) && node.Array? && node.items != []
    ensures Flattened(flat, out, p, node)
    decreases node, 0
  {
    hide Format, LeafName, LeafValue, Flattened, FlattenedChildren, EscapeSegment;
    out := flat;
    ghost var tokens: seq<Token> := [];
    NoChildFlattened(flat, p, node);
    for i := 0 to |node.items|
      invariant |tokens| == i && forall j :: 0 <= j < i ==> tokens[j] == Index(j)
      invariant FlattenedChildren(flat, out, p, tokens, node)
    {
      ghost var mid := out;
      FormatOfChild(p, Index(i));
      out := FlattenLeafNodes(node.items[i], JoinIndex(path, i), out, p + [Index(i)]);
      FlattenChild(flat, mid, out, p, tokens, Index(i), node);
      tokens := tokens + [Index(i)];
    }
    ItemsListed(node, tokens);
    AllChildrenFlattened(flat, out, p, tokens, node);
  }

  lemma NoChildFlattened(flat: Flat, p: seq<Token>, node: Node)
    ensures FlattenedChildren(flat, flat, p, [], node)
  {
  }

  // ----- The diff -----

  datatype DiffKind = Added | Removed | Changed

  datatype DiffEntry = DiffEntry(path: string, kind: DiffKind, layer: Layer)

  /** The tree whose leaves a root is compared by: a leaf root counts as the object {"value": root}. */
  function Filed(root: Node): Node {
    if IsLeaf(root) then Object([("value", root)]) else root
  }

  ghost predicate FlatOf(flat: Flat, root: Node) {
    forall s: string ::
      (s in flat <==> LeafName(s, [], root)) && (s in flat ==> LeafValue(s, [], root, flat[s]))
  }

  lemma FlatOfFiled(flat: Flat, root: Node)
    requires Flattened(map[], flat, FiledAt(root, []), root)
    ensures FlatOf(flat, Filed(root))
  {
    hide Format, LeafAt;
    if IsLeaf(root) {
      var t, filed := Key("value"), Filed(root);
      FindIndexIs(filed.entries, "value", 0);
      forall s: string
        ensures LeafName(s, [], filed) <==> LeafName(s, [t], root)
        ensures s in flat ==> LeafValue(s, [], filed, flat[s])
      {
        assert [] + [t] == [t] && Child(filed, t) == Ok(root);
        if LeafName(s, [t], root) {
          LeafNameUnder(s, [], t, filed, root);
          LeafValueUnder(s, [], t, filed, flat[s]);
        }
        if LeafName(s, [], filed) {
          var u := LeafNameInside(s, [], filed);
          assert u == t;
        }
        assert !LeafName(s, [t], root) ==> SameEntry(map[], flat, s);
      }
    } else {
      forall s: string
        ensures s in flat <==> LeafName(s, [], root)
      {
        assert !LeafName(s, [], root) ==> SameEntry(map[], flat, s);
      }
    }
  }

  /** A path is reported with this kind exactly when ... */
  ghost predicate Differs(prior: Flat, next: Flat, s: string, kind: DiffKind) {
    match kind
    case Added => s !in prior && s in next
    case Removed => s in prior && s !in next
    case Changed => s in prior && s in next && prior[s] != next[s]
  }

  function LayerOf(trace: Trace, s: string): Layer {
    if s in trace then trace[s] else Base
  }

  method BuildDiffEntries(prior: Option<Node>, next: Node, trace: Trace)
    returns (entries: seq<DiffEntry>, ghost priorFlat: Flat, ghost nextFlat: Flat)
    requires UniqueKeys(next) && (prior.Some? ==> UniqueKeys(prior.value))
    ensures FlatOf(nextFlat, Filed(next)) &&
      if prior.None? then priorFlat == map[] else FlatOf(priorFlat, Filed(prior.value))
    ensures forall e :: e in entries <==>
              Differs(priorFlat, nextFlat, e.path, e.kind) &&
              e.layer == if e.kind == Removed then Base else LayerOf(trace, e.path)
    ensures Ascending(PathsOf(entries)) && forall i, j :: 0 <= i < j < |entries| ==> entries[i] != entries[j]
    ensures prior.Some? ==> (entries == [] <==> Equals(Filed(prior.value), Filed(next)))
  {
    hide Format, FlatOf, Flattened, UniqueKeys;
    FormatNonempty([]);
    var before, after: Flat := map[], map[];
    if prior.Some? {
      before := FlattenLeafNodes(prior.value, "", before, []);
      FlatOfFiled(before, prior.value);
    }
    after := FlattenLeafNodes(next, "", after, []);
    FlatOfFiled(after, next);
    priorFlat, nextFlat := before, after;
    var diff: set<DiffEntry> := {};
    var rest := after.Keys;
    while rest != {}
      invariant rest <= after.Keys
      invariant forall e :: e in diff <==>
                  e.path in after.Keys - rest && e.kind != Removed && Differs(before, after, e.path, e.kind) &&
                  e.layer == LayerOf(trace, e.path)
    {
      var path :| path in rest;
      rest := rest - {path};
      if path !in before {
        diff := diff + {DiffEntry(path, Added, LayerOf(trace, path))};
      } else {
        var same := NodeEquals(before[path], after[path]);
        FlatHoldsLeaves(after, Filed(next), path);
        LeavesEqualIff(before[path], after[path]);
        if !same {
          diff := diff + {DiffEntry(path, Changed, LayerOf(trace, path))};
        }
      }
    }
    ghost var compared := diff;
    rest := before.Keys;
    while rest != {}
      invariant rest <= before.Keys
      invariant forall e :: e in diff <==>
                  e in compared || (e.path in before.Keys - rest && e.path !in after && e.kind == Removed &&
                    e.layer == Base)
    {
      var path :| path in rest;
      rest := rest - {path};
      if path !in after {
        diff := diff + {DiffEntry(path, Removed, Base)};
      }
    }
    entries := SortByPath(diff);
    if prior.Some? {
      FiledUnique(prior.value);
      FiledUnique(next);
      EmptyDiffIsEquality(before, after, Filed(prior.value), Filed(next));
      NothingListed(before, after, trace, entries);
    }
  }

  lemma NothingListed(before: Flat, after: Flat, trace: Trace, entries: seq<DiffEntry>)
    requires forall e :: e in entries <==>
               Differs(before, after, e.path, e.kind) &&
               e.layer == if e.kind == Removed then Base else LayerOf(trace, e.path)
    ensures entries == [] <==> NoDifference(before, after)
  {
    if entries == [] {
      forall s: string, kind: DiffKind ensures !Differs(before, after, s, kind) {
        var e := DiffEntry(s, kind, if kind == Removed then Base else LayerOf(trace, s));
        assert e !in entries;
      }
    } else {
      var e := entries[0];
      assert e in entries && Differs(before, after, e.path, e.kind);
    }
  }

  function PathsOf(entries: seq<DiffEntry>): (paths: seq<string>)
    ensures |paths| == |entries| && forall i :: 0 <= i < |paths| ==> paths[i] == entries[i].path
  {
    seq(|entries|, i requires 0 <= i < |entries| => entries[i].path)
  }

  /** The final sort of the entries, no two of which have the same path. */
  method SortByPath(diff: set<DiffEntry>) returns (entries: seq<DiffEntry>)
    requires forall d, e :: d in diff && e in diff && d.path == e.path ==> d == e
    ensures Ascending(PathsOf(entries)) && forall i, j :: 0 <= i < j < |entries| ==> entries[i] != entries[j]
    ensures forall e :: e in entries <==> e in diff
  {
    entries := [];
    var rest := diff;
    while rest != {}
      invariant rest <= diff && forall e :: e in entries <==> e in diff - rest
      invariant forall i, j :: 0 <= i < j < |entries| ==> entries[i] != entries[j]
      invariant Ascending(PathsOf(entries))
      invariant forall e, d :: e in entries && d in rest ==> LexLe(e.path, d.path)
    {
      var paths := set e | e in rest :: e.path;
      assert paths != {} by {
        var e :| e in rest;
        assert e.path in paths;
      }
      var least := Smallest(paths);
      var next :| next in rest && next.path == least;
      AscendingSnoc(PathsOf(entries), least);
      assert PathsOf(entries + [next]) == PathsOf(entries) + [least];
      entries := entries + [next];
      rest := rest - {next};
    }
  }

  lemma FiledUnique(root: Node)
    requires UniqueKeys(root)
    ensures UniqueKeys(Filed(root))
  {
  }

  ghost predicate NoDifference(prior: Flat, next: Flat) {
    forall s: string, kind: DiffKind :: !Differs(prior, next, s, kind)
  }

  /** Flattened snapshots agree exactly when the trees are equal. */
  lemma EmptyDiffIsEquality(prior: Flat, next: Flat, a: Node, b: Node)
    requires FlatOf(prior, a) && FlatOf(next, b) && UniqueKeys(a) && UniqueKeys(b)
    ensures NoDifference(prior, next) <==> Equals(a, b)
  {
    hide FlatOf, UniqueKeys, Equals, SameLeaves, NoDifference;
    if NoDifference(prior, next) {
      NoDifferenceSameLeaves(prior, next, a, b);
      SameLeavesEqual(a, b);
    }
    if Equals(a, b) {
      EqualSameLeaves(a, b);
      SameLeavesNoDifference(prior, next, a, b);
    }
  }

  lemma NoDifferenceSameLeaves(prior: Flat, next: Flat, a: Node, b: Node)
    requires FlatOf(prior, a) && FlatOf(next, b) && NoDifference(prior, next)
    ensures SameLeaves(a, b)
  {
    hide FlatOf, Equals, LeafAt, At, Format;
    forall q
      ensures LeafAt(a, q) <==> LeafAt(b, q)
      ensures LeafAt(a, q) && LeafAt(b, q) ==> At(a, q).Ok? && At(b, q).Ok? && At(a, q) == At(b, q)
    {
      LeafIsOk(a, q);
      LeafIsOk(b, q);
      FlatAt(prior, a, q);
      FlatAt(next, b, q);
      assert !Differs(prior, next, Format(q), Added) && !Differs(prior, next, Format(q), Removed);
      assert !Differs(prior, next, Format(q), Changed);
    }
  }

  lemma SameLeavesNoDifference(prior: Flat, next: Flat, a: Node, b: Node)
    requires FlatOf(prior, a) && FlatOf(next, b) && SameLeaves(a, b)
    ensures NoDifference(prior, next)
  {
    hide FlatOf, Equals, LeafAt, At, Format;
    forall s: string, kind: DiffKind
      ensures !Differs(prior, next, s, kind)
    {
      if s in prior {
        var q := FlatPath(prior, a, s);
        LeafIsOk(a, q);
        FlatAt(next, b, q);
      }
      if s in next {
        var q := FlatPath(next, b, s);
        LeafIsOk(b, q);
        FlatAt(prior, a, q);
      }
    }
  }

  /** The leaf that a flattened entry stands for. */
  lemma FlatPath(flat: Flat, root: Node, s: string) returns (q: seq<Token>)
    requires FlatOf(flat, root) && s in flat
    ensures s == Format(q) && LeafAt(root, q) && At(root, q).Ok? && flat[s] == At(root, q).value
  {
    hide Format;
    q :| s == Format([] + q) && LeafAt(root, q);
    assert [] + q == q;
    FlatAt(flat, root, q);
  }

  lemma FlatHoldsLeaves(flat: Flat, root: Node, s: string)
    requires FlatOf(flat, root) && s in flat
    ensures IsLeaf(flat[s])
  {
    var q := FlatPath(flat, root, s);
  }

  lemma FlatAt(flat: Flat, root: Node, q: seq<Token>)
    requires FlatOf(flat, root)
    ensures Format(q) in flat <==> LeafAt(root, q)
    ensures LeafAt(root, q) ==> flat[Format(q)] == At(root, q).value
  {
    hide Format;
    var s := Format(q);
    assert [] + q == q;
    if s in flat {
      var r :| s == Format([] + r) && LeafAt(root, r) && At(root, r).value == flat[s];
      assert [] + r == r;
      FormatInjective(q, r);
    }
  }

  /** An object holding just this leaf under "value". */
  ghost predicate HoldsUnderValue(wrapper: Node, leaf: Node) {
    IsLeaf(leaf) && wrapper.Object? && |wrapper.entries| == 1 && wrapper.entries[0].0 == "value" &&
    leaf == wrapper.entries[0].1
  }

  /** The diff confuses exactly a leaf root with an object holding that leaf under "value"; for
      every other pair of roots an empty diff means equal snapshots and conversely. */
  lemma DiffMisleadsIff(a: Node, b: Node)
    ensures (Equals(Filed(a), Filed(b)) <==> Equals(a, b)) <==> !(HoldsUnderValue(b, a) || HoldsUnderValue(a, b))
  {
    hide Equals, Get;
    if IsLeaf(a) && !IsLeaf(b) {
      LeafAgainstTree(a, b);
    } else if IsLeaf(b) && !IsLeaf(a) {
      LeafAgainstTree(b, a);
    } else if IsLeaf(a) {
      FiledLeaves(a, b);
    }
  }

  /** A leaf root and another root: never equal, and filed alike exactly if the other one is the object
      the leaf is filed as. */
  lemma LeafAgainstTree(leaf: Node, other: Node)
    requires IsLeaf(leaf) && !IsLeaf(other)
    ensures !Equals(leaf, other) && !Equals(other, leaf)
    ensures Equals(Filed(leaf), other) <==> HoldsUnderValue(other, leaf)
    ensures Equals(other, Filed(leaf)) <==> HoldsUnderValue(other, leaf)
  {
    if other.Object? && |other.entries| == 1 {
      FindIndexIs(Filed(leaf).entries, "value", 0);
      FindIndexIs(other.entries, other.entries[0].0, 0);
      LeavesEqualIff(leaf, other.entries[0].1);
      LeavesEqualIff(other.entries[0].1, leaf);
    }
  }

  lemma FiledLeaves(a: Node, b: Node)
    requires IsLeaf(a) && IsLeaf(b)
    ensures Equals(Filed(a), Filed(b)) <==> Equals(a, b)
  {
    FindIndexIs(Filed(b).entries, "value", 0);
    assert Get(Filed(b).entries, "value") == Some(b);
    assert Filed(a).entries[0] == ("value", a);
  }
}
