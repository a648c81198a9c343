/** Layer composition: the deep merge of configuration trees, and the attribution of every leaf
    to the layer it came from.  The attribution is kept under printed paths and is maintained by
    textual erasure, independently of the merged values. */
module CfgMerge {
  import opened Text
  import opened CfgPath
  import opened CfgNode

  datatype Layer = Base | Env | Remote | Local | Runtime

  type Trace = map<string, Layer>

  // ----- Trees -----

  /** No object in the tree repeats a key. */
  ghost predicate UniqueKeys(node: Node) {
    match node
    case Object(entries) =>
      DistinctKeys(entries) && forall i :: 0 <= i < |entries| ==> UniqueKeys(entries[i].1)
    case Array(items) => forall i :: 0 <= i < |items| ==> UniqueKeys(items[i])
    case _ => true
  }

  ghost predicate DistinctKeys(entries: seq<(string, Node)>) {
    forall i, j :: 0 <= i < j < |entries| ==> entries[i].0 != entries[j].0
  }

  /** Scalars and empty containers: the nodes that get an attribution of their own. */
  predicate IsLeaf(node: Node) {
    match node
    case Object(entries) => entries == []
    case Array(items) => items == []
    case _ => true
  }

  ghost predicate LeafAt(node: Node, q: seq<Token>) {
    At(node, q).Ok? && IsLeaf(At(node, q).value)
  }

  function Get(entries: seq<(string, Node)>, k: string): Option<Node> {
    var i := FindIndex(entries, k);
    if i < |entries| then Some(entries[i].1) else None
  }

  // ----- Merged values -----

  function Merged(lower: Node, upper: Node, append: bool): Node
    decreases upper, 1
  {
    if lower.Object? && upper.Object? then Object(MergedEntries(lower.entries, upper, |upper.entries|, append))
    else if lower.Array? && upper.Array? && append then Array(lower.items + upper.items)
    else upper
  }

  /** The entries after merging the first `n` entries of `upper` into `target`, one after the other. */
  function MergedEntries(target: seq<(string, Node)>, upper: Node, n: nat, append: bool): seq<(string, Node)>
    requires upper.Object? && n <= |upper.entries|
    decreases upper, 0, n
  {
    if n == 0 then target
    else MergedEntry(MergedEntries(target, upper, n - 1, append), upper, n - 1, append)
  }

  function MergedEntry(target: seq<(string, Node)>, upper: Node, i: nat, append: bool): seq<(string, Node)>
    requires upper.Object? && i < |upper.entries|
    decreases upper, 0, i
  {
    var (k, v) := upper.entries[i];
    var j := FindIndex(target, k);
    if j == |target| then target + [(k, v)] else target[j := (target[j].0, Merged(target[j].1, v, append))]
  }

  /** Whether the leaf `q` of the merged tree was put there by the upper layer. */
  ghost predicate FromUpper(lower: Node, upper: Node, append: bool, q: seq<Token>)
    decreases |q|
  {
    if lower.Object? && upper.Object? then
      if q == [] then false
      else if q[0].Index? then false
      else
        match (Get(lower.entries, q[0].key), Get(upper.entries, q[0].key))
        case (Some(a), Some(b)) => FromUpper(a, b, append, q[1..])
        case (_, u) => u.Some?
    else if lower.Array? && upper.Array? && append then
      q != [] && q[0].Index? && |lower.items| <= q[0].index
    else true
  }

  // ----- Attribution -----

  /** `trace` holds exactly the leaves of `node` at and below `p`. */
  ghost predicate Covers(trace: Trace, p: seq<Token>, node: Node) {
    forall q :: Format(p + q) in trace <==> LeafAt(node, q)
  }

  /** Nothing is attributed at or below `p`. */
  ghost predicate Vacant(trace: Trace, p: seq<Token>) {
    forall q :: Format(p + q) !in trace
  }

  /** Keys that are not printed paths at or below `p` are as before. */
  ghost predicate SameElsewhere(before: Trace, after: Trace, p: seq<Token>) {
    forall s: string :: !(exists q :: s == Format(p + q)) ==> Agree(before, after, s)
  }

  ghost predicate Agree(before: Trace, after: Trace, s: string) {
    (s in before <==> s in after) && (s in before ==> before[s] == after[s])
  }

  ghost predicate Printable(trace: Trace) {
    forall s :: s in trace ==> exists q :: s == Format(q)
  }

  /** `after` attributes exactly the leaves of `node` at and below `p`: those in `added` to
      `layer`, the others to their owner in `before`; nothing outside changes. */
  ghost predicate Reattributed(before: Trace, after: Trace, p: seq<Token>, node: Node, layer: Layer,
      added: iset<seq<Token>>) {
    Covers(after, p, node) && SameElsewhere(before, after, p) &&
    forall q :: LeafAt(node, q) ==>
      Format(p + q) in after &&
      if q in added then after[Format(p + q)] == layer
      else Format(p + q) in before && after[Format(p + q)] == before[Format(p + q)]
  }

  ghost function UpperLeaves(lower: Node, upper: Node, append: bool): iset<seq<Token>> {
    iset q | FromUpper(lower, upper, append, q)
  }

  ghost function AllLeaves(node: Node): iset<seq<Token>> {
    iset q | LeafAt(node, q)
  }

  /** `s` is the printed path of a leaf of `node`, which sits at `p`. */
  ghost predicate LeafName(s: string, p: seq<Token>, node: Node) {
    exists q :: s == Format(p + q) && LeafAt(node, q)
  }

  /** After collecting `node` at `p` into `before`. */
  ghost predicate Collected(before: Trace, after: Trace, p: seq<Token>, node: Node, layer: Layer) {
    forall s: string ::
      if LeafName(s, p, node) then s in after && after[s] == layer else Agree(before, after, s)
  }

  // ----- Objects as finite maps -----

  lemma GetAfterAppend(entries: seq<(string, Node)>, k: string, v: Node, u: string)
    requires Get(entries, k).None?
    ensures Get(entries + [(k, v)], u) == if u == k then Some(v) else Get(entries, u)
  {
    var grown := entries + [(k, v)];
    if u == k {
      FindIndexIs(grown, k, |entries|);
    } else if Get(entries, u).Some? {
      FindIndexIs(grown, u, FindIndex(entries, u));
    }
  }

  lemma GetAfterUpdate(entries: seq<(string, Node)>, k: string, v: Node, u: string)
    requires Get(entries, k).Some?
    ensures var j := FindIndex(entries, k);
            Get(entries[j := (entries[j].0, v)], u) == if u == k then Some(v) else Get(entries, u)
  {
    var j := FindIndex(entries, k);
    SameKeysSameIndex(entries, entries[j := (entries[j].0, v)]);
  }

  lemma GetOfEntry(entries: seq<(string, Node)>, i: nat)
    requires DistinctKeys(entries) && i < |entries|
    ensures Get(entries, entries[i].0) == Some(entries[i].1)
  {
    FindIndexIs(entries, entries[i].0, i);
  }

  /** Merging one entry changes that key and no other. */
  lemma GetAfterEntry(target: seq<(string, Node)>, upper: Node, i: nat, append: bool, u: string)
    requires upper.Object? && i < |upper.entries|
    ensures var (k, v) := upper.entries[i];
            Get(MergedEntry(target, upper, i, append), u) ==
            if u != k then Get(target, u)
            else if Get(target, k).Some? then Some(Merged(Get(target, k).value, v, append)) else Some(v)
  {
    var (k, v) := upper.entries[i];
    if Get(target, k).None? {
      GetAfterAppend(target, k, v, u);
    } else {
      GetAfterUpdate(target, k, Merged(Get(target, k).value, v, append), u);
    }
  }

  /** Key by key, merging objects merges the nodes both have and keeps the rest. */
  ghost function MergedGet(a: Option<Node>, b: Option<Node>, append: bool): Option<Node> {
    match (a, b)
    case (Some(x), Some(y)) => Some(Merged(x, y, append))
    case (Some(x), None) => a
    case (None, _) => b
  }

  lemma {:induction false} GetMerged(target: seq<(string, Node)>, upper: Node, n: nat, append: bool, u: string)
    requires upper.Object? && n <= |upper.entries| && DistinctKeys(upper.entries)
    ensures Get(MergedEntries(target, upper, n, append), u) ==
            MergedGet(Get(target, u), Get(upper.entries[..n], u), append)
  {
    if n == 0 {
      assert upper.entries[..0] == [];
    } else {
      var (k, v) := upper.entries[n - 1];
      var earlier := upper.entries[..n - 1];
      GetMerged(target, upper, n - 1, append, u);
      GetAfterEntry(MergedEntries(target, upper, n - 1, append), upper, n - 1, append, u);
      assert Get(earlier, k).None?;
      assert upper.entries[..n] == earlier + [(k, v)];
      GetAfterAppend(earlier, k, v, u);
    }
  }

  lemma GetMergedAll(lower: Node, upper: Node, append: bool, u: string)
    requires lower.Object? && upper.Object? && DistinctKeys(upper.entries)
    ensures Merged(lower, upper, append).Object?
    ensures Get(Merged(lower, upper, append).entries, u) ==
            MergedGet(Get(lower.entries, u), Get(upper.entries, u), append)
  {
    assert upper.entries[..|upper.entries|] == upper.entries;
    GetMerged(lower.entries, upper, |upper.entries|, append, u);
  }

  /** Reading one key further down an object. */
  lemma AtKey(node: Node, q: seq<Token>)
    requires q != [] && node.Object? && q[0].Key?
    ensures At(node, q) == match Get(node.entries, q[0].key)
                           case Some(child) => At(child, q[1..])
                           case None => Err(KeyNotFound(q[0].key))
  {
  }

  // ----- Collecting a tree -----

  lemma LeafNameUnder(s: string, p: seq<Token>, t: Token, node: Node, child: Node)
    requires Child(node, t) == Ok(child) && LeafName(s, p + [t], child)
    ensures LeafName(s, p, node)
  {
    var q :| s == Format(p + [t] + q) && LeafAt(child, q);
    assert p + [t] + q == p + ([t] + q);
    assert ([t] + q)[1..] == q;
    assert LeafAt(node, [t] + q);
  }

  /** The leaves of a non-empty container are the leaves of its children. */
  lemma LeafNameInside(s: string, p: seq<Token>, node: Node) returns (t: Token)
    requires LeafName(s, p, node) && !IsLeaf(node)
    ensures Child(node, t).Ok? && LeafName(s, p + [t], Child(node, t).value)
  {
    hide Format;
    var q :| s == Format(p + q) && LeafAt(node, q);
    t := q[0];
    assert p + [t] + q[1..] == p + q;
    assert LeafAt(Child(node, t).value, q[1..]);
  }

  ghost predicate ChildLeafName(s: string, p: seq<Token>, tokens: seq<Token>, node: Node) {
    exists j :: 0 <= j < |tokens| && Child(node, tokens[j]).Ok? &&
      LeafName(s, p + [tokens[j]], Child(node, tokens[j]).value)
  }

  /** After collecting the children that `tokens` name. */
  ghost predicate CollectedChildren(before: Trace, after: Trace, p: seq<Token>, tokens: seq<Token>, node: Node,
      layer: Layer) {
    forall s: string ::
      if ChildLeafName(s, p, tokens, node) then s in after && after[s] == layer else Agree(before, after, s)
  }

  lemma NothingCollected(before: Trace, p: seq<Token>, node: Node, layer: Layer)
    ensures CollectedChildren(before, before, p, [], node, layer)
  {
  }

  lemma CollectChild(before: Trace, mid: Trace, after: Trace, p: seq<Token>, tokens: seq<Token>, t: Token, node: Node,
      layer: Layer)
    requires CollectedChildren(before, mid, p, tokens, node, layer)
    requires Child(node, t).Ok? && Collected(mid, after, p + [t], Child(node, t).value, layer)
    ensures CollectedChildren(before, after, p, tokens + [t], node, layer)
  {
    forall s: string
      ensures ChildLeafName(s, p, tokens + [t], node) <==>
              ChildLeafName(s, p, tokens, node) || LeafName(s, p + [t], Child(node, t).value)
    {
      OneMoreChild(s, p, tokens, t, node);
    }
  }

  lemma OneMoreChild(s: string, p: seq<Token>, tokens: seq<Token>, t: Token, node: Node)
    requires Child(node, t).Ok?
    ensures ChildLeafName(s, p, tokens + [t], node) <==>
            ChildLeafName(s, p, tokens, node) || LeafName(s, p + [t], Child(node, t).value)
  {
    hide Format, LeafName;
    var more := tokens + [t];
    if ChildLeafName(s, p, tokens, node) {
      var j :| 0 <= j < |tokens| && Child(node, tokens[j]).Ok? &&
        LeafName(s, p + [tokens[j]], Child(node, tokens[j]).value);
      assert more[j] == tokens[j];
    }
    if LeafName(s, p + [t], Child(node, t).value) {
      assert more[|tokens|] == t;
    }
  }

  /** All children together are the whole container. */
  lemma AllChildrenCollected(before: Trace, after: Trace, p: seq<Token>, tokens: seq<Token>, node: Node, layer: Layer)
    requires CollectedChildren(before, after, p, tokens, node, layer) && !IsLeaf(node)
    requires forall t :: Child(node, t).Ok? ==> t in tokens
    ensures Collected(before, after, p, node, layer)
  {
    forall s: string
      ensures LeafName(s, p, node) <==> ChildLeafName(s, p, tokens, node)
    {
      if LeafName(s, p, node) {
        var t := LeafNameInside(s, p, node);
        var j :| 0 <= j < |tokens| && tokens[j] == t;
      }
      if ChildLeafName(s, p, tokens, node) {
        var j :| 0 <= j < |tokens| && Child(node, tokens[j]).Ok? &&
          LeafName(s, p + [tokens[j]], Child(node, tokens[j]).value);
        LeafNameUnder(s, p, tokens[j], node, Child(node, tokens[j]).value);
      }
    }
  }

  lemma CollectedLeaf(before: Trace, p: seq<Token>, node: Node, layer: Layer)
    requires IsLeaf(node)
    ensures Collected(before, before[Format(p) := layer], p, node, layer)
  {
    forall s: string
      ensures LeafName(s, p, node) <==> s == Format(p)
    {
      hide Format;
      if LeafName(s, p, node) {
        var q :| s == Format(p + q) && LeafAt(node, q);
        NothingInsideLeaf(node, q);
        assert p + q == p;
      }
      if s == Format(p) {
        assert p + [] == p;
        assert LeafAt(node, []);
      }
    }
  }

  lemma LeafIsOk(node: Node, q: seq<Token>)
    ensures LeafAt(node, q) ==> At(node, q).Ok?
  {
  }

  /** The keys of an object are all its children. */
  lemma EntriesListed(node: Node, tokens: seq<Token>)
    requires node.Object? && |tokens| == |node.entries|
    requires forall j :: 0 <= j < |tokens| ==> tokens[j] == Key(node.entries[j].0)
    ensures forall t :: Child(node, t).Ok? ==> t in tokens
  {
    forall t | Child(node, t).Ok? ensures t in tokens {
      assert tokens[FindIndex(node.entries, t.key)] == t;
    }
  }

  lemma ItemsListed(node: Node, tokens: seq<Token>)
    requires node.Array? && |tokens| == |node.items|
    requires forall j :: 0 <= j < |tokens| ==> tokens[j] == Index(j)
    ensures forall t :: Child(node, t).Ok? ==> t in tokens
  {
    forall t | Child(node, t).Ok? ensures t in tokens {
      assert tokens[t.index] == t;
    }
  }

  lemma NothingInsideLeaf(node: Node, q: seq<Token>)
    requires IsLeaf(node) && At(node, q).Ok?
    ensures q == []
  {
  }

  /** Every leaf of `node`, which sits at `path`, is attributed to `layer`. */
  method CollectSourceTrace(node: Node, layer: Layer, path: string, trace: Trace, ghost p: seq<Token>)
    returns (out: Trace)
    requires path == Format(p) && UniqueKeys(node)
    ensures Collected(trace, out, p, node, layer)
    decreases node, 1
  {
    hide Format, LeafAt, Collected, CollectedChildren;
    if node.Object? && node.entries != [] {
      out := CollectEntries(node, layer, path, trace, p);
      return;
    }
    if node.Array? && node.items != [] {
      out := CollectItems(node, layer, path, trace, p);
      return;
    }
    CollectedLeaf(trace, p, node, layer);
    out := trace[path := layer];
  }

  method CollectEntries(node: Node, layer: Layer, path: string, trace: Trace, ghost p: seq<Token>) returns (out: Trace)
    requires path == Format(p) && UniqueKeys(node) && node.Object? && node.entries != []
    ensures Collected(trace, out, p, node, layer)
    decreases node, 0
  {
    hide Format, LeafAt, Collected, CollectedChildren;
    out := trace;
    ghost var tokens: seq<Token> := [];
    NothingCollected(trace, p, node, layer);
    for i := 0 to |node.entries|
      invariant |tokens| == i && forall j :: 0 <= j < i ==> tokens[j] == Key(node.entries[j].0)
      invariant CollectedChildren(trace, out, p, tokens, node, layer)
    {
      var entry := node.entries[i];
      var key := EscapePathSegment(entry.0);
      ghost var mid := out;
      FindIndexIs(node.entries, entry.0, i);
      FormatOfChild(p, Key(entry.0));
      out := CollectSourceTrace(entry.1, layer, JoinObjectPath(path, key), out, p + [Key(entry.0)]);
      CollectChild(trace, mid, out, p, tokens, Key(entry.0), node, layer);
      tokens := tokens + [Key(entry.0)];
    }
    EntriesListed(node, tokens);
    AllChildrenCollected(trace, out, p, tokens, node, layer);
  }

  method CollectItems(node: Node, layer: Layer, path: string, trace: Trace, ghost p: seq<Token>) returns (out: Trace)
    requires path == Format(p) && UniqueKeys(node) && node.Array? && node.items != []
    ensures Collected(trace, out, p, node, layer)
    decreases node, 0
  {
    hide Format, LeafAt, Collected, CollectedChildren;
    out := trace;
    ghost var tokens: seq<Token> := [];
    NothingCollected(trace, p, node, layer);
    for i := 0 to |node.items|
      invariant |tokens| == i && forall j :: 0 <= j < i ==> tokens[j] == Index(j)
      invariant CollectedChildren(trace, out, p, tokens, node, layer)
    {
      ghost var mid := out;
      FormatOfChild(p, Index(i));
      out := CollectSourceTrace(node.items[i], layer, JoinIndex(path, i), out, p + [Index(i)]);
      CollectChild(trace, mid, out, p, tokens, Index(i), node, layer);
      tokens := tokens + [Index(i)];
    }
    ItemsListed(node, tokens);
    AllChildrenCollected(trace, out, p, tokens, node, layer);
  }

  lemma FormatOfChild(p: seq<Token>, t: Token)
    ensures Format(p + [t]) == AppendToken(Format(p), t)
  {
    assert (p + [t])[..|p|] == p;
  }

  // ----- Erasing a subtree from the ordered trace -----

  /** The order of `std::map<std::string, ...>`. */
  predicate LexLe(a: string, b: string) {
    a == "" || (b != "" && (a[0] < b[0] || (a[0] == b[0] && LexLe(a[1..], b[1..]))))
  }

  lemma {:induction false} LexTotal(a: string, b: string)
    ensures LexLe(a, b) || LexLe(b, a)
    decreases |a|
  {
    if a != "" && b != "" {
      LexTotal(a[1..], b[1..]);
    }
  }

  lemma {:induction false} LexTransitive(a: string, b: string, c: string)
    requires LexLe(a, b) && LexLe(b, c)
    ensures LexLe(a, c)
    decreases |a|
  {
    if a != "" && a[0] == b[0] == c[0] {
      LexTransitive(a[1..], b[1..], c[1..]);
    }
  }

  lemma {:induction false} PrefixIsLexBelow(s: string, prefix: string)
    requires StartsWith(s, prefix)
    ensures LexLe(prefix, s)
    decreases |prefix|
  {
    if prefix != "" {
      assert prefix[1..] == s[1..][..|prefix| - 1];
      PrefixIsLexBelow(s[1..], prefix[1..]);
    }
  }

  /** The strings with a common prefix are contiguous in the order. */
  lemma {:induction false} PrefixBlockContiguous(prefix: string, s: string, last: string)
    requires LexLe(prefix, s) && LexLe(s, last) && StartsWith(last, prefix)
    ensures StartsWith(s, prefix)
    decreases |prefix|
  {
    if prefix != "" {
      assert prefix[0] == last[0];
      assert prefix[1..] == last[1..][..|prefix| - 1];
      PrefixBlockContiguous(prefix[1..], s[1..], last[1..]);
      assert s[..|prefix|] == [s[0]] + s[1..][..|prefix| - 1];
    }
  }

  /** `it` is the first key not below `bound`, or there is none. */
  ghost predicate FirstFrom(keys: set<string>, bound: string, it: Option<string>) {
    match it
    case None => forall k :: k in keys ==> !LexLe(bound, k)
    case Some(first) => first in keys && LexLe(bound, first) && forall k :: k in keys && LexLe(bound, k) ==>
      LexLe(first, k)
  }

  /** No string comes before a smaller one. */
  ghost predicate Ascending(keys: seq<string>) {
    forall i, j :: 0 <= i < j < |keys| ==> LexLe(keys[i], keys[j])
  }

  lemma AscendingSnoc(keys: seq<string>, k: string)
    requires Ascending(keys) && forall i :: 0 <= i < |keys| ==> LexLe(keys[i], k)
    ensures Ascending(keys + [k])
  {
  }

  method LowerBound(keys: set<string>, bound: string) returns (it: Option<string>)
    ensures FirstFrom(keys, bound, it)
  {
    var rest := keys;
    it := None;
    while rest != {}
      invariant rest <= keys
      invariant FirstFrom(keys - rest, bound, it)
    {
      var k :| k in rest;
      if LexLe(bound, k) && (it.None? || LexLe(k, it.value)) {
        if it.Some? {
          forall other | other in keys - rest && LexLe(bound, other)
            ensures LexLe(k, other)
          {
            LexTransitive(k, it.value, other);
          }
        }
        LexTotal(k, k);
        it := Some(k);
      } else if it.Some? {
        LexTotal(it.value, k);
      }
      rest := rest - {k};
    }
    assert keys - rest == keys;
  }

  /** The smallest of some keys. */
  method Smallest(keys: set<string>) returns (least: string)
    requires keys != {}
    ensures least in keys && forall k :: k in keys ==> LexLe(least, k)
  {
    var it := LowerBound(keys, "");
    assert exists k :: k in keys && LexLe("", k) by {
      var k :| k in keys;
      assert LexLe("", k);
    }
    least := it.value;
  }

  /** Walks the block of keys that starts at the lower bound of `prefix`. */
  method ErasePrefix(trace: Trace, prefix: string) returns (out: Trace)
    ensures out == map s | s in trace && !StartsWith(s, prefix) :: trace[s]
  {
    out := trace;
    var it := LowerBound(out.Keys, prefix);
    while it.Some? && StartsWith(it.value, prefix)
      invariant out.Keys <= trace.Keys && FirstFrom(out.Keys, prefix, it)
      invariant forall s :: s in out ==> out[s] == trace[s]
      invariant forall s :: s in trace && s !in out ==> StartsWith(s, prefix)
      decreases out.Keys
    {
      var erased := it.value;
      out := out - {erased};
      it := LowerBound(out.Keys, erased);
      forall k | k in out && LexLe(prefix, k)
        ensures it.Some? && LexLe(it.value, k)
      {
        assert LexLe(erased, k);
      }
      if it.Some? {
        LexTransitive(prefix, erased, it.value);
      }
    }
    forall s | s in out
      ensures !StartsWith(s, prefix)
    {
      if StartsWith(s, prefix) {
        PrefixIsLexBelow(s, prefix);
        PrefixBlockContiguous(prefix, it.value, s);
      }
    }
  }

  /** The textual erasure removes exactly the attributions at and below the path. */
  method EraseSourceTraceSubtree(trace: Trace, path: string) returns (out: Trace)
    ensures out == map s | s in trace && !(path == "" || AtOrBelow(s, path)) :: trace[s]
  {
    if path == "" {
      return map[];
    }
    var first := ErasePrefix(trace - {path}, path + ".");
    out := ErasePrefix(first, path + "[");
  }

  /** On printed paths, that is exactly the subtree below the erased tokens. */
  lemma ErasedSubtree(trace: Trace, out: Trace, p: seq<Token>)
    requires out == map s | s in trace && !(Format(p) == "" || AtOrBelow(s, Format(p))) :: trace[s]
    ensures forall q :: Format(q) in out <==> Format(q) in trace && !(p <= q)
    ensures forall q :: Format(q) in out ==> out[Format(q)] == trace[Format(q)]
  {
    FormatNonempty(p);
    forall q
      ensures Format(q) in out <==> Format(q) in trace && !(p <= q)
    {
      if p != [] {
        AtOrBelowIsTokenPrefix(p, q);
      }
    }
  }

  // ----- Attribution through a merge -----

  lemma ReattributedPrintable(before: Trace, after: Trace, p: seq<Token>, node: Node, layer: Layer,
      added: iset<seq<Token>>)
    requires Printable(before) && Reattributed(before, after, p, node, layer, added)
    ensures Printable(after)
  {
    hide Format, LeafAt;
    forall s | s in after
      ensures exists q :: s == Format(q)
    {
      if !(exists q :: s == Format(p + q)) {
        assert Agree(before, after, s);
      }
    }
  }

  lemma {:induction false} FormatCancels(p: seq<Token>, q: seq<Token>, r: seq<Token>)
    requires Format(p + q) == Format(p + r)
    ensures q == r
  {
    FormatInjective(p + q, p + r);
    assert q == (p + q)[|p|..] && r == (p + r)[|p|..];
  }

  /** Collecting where nothing was attributed before. */
  lemma CollectedFresh(before: Trace, after: Trace, p: seq<Token>, node: Node, layer: Layer)
    requires Collected(before, after, p, node, layer)
    requires Vacant(before, p)
    ensures Reattributed(before, after, p, node, layer, AllLeaves(node))
  {
    hide Format, LeafAt;
    forall q
      ensures LeafName(Format(p + q), p, node) <==> LeafAt(node, q)
      ensures Format(p + q) in after <==> LeafAt(node, q)
      ensures LeafAt(node, q) ==> Format(p + q) in after && after[Format(p + q)] == layer
    {
      if LeafName(Format(p + q), p, node) {
        var r :| Format(p + q) == Format(p + r) && LeafAt(node, r);
        FormatCancels(p, q, r);
      }
      assert !LeafName(Format(p + q), p, node) ==> Agree(before, after, Format(p + q));
    }
    forall s: string | !(exists q :: s == Format(p + q))
      ensures Agree(before, after, s)
    {
      assert !LeafName(s, p, node);
    }
  }

  /** What erasing below `p` leaves behind. */
  lemma ErasedIsVacant(before: Trace, erased: Trace, p: seq<Token>)
    requires Printable(before)
    requires erased == map s | s in before && !(Format(p) == "" || AtOrBelow(s, Format(p))) :: before[s]
    ensures Vacant(erased, p) && SameElsewhere(before, erased, p)
  {
    hide Format, AtOrBelow;
    ErasedSubtree(before, erased, p);
    forall q
      ensures Format(p + q) !in erased
    {
      assert p <= p + q;
    }
    forall q | p <= q
      ensures exists r :: Format(q) == Format(p + r)
    {
      assert q == p + q[|p|..];
    }
    forall s: string | !(exists q :: s == Format(p + q))
      ensures Agree(before, erased, s)
    {
      if s in before {
        var q :| s == Format(q);
      }
    }
  }

  /** Replacing a subtree: erase below `p`, then collect the new subtree there. */
  lemma ReplacedSubtree(before: Trace, erased: Trace, after: Trace, p: seq<Token>, node: Node, layer: Layer)
    requires Printable(before)
    requires erased == map s | s in before && !(Format(p) == "" || AtOrBelow(s, Format(p))) :: before[s]
    requires Collected(erased, after, p, node, layer)
    ensures Reattributed(before, after, p, node, layer, AllLeaves(node))
  {
    hide Format, AtOrBelow, LeafAt, Collected, Vacant, Printable;
    ErasedIsVacant(before, erased, p);
    CollectedFresh(erased, after, p, node, layer);
    forall s: string | !(exists q :: s == Format(p + q))
      ensures Agree(before, after, s)
    {
      assert Agree(erased, after, s) && Agree(before, erased, s);
    }
  }

  // ----- Objects, one key at a time -----

  /** A leaf strictly below an object with these entries. */
  ghost predicate LeafInside(entries: seq<(string, Node)>, q: seq<Token>) {
    q != [] && q[0].Key? && Get(entries, q[0].key).Some? && LeafAt(Get(entries, q[0].key).value, q[1..])
  }

  lemma LeafOfObject(entries: seq<(string, Node)>, q: seq<Token>)
    ensures LeafAt(Object(entries), q) <==> if entries == [] then q == [] else LeafInside(entries, q)
  {
    if q != [] && q[0].Key? {
      AtKey(Object(entries), q);
    }
  }

  /** The leaves that the first `n` entries of the upper object brought in. */
  ghost predicate UpperInside(lower: Node, upper: Node, n: nat, append: bool, q: seq<Token>)
    requires lower.Object? && upper.Object? && n <= |upper.entries|
  {
    q != [] && q[0].Key? &&
    match (Get(lower.entries, q[0].key), Get(upper.entries[..n], q[0].key))
    case (Some(a), Some(b)) => FromUpper(a, b, append, q[1..])
    case (_, u) => u.Some?
  }

  /** The trace after merging the first `n` entries of the upper object. */
  ghost predicate EntriesAttributed(before: Trace, after: Trace, p: seq<Token>, lower: Node, upper: Node, n: nat,
      append: bool, layer: Layer)
    requires lower.Object? && upper.Object? && n <= |upper.entries|
  {
    var entries := MergedEntries(lower.entries, upper, n, append);
    (forall q :: Format(p + q) in after <==> LeafInside(entries, q)) &&
    SameElsewhere(before, after, p) &&
    forall q :: LeafInside(entries, q) ==>
      if UpperInside(lower, upper, n, append, q) then after[Format(p + q)] == layer
      else Format(p + q) in before && after[Format(p + q)] == before[Format(p + q)]
  }

  lemma KeyNotSeen(entries: seq<(string, Node)>, n: nat)
    requires DistinctKeys(entries) && n < |entries|
    ensures Get(entries[..n], entries[n].0).None?
    ensures Get(entries[..n + 1], entries[n].0) == Some(entries[n].1)
    ensures forall u :: u != entries[n].0 ==> Get(entries[..n + 1], u) == Get(entries[..n], u)
  {
    assert entries[..n + 1] == entries[..n] + [(entries[n].0, entries[n].1)];
    forall u
      ensures Get(entries[..n + 1], u) == if u == entries[n].0 then Some(entries[n].1) else Get(entries[..n], u)
    {
      GetAfterAppend(entries[..n], entries[n].0, entries[n].1, u);
    }
  }

  /** The child of the partly merged object that entry `n` meets is still the lower layer's. */
  lemma ChildStillLower(lower: Node, upper: Node, n: nat, append: bool)
    requires lower.Object? && upper.Object? && n < |upper.entries| && DistinctKeys(upper.entries)
    ensures Get(MergedEntries(lower.entries, upper, n, append), upper.entries[n].0) ==
            Get(lower.entries, upper.entries[n].0)
  {
    KeyNotSeen(upper.entries, n);
    GetMerged(lower.entries, upper, n, append, upper.entries[n].0);
  }

  /** The part of the trace below one key, before its entry is merged. */
  lemma CoversChild(before: Trace, mid: Trace, p: seq<Token>, lower: Node, upper: Node, n: nat, append: bool,
      layer: Layer)
    requires lower.Object? && upper.Object? && n < |upper.entries| && DistinctKeys(upper.entries)
    requires EntriesAttributed(before, mid, p, lower, upper, n, append, layer)
    ensures var k := upper.entries[n].0;
            match Get(lower.entries, k)
            case Some(child) => Covers(mid, p + [Key(k)], child)
            case None => Vacant(mid, p + [Key(k)])
  {
    var k := upper.entries[n].0;
    ChildStillLower(lower, upper, n, append);
    forall q
      ensures Format(p + [Key(k)] + q) in mid <==>
              Get(lower.entries, k).Some? && LeafAt(Get(lower.entries, k).value, q)
    {
      assert p + [Key(k)] + q == p + ([Key(k)] + q);
      assert ([Key(k)] + q)[1..] == q;
    }
  }

  /** `added` are the leaves of `child`, the merged node of entry `n`'s key, that the entry brought in. */
  ghost predicate AddedBy(lower: Node, upper: Node, n: nat, append: bool, child: Node, added: iset<seq<Token>>)
    requires lower.Object? && upper.Object? && n < |upper.entries|
  {
    forall q :: LeafAt(child, q) ==>
      (q in added <==> UpperInside(lower, upper, n + 1, append, [Key(upper.entries[n].0)] + q))
  }

  /** Merging entry `n`: the subtree of its key is replaced as its own merge says. */
  lemma {:induction false} MergeOneKey(before: Trace, mid: Trace, after: Trace, p: seq<Token>, lower: Node,
      upper: Node, n: nat,
                    append: bool, layer: Layer, child: Node, added: iset<seq<Token>>)
    requires lower.Object? && upper.Object? && n < |upper.entries| && DistinctKeys(upper.entries)
    requires EntriesAttributed(before, mid, p, lower, upper, n, append, layer)
    requires Reattributed(mid, after, p + [Key(upper.entries[n].0)], child, layer, added)
    requires MergedGet(Get(lower.entries, upper.entries[n].0), Some(upper.entries[n].1), append) == Some(child)
    requires AddedBy(lower, upper, n, append, child, added)
    ensures EntriesAttributed(before, after, p, lower, upper, n + 1, append, layer)
  {
    hide Format, LeafAt, FromUpper, Merged, MergedEntries;
    var k, v := upper.entries[n].0, upper.entries[n].1;
    var p0 := p + [Key(k)];
    var entries, entries' := MergedEntries(lower.entries, upper, n, append),
      MergedEntries(lower.entries, upper, n + 1, append);
    KeyNotSeen(upper.entries, n);
    forall u
      ensures Get(entries', u) == if u == k then Some(child) else Get(entries, u)
    {
      GetMerged(lower.entries, upper, n, append, u);
      GetMerged(lower.entries, upper, n + 1, append, u);
    }
    forall q
      ensures Format(p + q) in after <==> LeafInside(entries', q)
      ensures LeafInside(entries', q) ==>
                if UpperInside(lower, upper, n + 1, append, q) then after[Format(p + q)] == layer
                else Format(p + q) in before && after[Format(p + q)] == before[Format(p + q)]
    {
      if q != [] && q[0] == Key(k) {
        assert q == [Key(k)] + q[1..];
        assert p + q == p0 + q[1..];
        assert LeafInside(entries', q) <==> LeafAt(child, q[1..]);
      } else {
        OutsideToken(p, Key(k), q);
        assert Agree(mid, after, Format(p + q));
        assert LeafInside(entries', q) <==> LeafInside(entries, q);
      }
    }
    OutsideParent(before, mid, after, p, Key(k));
  }

  lemma OutsideToken(p: seq<Token>, t: Token, q: seq<Token>)
    requires q == [] || q[0] != t
    ensures !(exists r :: Format(p + q) == Format(p + [t] + r))
  {
    hide Format;
    forall r
      ensures Format(p + q) != Format(p + [t] + r)
    {
      assert p + [t] + r == p + ([t] + r);
      if Format(p + q) == Format(p + [t] + r) {
        FormatCancels(p, q, [t] + r);
      }
    }
  }

  /** Names outside `p` are outside every child of `p`. */
  lemma OutsideParent(before: Trace, mid: Trace, after: Trace, p: seq<Token>, t: Token)
    requires SameElsewhere(before, mid, p) && SameElsewhere(mid, after, p + [t])
    ensures SameElsewhere(before, after, p)
  {
    hide Format;
    forall s: string | !(exists q :: s == Format(p + q))
      ensures Agree(before, after, s)
    {
      forall q
        ensures s != Format(p + [t] + q)
      {
        assert p + [t] + q == p + ([t] + q);
      }
      assert Agree(mid, after, s);
      assert Agree(before, mid, s);
    }
  }

  lemma ObjectMergeStarts(trace: Trace, after: Trace, p: seq<Token>, lower: Node, upper: Node, append: bool,
      layer: Layer)
    requires Printable(trace) && Covers(trace, p, lower)
    requires lower.Object? && upper.Object? && upper.entries != []
    requires after == if lower.entries == [] then trace - {Format(p)} else trace
    ensures Printable(after) && EntriesAttributed(trace, after, p, lower, upper, 0, append, layer)
  {
    hide Format;
    assert upper.entries[..0] == [];
    forall q
      ensures Format(p + q) in after <==> LeafInside(lower.entries, q)
    {
      LeafOfObject(lower.entries, q);
      assert lower == Object(lower.entries);
      if q == [] {
        assert p + q == p;
      }
    }
    forall s: string | !(exists q :: s == Format(p + q))
      ensures Agree(trace, after, s)
    {
      assert p + [] == p;
    }
  }

  lemma NewKeyFromUpper(lower: Node, upper: Node, n: nat, append: bool)
    requires lower.Object? && upper.Object? && n < |upper.entries| && DistinctKeys(upper.entries)
    requires Get(lower.entries, upper.entries[n].0).None?
    ensures AddedBy(lower, upper, n, append, upper.entries[n].1, AllLeaves(upper.entries[n].1))
  {
    KeyNotSeen(upper.entries, n);
  }

  lemma SharedKeyFromUpper(lower: Node, upper: Node, n: nat, append: bool, child: Node)
    requires lower.Object? && upper.Object? && n < |upper.entries| && DistinctKeys(upper.entries)
    requires Get(lower.entries, upper.entries[n].0) == Some(child)
    ensures AddedBy(lower, upper, n, append, Merged(child, upper.entries[n].1, append),
                    UpperLeaves(child, upper.entries[n].1, append))
  {
    var (k, v) := upper.entries[n];
    KeyNotSeen(upper.entries, n);
    forall q
      ensures q in UpperLeaves(child, v, append) <==> UpperInside(lower, upper, n + 1, append, [Key(k)] + q)
    {
      assert ([Key(k)] + q)[1..] == q;
    }
  }

  lemma ObjectMergeEnds(trace: Trace, after: Trace, p: seq<Token>, lower: Node, upper: Node, append: bool, layer: Layer)
    requires Covers(trace, p, lower) && lower.Object? && upper.Object? && DistinctKeys(upper.entries)
    requires if upper.entries == [] then after == trace
             else EntriesAttributed(trace, after, p, lower, upper, |upper.entries|, append, layer)
    ensures Reattributed(trace, after, p, Merged(lower, upper, append), layer, UpperLeaves(lower, upper, append))
  {
    hide Format;
    var n := |upper.entries|;
    var entries := MergedEntries(lower.entries, upper, n, append);
    assert upper.entries[..n] == upper.entries;
    if n == 0 {
      assert Merged(lower, upper, append) == lower;
    } else {
      var k := upper.entries[0].0;
      GetOfEntry(upper.entries, 0);
      GetMerged(lower.entries, upper, n, append, k);
      assert entries != [];
      forall q
        ensures LeafAt(Merged(lower, upper, append), q) <==> LeafInside(entries, q)
      {
        LeafOfObject(entries, q);
      }
    }
  }

  lemma ReplacementFromUpper(trace: Trace, after: Trace, p: seq<Token>, lower: Node, upper: Node, append: bool,
      layer: Layer)
    requires Reattributed(trace, after, p, upper, layer, AllLeaves(upper))
    requires !(lower.Object? && upper.Object?) && !(lower.Array? && upper.Array? && append)
    ensures Reattributed(trace, after, p, Merged(lower, upper, append), layer, UpperLeaves(lower, upper, append))
  {
    assert Merged(lower, upper, append) == upper;
    forall q
      ensures q in UpperLeaves(lower, upper, append)
    {
      assert FromUpper(lower, upper, append, q);
    }
  }

  // ----- Appended arrays -----

  /** A leaf strictly below an array with these items. */
  ghost predicate LeafInItems(items: seq<Node>, q: seq<Token>) {
    q != [] && q[0].Index? && q[0].index < |items| && LeafAt(items[q[0].index], q[1..])
  }

  lemma LeafOfArray(items: seq<Node>, q: seq<Token>)
    ensures LeafAt(Array(items), q) <==> if items == [] then q == [] else LeafInItems(items, q)
  {
  }

  /** The trace after appending the first `n` items of the upper array. */
  ghost predicate ItemsAttributed(before: Trace, after: Trace, p: seq<Token>, lower: Node, upper: Node, n: nat,
      layer: Layer)
    requires lower.Array? && upper.Array? && n <= |upper.items|
  {
    var items := lower.items + upper.items[..n];
    (forall q :: Format(p + q) in after <==> LeafInItems(items, q)) &&
    SameElsewhere(before, after, p) &&
    forall q: seq<Token> :: LeafInItems(items, q) ==>
      if |lower.items| <= q[0].index then after[Format(p + q)] == layer
      else Format(p + q) in before && after[Format(p + q)] == before[Format(p + q)]
  }

  lemma AppendStarts(trace: Trace, after: Trace, p: seq<Token>, lower: Node, upper: Node, layer: Layer)
    requires Printable(trace) && Covers(trace, p, lower) && lower.Array? && upper.Array?
    requires after == if lower.items == [] then trace - {Format(p)} else trace
    ensures Printable(after) && ItemsAttributed(trace, after, p, lower, upper, 0, layer)
  {
    assert lower.items + upper.items[..0] == lower.items;
    forall q
      ensures Format(p + q) in after <==> LeafInItems(lower.items, q)
    {
      LeafOfArray(lower.items, q);
      assert lower == Array(lower.items);
      if q == [] {
        assert p + q == p;
      }
    }
    forall s: string | !(exists q :: s == Format(p + q))
      ensures Agree(trace, after, s)
    {
      assert p + [] == p;
    }
  }

  lemma NothingAtNewItem(before: Trace, mid: Trace, p: seq<Token>, lower: Node, upper: Node, n: nat, layer: Layer)
    requires lower.Array? && upper.Array? && n < |upper.items|
    requires ItemsAttributed(before, mid, p, lower, upper, n, layer)
    ensures Vacant(mid, p + [Index(|lower.items| + n)])
  {
    var t := Index(|lower.items| + n);
    forall q
      ensures Format(p + [t] + q) !in mid
    {
      assert p + [t] + q == p + ([t] + q);
      assert !LeafInItems(lower.items + upper.items[..n], [t] + q);
    }
  }

  lemma AppendOneItem(before: Trace, mid: Trace, after: Trace, p: seq<Token>, lower: Node, upper: Node, n: nat,
      layer: Layer)
    requires lower.Array? && upper.Array? && n < |upper.items|
    requires ItemsAttributed(before, mid, p, lower, upper, n, layer)
    requires Reattributed(mid, after, p + [Index(|lower.items| + n)], upper.items[n], layer, AllLeaves(upper.items[n]))
    ensures ItemsAttributed(before, after, p, lower, upper, n + 1, layer)
  {
    hide Format, LeafAt;
    var m := |lower.items| + n;
    var p0 := p + [Index(m)];
    var items, items' := lower.items + upper.items[..n], lower.items + upper.items[..n + 1];
    assert items' == items + [upper.items[n]];
    forall q: seq<Token>
      ensures Format(p + q) in after <==> LeafInItems(items', q)
      ensures LeafInItems(items', q) ==>
                if |lower.items| <= q[0].index then after[Format(p + q)] == layer
                else Format(p + q) in before && after[Format(p + q)] == before[Format(p + q)]
    {
      if q != [] && q[0] == Index(m) {
        assert q == [Index(m)] + q[1..];
        assert p + q == p0 + q[1..];
        assert LeafInItems(items', q) <==> LeafAt(upper.items[n], q[1..]);
      } else {
        OutsideToken(p, Index(m), q);
        assert Agree(mid, after, Format(p + q));
        assert LeafInItems(items', q) <==> LeafInItems(items, q);
      }
    }
    OutsideParent(before, mid, after, p, Index(m));
  }

  lemma AppendEnds(trace: Trace, after: Trace, p: seq<Token>, lower: Node, upper: Node, layer: Layer)
    requires Covers(trace, p, lower) && lower.Array? && upper.Array?
    requires if upper.items == [] then after == trace
             else ItemsAttributed(trace, after, p, lower, upper, |upper.items|, layer)
    ensures Reattributed(trace, after, p, Merged(lower, upper, true), layer, UpperLeaves(lower, upper, true))
  {
    var items := lower.items + upper.items;
    assert Merged(lower, upper, true) == Array(items);
    assert upper.items[..|upper.items|] == upper.items;
    if upper.items == [] {
      assert Array(items) == lower;
    }
    forall q
      ensures LeafAt(Array(items), q) <==> if items == [] then q == [] else LeafInItems(items, q)
    {
      LeafOfArray(items, q);
    }
  }

  // ----- The merge itself -----

  /** The attribution of appended array elements. */
  method AttributeAppended(lower: Node, upper: Node, trace: Trace, layer: Layer, path: string, ghost p: seq<Token>)
    returns (after: Trace)
    requires lower.Array? && upper.Array? && UniqueKeys(upper)
    requires path == Format(p) && Printable(trace) && Covers(trace, p, lower)
    ensures Printable(after)
    ensures Reattributed(trace, after, p, Merged(lower, upper, true), layer, UpperLeaves(lower, upper, true))
  {
    hide Format, LeafAt, Covers, Reattributed, ItemsAttributed, Printable, UpperLeaves, AllLeaves, Collected;
    hide SameElsewhere, Vacant, Merged;
    after := trace;
    if upper.items != [] {
      if lower.items == [] {
        after := after - {path};
      }
      AppendStarts(trace, after, p, lower, upper, layer);
      for i := 0 to |upper.items|
        invariant Printable(after)
        invariant ItemsAttributed(trace, after, p, lower, upper, i, layer)
      {
        ghost var mid, t := after, Index(|lower.items| + i);
        FormatOfChild(p, t);
        NothingAtNewItem(trace, after, p, lower, upper, i, layer);
        after := CollectSourceTrace(upper.items[i], layer, JoinIndex(path, |lower.items| + i), after, p + [t]);
        CollectedFresh(mid, after, p + [t], upper.items[i], layer);
        ReattributedPrintable(mid, after, p + [t], upper.items[i], layer, AllLeaves(upper.items[i]));
        AppendOneItem(trace, mid, after, p, lower, upper, i, layer);
      }
    }
    AppendEnds(trace, after, p, lower, upper, layer);
  }

  method MergeInternal(lower: Node, upper: Node, append: bool, tracing: bool, trace: Trace, layer: Layer, path: string,
                       ghost p: seq<Token>)
    returns (out: Node, after: Trace)
    requires UniqueKeys(lower) && UniqueKeys(upper)
    requires tracing ==> path == Format(p) && Printable(trace) && Covers(trace, p, lower)
    ensures out == Merged(lower, upper, append)
    ensures !tracing ==> after == trace
    ensures tracing ==> Printable(after) && Reattributed(trace, after, p, out, layer, UpperLeaves(lower, upper, append))
    decreases upper
  {
    hide Format, LeafAt, Covers, Reattributed, EntriesAttributed, ItemsAttributed, Printable, UpperLeaves, AllLeaves,
         Collected, SameElsewhere, Vacant, UpperInside, AddedBy;
    after := trace;
    if lower.Object? && upper.Object? {
      var target, source := lower.entries, upper.entries;
      if tracing && target == [] && source != [] {
        after := after - {path};
      }
      if tracing && source != [] {
        ObjectMergeStarts(trace, after, p, lower, upper, append, layer);
      }
      for i := 0 to |source|
        invariant target == MergedEntries(lower.entries, upper, i, append)
        invariant !tracing ==> after == trace
        invariant tracing ==> Printable(after)
        invariant tracing && source == [] ==> after == trace
        invariant tracing && source != [] ==> EntriesAttributed(trace, after, p, lower, upper, i, append, layer)
      {
        var entry := source[i];
        var key := "";
        if tracing {
          key := EscapePathSegment(entry.0);
          FormatOfChild(p, Key(entry.0));
          CoversChild(trace, after, p, lower, upper, i, append, layer);
        }
        var next := JoinObjectPath(path, key);
        var index := FindObjectIndex(target, entry.0);
        ghost var mid, p0 := after, p + [Key(entry.0)];
        ChildStillLower(lower, upper, i, append);
        if index.None? {
          target := target + [entry];
          if tracing {
            after := CollectSourceTrace(entry.1, layer, next, after, p0);
            CollectedFresh(mid, after, p0, entry.1, layer);
            ReattributedPrintable(mid, after, p0, entry.1, layer, AllLeaves(entry.1));
            NewKeyFromUpper(lower, upper, i, append);
            MergeOneKey(trace, mid, after, p, lower, upper, i, append, layer, entry.1, AllLeaves(entry.1));
          }
        } else {
          var j := index.value;
          var child := target[j].1;
          assert Get(lower.entries, entry.0) == Some(child);
          assert UniqueKeys(child) by {
            assert lower.entries[FindIndex(lower.entries, entry.0)].1 == child;
          }
          var mergedChild;
          mergedChild, after := MergeInternal(child, entry.1, append, tracing, after, layer, next, p0);
          target := target[j := (target[j].0, mergedChild)];
          if tracing {
            SharedKeyFromUpper(lower, upper, i, append, child);
            MergeOneKey(trace, mid, after, p, lower, upper, i, append, layer, mergedChild,
                        UpperLeaves(child, entry.1, append));
          }
        }
      }
      out := Object(target);
      if tracing {
        ObjectMergeEnds(trace, after, p, lower, upper, append, layer);
      }
      return;
    }
    if lower.Array? && upper.Array? && append {
      if tracing {
        after := AttributeAppended(lower, upper, trace, layer, path, p);
      }
      out := Array(lower.items + upper.items);
      return;
    }
    if tracing {
      var erased := EraseSourceTraceSubtree(trace, path);
      after := CollectSourceTrace(upper, layer, path, erased, p);
      ReplacedSubtree(trace, erased, after, p, upper, layer);
      ReplacementFromUpper(trace, after, p, lower, upper, append, layer);
      ReattributedPrintable(trace, after, p, upper, layer, AllLeaves(upper));
    }
    out := upper;
  }
}
