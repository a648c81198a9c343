/** Composing configuration layers: what the attribution says about the composed values. */
module CfgCompose {
  import opened Text
  import opened CfgPath
  import opened CfgNode
  import opened CfgMerge

  // ----- Where merged values come from -----

  lemma MergedNonempty(lower: Node, upper: Node, append: bool)
    requires lower.Object? && upper.Object? && DistinctKeys(upper.entries)
    ensures Merged(lower, upper, append) == Object([]) <==> lower.entries == [] && upper.entries == []
  {
    if lower.entries != [] {
      GetMergedAll(lower, upper, append, lower.entries[0].0);
    } else if upper.entries != [] {
      GetMergedAll(lower, upper, append, upper.entries[0].0);
    }
  }

  /** At a leaf it did not supply, the upper layer has nothing, or an empty object over an empty object. */
  ghost predicate Silent(upper: Node, q: seq<Token>, value: Node) {
    At(upper, q).Err? || (At(upper, q) == Ok(Object([])) && value == Object([]))
  }

  /** A merged leaf is the upper layer's leaf where the upper layer supplied it, and otherwise the
      lower layer's leaf, about which the upper layer has nothing else to say. */
  lemma {:induction false} LeafComesFrom(lower: Node, upper: Node, append: bool, q: seq<Token>)
    requires UniqueKeys(upper) && LeafAt(Merged(lower, upper, append), q)
    ensures var value := At(Merged(lower, upper, append), q);
            if FromUpper(lower, upper, append, q) then !append ==> At(upper, q) == value
            else At(lower, q) == value && (!append ==> Silent(upper, q, value.value))
    decreases |q|
  {
    var merged := Merged(lower, upper, append);
    if lower.Object? && upper.Object? {
      if q == [] {
        MergedNonempty(lower, upper, append);
        assert lower == Object([]) && upper == Object([]);
      } else {
        assert q[0].Key?;
        var k := q[0].key;
        GetMergedAll(lower, upper, append, k);
        AtKey(merged, q);
        AtKey(lower, q);
        AtKey(upper, q);
        match (Get(lower.entries, k), Get(upper.entries, k))
        case (Some(a), Some(b)) =>
          assert UniqueKeys(b) by {
            assert upper.entries[FindIndex(upper.entries, k)].1 == b;
          }
          LeafComesFrom(a, b, append, q[1..]);
        case _ =>
      }
    } else if lower.Array? && upper.Array? && append {
      if q == [] {
        assert merged == Array([]);
        assert lower == merged;
      }
    }
  }

  lemma {:induction false} MergedUnique(lower: Node, upper: Node, append: bool)
    requires UniqueKeys(lower) && UniqueKeys(upper)
    ensures UniqueKeys(Merged(lower, upper, append))
    decreases upper, 1
  {
    if lower.Object? && upper.Object? {
      MergedEntriesUnique(lower, upper, |upper.entries|, append);
    } else if lower.Array? && upper.Array? && append {
      var items := lower.items + upper.items;
      forall i | 0 <= i < |items|
        ensures UniqueKeys(items[i])
      {
        if i >= |lower.items| {
          assert items[i] == upper.items[i - |lower.items|];
        }
      }
    }
  }

  lemma {:induction false} MergedEntriesUnique(lower: Node, upper: Node, n: nat, append: bool)
    requires lower.Object? && upper.Object? && n <= |upper.entries| && UniqueKeys(lower) && UniqueKeys(upper)
    ensures UniqueKeys(Object(MergedEntries(lower.entries, upper, n, append)))
    decreases upper, 0, n
  {
    if n > 0 {
      MergedEntriesUnique(lower, upper, n - 1, append);
      var done := MergedEntries(lower.entries, upper, n - 1, append);
      var (k, v) := upper.entries[n - 1];
      var j := FindIndex(done, k);
      if j < |done| {
        MergedUnique(done[j].1, v, append);
      }
    }
  }

  // ----- Layer stacks -----

  type Stack = seq<(Layer, Node)>

  ghost predicate UniqueStack(stack: Stack) {
    forall i :: 0 <= i < |stack| ==> UniqueKeys(stack[i].1)
  }

  /** The stack's layers merged from the bottom up. */
  function Composed(stack: Stack, append: bool): Node
    requires stack != []
  {
    if |stack| == 1 then stack[0].1
    else Merged(Composed(stack[..|stack| - 1], append), stack[|stack| - 1].1, append)
  }

  /** Layer `i` holds the leaf `q` with this value and every layer above it is silent about `q`. */
  ghost predicate Supplies(stack: Stack, i: nat, layer: Layer, q: seq<Token>, value: Node) {
    i < |stack| && stack[i].0 == layer && At(stack[i].1, q) == Ok(value) &&
    forall j :: i < j < |stack| ==> Silent(stack[j].1, q, value)
  }

  /** The trace holds exactly the composed tree's leaves; without array appending each names the
      topmost layer with anything to say at that leaf, and that layer's value is the composed one. */
  ghost predicate Explains(trace: Trace, stack: Stack, append: bool)
    requires stack != []
  {
    Printable(trace) && Covers(trace, [], Composed(stack, append)) &&
    (!append ==> forall q :: LeafAt(Composed(stack, append), q) ==>
      exists i :: Supplies(stack, i, trace[Format([] + q)], q, At(Composed(stack, append), q).value))
  }

  lemma ExplainsOneMore(before: Trace, after: Trace, stack: Stack, layer: Layer, upper: Node, append: bool)
    requires stack != [] && UniqueKeys(upper) && Explains(before, stack, append) && Printable(after)
    requires var lower := Composed(stack, append);
             Reattributed(before, after, [], Merged(lower, upper, append), layer, UpperLeaves(lower, upper, append))
    ensures Composed(stack + [(layer, upper)], append) == Merged(Composed(stack, append), upper, append)
    ensures Explains(after, stack + [(layer, upper)], append)
  {
    var more, lower := stack + [(layer, upper)], Composed(stack, append);
    assert more[..|more| - 1] == stack;
    var merged := Merged(lower, upper, append);
    if !append {
      forall q | LeafAt(merged, q)
        ensures exists i :: Supplies(more, i, after[Format([] + q)], q, At(merged, q).value)
      {
        LeafComesFrom(lower, upper, append, q);
        if FromUpper(lower, upper, append, q) {
          assert Supplies(more, |stack|, layer, q, At(merged, q).value);
        } else {
          var i :| Supplies(stack, i, before[Format([] + q)], q, At(lower, q).value);
          assert Supplies(more, i, after[Format([] + q)], q, At(merged, q).value);
        }
      }
    }
  }

  lemma ExplainsBase(trace: Trace, base: Node, append: bool)
    requires Collected(map[], trace, [], base, Base)
    ensures Explains(trace, [(Base, base)], append)
  {
    var stack := [(Base, base)];
    CollectedFresh(map[], trace, [], base, Base);
    ReattributedPrintable(map[], trace, [], base, Base, AllLeaves(base));
    forall q | LeafAt(base, q)
      ensures exists i :: Supplies(stack, i, trace[Format([] + q)], q, At(base, q).value)
    {
      assert Supplies(stack, 0, Base, q, At(base, q).value);
    }
  }

  // ----- Composition -----

  datatype Composition = Composition(root: Node, source: seq<(string, Layer)>)

  function Present(layer: Layer, node: Option<Node>): Stack {
    match node
    case None => []
    case Some(n) => [(layer, n)]
  }

  /** The precedence order: base, environment, remote, local, runtime overrides. */
  function Layers(base: Node, env: Option<Node>, remote: Option<Node>, local: Option<Node>,
      runtime: Option<Node>): Stack {
    [(Base, base)] + Present(Env, env) + Present(Remote, remote) + Present(Local, local) + Present(Runtime, runtime)
  }

  /** The name under which an attribution is reported; the root's own path is empty. */
  function ShownName(path: string): string {
    if path == "" then "value" else path
  }

  method MergeLayer(out: Node, trace: Trace, layer: Layer, node: Option<Node>, append: bool, tracing: bool,
      ghost stack: Stack)
    returns (out': Node, trace': Trace)
    requires stack != [] && UniqueStack(stack + Present(layer, node))
    requires out == Composed(stack, append) && UniqueKeys(out)
    requires tracing ==> Explains(trace, stack, append)
    ensures out' == Composed(stack + Present(layer, node), append) && UniqueKeys(out')
    ensures tracing ==> Explains(trace', stack + Present(layer, node), append)
  {
    out', trace' := out, trace;
    ghost var more := stack + Present(layer, node);
    if node.Some? {
      assert more[|stack|].1 == node.value;
      assert more[..|more| - 1] == stack;
      MergedUnique(out, node.value, append);
      out', trace' := MergeInternal(out, node.value, append, tracing, trace, layer, "", []);
      if tracing {
        ExplainsOneMore(trace, trace', stack, layer, node.value, append);
      }
    } else {
      assert more == stack;
    }
  }

  function Overrides(runtime: Option<Result<Node, string>>): Option<Node> {
    if runtime.Some? && runtime.value.Ok? then Some(runtime.value.value) else None
  }

  lemma ComposedBase(base: Node, append: bool)
    ensures Composed([(Base, base)], append) == base
  {
  }

  /** `runtime` is the materialised override layer, or the error of materialising it. */
  method ComposeLayers(base: Node, env: Option<Node>, local: Option<Node>, runtime: Option<Result<Node, string>>,
                       append: bool, tracing: bool, remote: Option<Node>)
    returns (r: Result<Composition, string>)
    requires UniqueStack(Layers(base, env, remote, local, Overrides(runtime)))
    ensures r.Err? <==> runtime.Some? && runtime.value.Err?
    ensures r.Ok? ==>
              var stack := Layers(base, env, remote, local, Overrides(runtime));
              r.value.root == Composed(stack, append) &&
              (tracing ==> Reports(r.value.source, stack, append) && Ascending(PathsOf(r.value.source)))
  {
    hide Composed, Explains, Reports, Ascending, UniqueKeys, Collected;
    ghost var all := Layers(base, env, remote, local, Overrides(runtime));
    ghost var stack := [(Base, base)];
    ComposedBase(base, append);
    assert forall i :: 0 <= i < |all| ==> UniqueKeys(all[i].1);
    assert all[0] == stack[0];
    var out, trace: Trace := base, map[];
    if tracing {
      trace := CollectSourceTrace(base, Base, "", trace, []);
      ExplainsBase(trace, base, append);
    }
    PrefixUnique(all, stack + Present(Env, env));
    out, trace := MergeLayer(out, trace, Env, env, append, tracing, stack);
    stack := stack + Present(Env, env);
    PrefixUnique(all, stack + Present(Remote, remote));
    out, trace := MergeLayer(out, trace, Remote, remote, append, tracing, stack);
    stack := stack + Present(Remote, remote);
    PrefixUnique(all, stack + Present(Local, local));
    out, trace := MergeLayer(out, trace, Local, local, append, tracing, stack);
    stack := stack + Present(Local, local);
    var overrides: Option<Node> := None;
    if runtime.Some? {
      if runtime.value.Err? {
        return Err(runtime.value.error);
      }
      overrides := Some(runtime.value.value);
    }
    PrefixUnique(all, stack + Present(Runtime, overrides));
    out, trace := MergeLayer(out, trace, Runtime, overrides, append, tracing, stack);
    stack := stack + Present(Runtime, overrides);
    assert stack == all;
    var source := [];
    if tracing {
      source := ReportSources(trace, all, append);
    }
    return Ok(Composition(out, source));
  }

  lemma PrefixUnique(all: Stack, stack: Stack)
    requires UniqueStack(all) && stack <= all
    ensures UniqueStack(stack)
  {
  }

  /** What the reported attribution promises: every leaf of the composed tree is reported once
      under its printed path, nothing else is reported, and without array appending the reported
      layer is the topmost one with anything to say there and holds the composed value. */
  ghost predicate Reports(source: seq<(string, Layer)>, stack: Stack, append: bool)
    requires stack != []
  {
    var root := Composed(stack, append);
    (forall i, j :: 0 <= i < j < |source| ==> source[i].0 != source[j].0) &&
    (forall q :: LeafAt(root, q) ==> exists i :: 0 <= i < |source| && source[i].0 == ShownName(Format(q))) &&
    forall i :: 0 <= i < |source| ==> Reported(source[i], stack, append)
  }

  ghost predicate Reported(entry: (string, Layer), stack: Stack, append: bool)
    requires stack != []
  {
    exists q :: ReportedLeaf(entry, stack, append, q)
  }

  ghost predicate ReportedLeaf(entry: (string, Layer), stack: Stack, append: bool, q: seq<Token>)
    requires stack != []
  {
    var root := Composed(stack, append);
    LeafAt(root, q) && entry.0 == ShownName(Format(q)) &&
    (!append ==> exists i :: Supplies(stack, i, entry.1, q, At(root, q).value))
  }

  function PathsOf(source: seq<(string, Layer)>): (paths: seq<string>)
    ensures |paths| == |source| && forall i :: 0 <= i < |paths| ==> paths[i] == source[i].0
  {
    seq(|source|, i requires 0 <= i < |source| => source[i].0)
  }

  /** Lists the trace in key order. */
  method ReportSources(trace: Trace, ghost stack: Stack, ghost append: bool) returns (source: seq<(string, Layer)>)
    requires stack != [] && Explains(trace, stack, append)
    ensures Reports(source, stack, append) && Ascending(PathsOf(source))
  {
    hide Composed, LexLe, Covers, Reports, ShownName;
    source := [];
    ghost var keys: seq<string> := [];
    var rest := trace;
    while rest != map[]
      invariant rest.Keys <= trace.Keys && forall k :: k in rest ==> rest[k] == trace[k]
      invariant |keys| == |source|
      invariant forall i :: 0 <= i < |keys| ==>
                  keys[i] in trace && keys[i] !in rest && source[i] == (ShownName(keys[i]), trace[keys[i]])
      invariant forall i, j :: 0 <= i < j < |keys| ==> keys[i] != keys[j]
      invariant forall k :: k in trace && k !in rest ==> k in keys
      invariant Ascending(keys) && forall i, k :: 0 <= i < |keys| && k in rest ==> LexLe(keys[i], k)
      decreases rest.Keys
    {
      var least := Smallest(rest.Keys);
      AscendingSnoc(keys, least);
      source := source + [(ShownName(least), rest[least])];
      keys := keys + [least];
      rest := rest - {least};
    }
    ListedKeysReport(trace, stack, append, keys, source);
    ShownAscending(trace, Composed(stack, append), keys, source);
  }

  /** Showing the root's path as "value" keeps the order: then there is nothing else to show. */
  lemma ShownAscending(trace: Trace, root: Node, keys: seq<string>, source: seq<(string, Layer)>)
    requires Printable(trace) && Covers(trace, [], root) && |keys| == |source| && Ascending(keys)
    requires forall i :: 0 <= i < |keys| ==> keys[i] in trace && source[i].0 == ShownName(keys[i])
    requires forall i, j :: 0 <= i < j < |keys| ==> keys[i] != keys[j]
    ensures Ascending(PathsOf(source))
  {
    forall i, j | 0 <= i < j < |keys| ensures LexLe(source[i].0, source[j].0) {
      if keys[i] == "" {
        RootKey(trace, root);
        OnlyRootLeaf(root, trace, keys[j]);
      }
    }
  }

  lemma ListedKeysReport(trace: Trace, stack: Stack, append: bool, keys: seq<string>, source: seq<(string, Layer)>)
    requires stack != [] && Explains(trace, stack, append) && |keys| == |source|
    requires forall i :: 0 <= i < |keys| ==> keys[i] in trace && source[i] == (ShownName(keys[i]), trace[keys[i]])
    requires forall i, j :: 0 <= i < j < |keys| ==> keys[i] != keys[j]
    requires forall k :: k in trace ==> k in keys
    ensures Reports(source, stack, append)
  {
    hide Composed, LeafAt, Format, Supplies, ShownName, Reported;
    var root := Composed(stack, append);
    forall q | LeafAt(root, q)
      ensures exists i :: 0 <= i < |source| && source[i].0 == ShownName(Format(q))
    {
      assert [] + q == q;
      assert Format(q) in trace;
      var i :| 0 <= i < |keys| && keys[i] == Format(q);
      assert source[i].0 == ShownName(Format(q));
    }
    forall i | 0 <= i < |source|
      ensures Reported(source[i], stack, append)
    {
      TracedKeyReported(trace, stack, append, keys[i]);
    }
    forall i, j | 0 <= i < j < |source|
      ensures source[i].0 != source[j].0
    {
      ShownNamesDistinct(trace, root, keys[i], keys[j]);
    }
  }

  lemma ShownNamesDistinct(trace: Trace, root: Node, a: string, b: string)
    requires Printable(trace) && Covers(trace, [], root) && a in trace && b in trace && a != b
    ensures ShownName(a) != ShownName(b)
  {
    if a == "" || b == "" {
      RootKey(trace, root);
      OnlyRootLeaf(root, trace, a);
      OnlyRootLeaf(root, trace, b);
    }
  }

  lemma TracedKeyReported(trace: Trace, stack: Stack, append: bool, k: string)
    requires stack != [] && Explains(trace, stack, append) && k in trace
    ensures Reported((ShownName(k), trace[k]), stack, append)
  {
    hide Composed, LeafAt, Format, Supplies;
    var q :| k == Format(q);
    assert [] + q == q;
    assert ReportedLeaf((ShownName(k), trace[k]), stack, append, q);
  }

  lemma RootKey(trace: Trace, root: Node)
    requires Covers(trace, [], root) && "" in trace
    ensures IsLeaf(root)
  {
    hide Format;
    FormatNonempty([]);
    var none: seq<Token> := [];
    assert none + none == none;
    assert LeafAt(root, none);
  }

  lemma LeafPath(root: Node, trace: Trace, k: string)
    requires IsLeaf(root) && k in trace && Printable(trace) && Covers(trace, [], root)
    ensures k == Format([])
  {
    hide Format, LeafAt, At;
    var q :| k == Format(q);
    assert [] + q == q;
    assert LeafAt(root, q);
    LeafIsOk(root, q);
    NothingInsideLeaf(root, q);
  }

  /** When the root itself is a leaf it is the only one. */
  lemma OnlyRootLeaf(root: Node, trace: Trace, k: string)
    requires IsLeaf(root) && k in trace && Printable(trace) && Covers(trace, [], root)
    ensures k == ""
  {
    hide Format, LeafAt, Covers;
    LeafPath(root, trace, k);
    FormatNonempty([]);
  }
}
