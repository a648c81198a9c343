/** Configuration trees and path access: reading a node and the in-place, auto-expanding write. */
module CfgNode {
  import opened Text
  import opened CfgPath

  type Int64 = i: int | -0x8000_0000_0000_0000 <= i < 0x8000_0000_0000_0000

  /** An object keeps its entries in order; a double is an opaque token. */
  datatype Node =
    | Null
    | Boolean(flag: bool)
    | Integer(value: Int64)
    | Double(token: string)
    | Str(text: string)
    | Object(entries: seq<(string, Node)>)
    | Array(items: seq<Node>)

  datatype NodeError =
    | BadPath(path: PathError)
    | ExpectedObject(key: string)
    | ExpectedArray
    | KeyNotFound(key: string)
    | IndexOutOfRange
    | IndexTooLarge

  // ----- Looking a key up -----

  /** The position of the first entry with this key, or the number of entries. */
  function FindIndex(entries: seq<(string, Node)>, key: string): (i: nat)
    ensures i <= |entries|
    ensures i < |entries| ==> entries[i].0 == key
    ensures forall j :: 0 <= j < i ==> entries[j].0 != key
  {
    if entries == [] || entries[0].0 == key then 0
    else
      var i := FindIndex(entries[1..], key);
      assert forall j :: 1 <= j < i + 1 ==> entries[j] == entries[1..][j - 1];
      i + 1
  }

  lemma FindIndexIs(entries: seq<(string, Node)>, key: string, i: nat)
    requires i < |entries| && entries[i].0 == key
    requires forall j :: 0 <= j < i ==> entries[j].0 != key
    ensures FindIndex(entries, key) == i
  {
  }

  method FindObjectIndex(entries: seq<(string, Node)>, key: string) returns (found: Option<nat>)
    ensures found == if FindIndex(entries, key) < |entries| then Some(FindIndex(entries, key)) else None
  {
    for i := 0 to |entries|
      invariant forall j :: 0 <= j < i ==> entries[j].0 != key
    {
      if entries[i].0 == key {
        return Some(i);
      }
    }
    return None;
  }

  // ----- Reading -----

  function Child(node: Node, t: Token): Result<Node, NodeError> {
    match t
    case Key(k) =>
      if !node.Object? then Err(ExpectedObject(k))
      else if FindIndex(node.entries, k) == |node.entries| then Err(KeyNotFound(k))
      else Ok(node.entries[FindIndex(node.entries, k)].1)
    case Index(n) =>
      if !node.Array? then Err(ExpectedArray)
      else if n >= |node.items| then Err(IndexOutOfRange)
      else Ok(node.items[n])
  }

  /** The node a token list leads to. */
  function At(node: Node, tokens: seq<Token>): Result<Node, NodeError>
    decreases |tokens|
  {
    if tokens == [] then Ok(node)
    else
      var child := Child(node, tokens[0]);
      if child.Err? then child else At(child.value, tokens[1..])
  }

  lemma {:induction false} AtConcat(node: Node, p: seq<Token>, q: seq<Token>)
    ensures At(node, p + q) == if At(node, p).Ok? then At(At(node, p).value, q) else At(node, p)
    decreases |p|
  {
    if p == [] {
      assert p + q == q;
    } else {
      assert (p + q)[1..] == p[1..] + q;
      var child := Child(node, p[0]);
      if child.Ok? {
        AtConcat(child.value, p[1..], q);
      }
    }
  }

  lemma AtUnfolds(node: Node, q: seq<Token>)
    requires q != []
    ensures At(node, q) == if Child(node, q[0]).Err? then Child(node, q[0]) else At(Child(node, q[0]).value, q[1..])
  {
  }

  lemma AtSingle(node: Node, t: Token)
    ensures At(node, [t]) == Child(node, t)
  {
    assert [t][1..] == [];
    if Child(node, t).Ok? {
      assert At(Child(node, t).value, []) == Child(node, t);
    }
  }

  /** `child` is what `node` holds under this token. */
  ghost predicate Holds(node: Node, t: Token, child: Node) {
    match t
    case Key(k) =>
      node.Object? &&
      exists i ::
        0 <= i < |node.entries| && node.entries[i] == (k, child) && forall j :: 0 <= j < i ==> node.entries[j].0 != k
    case Index(n) => node.Array? && n < |node.items| && node.items[n] == child
  }

  /** A walk from a root along a token list, one node for every position of the list. */
  ghost predicate IsWalk(root: Node, tokens: seq<Token>, nodes: seq<Node>) {
    && |nodes| == |tokens| + 1 && nodes[0] == root
    && forall i :: 0 <= i < |tokens| ==> Holds(nodes[i], tokens[i], nodes[i + 1])
  }

  lemma HoldsIff(node: Node, t: Token, child: Node)
    ensures Holds(node, t, child) <==> Child(node, t) == Ok(child)
  {
    if t.Key? && Holds(node, t, child) {
      var i :| 0 <= i < |node.entries| && node.entries[i] == (t.key, child) &&
        forall j :: 0 <= j < i ==> node.entries[j].0 != t.key;
      FindIndexIs(node.entries, t.key, i);
    }
  }

  /** A path reads a node exactly if there is a walk that ends there. */
  lemma {:induction false} ReadsIff(root: Node, tokens: seq<Token>, v: Node)
    ensures At(root, tokens) == Ok(v) <==> exists nodes :: IsWalk(root, tokens, nodes) && nodes[|tokens|] == v
    decreases |tokens|
  {
    hide Child, Holds;
    if tokens == [] {
      assert At(root, tokens) == Ok(v) ==> IsWalk(root, tokens, [v]);
      return;
    }
    var t, rest := tokens[0], tokens[1..];
    if At(root, tokens) == Ok(v) {
      var child := Child(root, t).value;
      ReadsIff(child, rest, v);
      var below :| IsWalk(child, rest, below) && below[|rest|] == v;
      HoldsIff(root, t, child);
      assert IsWalk(root, tokens, [root] + below);
    }
    if nodes :| IsWalk(root, tokens, nodes) && nodes[|tokens|] == v {
      HoldsIff(root, t, nodes[1]);
      assert IsWalk(nodes[1], rest, nodes[1..]);
      ReadsIff(nodes[1], rest, v);
    }
  }

  method GetNode(root: Node, path: string) returns (r: Result<Node, NodeError>)
    ensures r == if Parse(path).Err? then Err(BadPath(Parse(path).error)) else At(root, Parse(path).value)
  {
    var parsed := ParsePath(path);
    if parsed.Err? {
      return Err(BadPath(parsed.error));
    }
    var tokens, current := parsed.value, root;
    for i := 0 to |tokens|
      invariant At(current, tokens[i..]) == At(root, tokens)
    {
      var token := tokens[i];
      assert tokens[i..][1..] == tokens[i + 1..];
      if token.Key? {
        if !current.Object? {
          return Err(ExpectedObject(token.key));
        }
        var index := FindObjectIndex(current.entries, token.key);
        if index.None? {
          return Err(KeyNotFound(token.key));
        }
        current := current.entries[index.value].1;
      } else {
        if !current.Array? {
          return Err(ExpectedArray);
        }
        if token.index >= |current.items| {
          return Err(IndexOutOfRange);
        }
        current := current.items[token.index];
      }
    }
    return Ok(current);
  }

  // ----- Writing -----

  function Padded(items: seq<Node>, length: nat): (r: seq<Node>)
    ensures |r| == if length > |items| then length else |items|
    ensures items <= r
    ensures forall i :: |items| <= i < |r| ==> r[i] == Null
  {
    if length <= |items| then items else items + seq(length - |items|, _ => Null)
  }

  /** The container a write through `t` works on: `Null` becomes an empty container, a missing
      key is appended and a short array grows, in both cases with `Null` at the new place. */
  function Opened(node: Node, t: Token): (r: Result<Node, NodeError>)
    ensures r.Ok? ==> Child(r.value, t).Ok?
    ensures r.Ok? && r.value != node ==> Child(r.value, t) == Ok(Null)
  {
    match t
    case Key(k) =>
      if !node.Null? && !node.Object? then Err(ExpectedObject(k))
      else
        var entries := if node.Null? then [] else node.entries;
        var i := FindIndex(entries, k);
        if i < |entries| then Ok(Object(entries))
        else
          var grown := entries + [(k, Null)];
          FindIndexIs(grown, k, |entries|);
          Ok(Object(grown))
    case Index(n) =>
      if !node.Null? && !node.Array? then Err(ExpectedArray)
      else Ok(Array(Padded(if node.Null? then [] else node.items, n + 1)))
  }

  /** The container with the element that `t` names replaced. */
  function WithChild(node: Node, t: Token, v: Node): (r: Node)
    requires Child(node, t).Ok?
    ensures Child(r, t) == Ok(v)
  {
    match t
    case Key(k) =>
      var i := FindIndex(node.entries, k);
      var r := Object(node.entries[i := (k, v)]);
      SameKeysSameIndex(node.entries, r.entries);
      r
    case Index(n) => Array(node.items[n := v])
  }

  lemma WithChildKeeps(node: Node, t: Token, v: Node, u: Token)
    requires Child(node, t).Ok? && u != t && Child(node, u).Ok?
    ensures Child(WithChild(node, t, v), u) == Child(node, u)
  {
    if t.Key? {
      SameKeysSameIndex(node.entries, WithChild(node, t, v).entries);
    }
  }

  lemma SameKeysSameIndex(a: seq<(string, Node)>, b: seq<(string, Node)>)
    requires |a| == |b| && forall i :: 0 <= i < |a| ==> a[i].0 == b[i].0
    ensures forall k :: FindIndex(a, k) == FindIndex(b, k)
  {
    forall k
      ensures FindIndex(a, k) == FindIndex(b, k)
    {
      var i := FindIndex(a, k);
      if i < |a| {
        FindIndexIs(b, k, i);
      }
    }
  }

  /** The tree with the node at an existing path replaced: a write through a pointer into it. */
  function PutAt(node: Node, tokens: seq<Token>, v: Node): (r: Node)
    requires At(node, tokens).Ok?
    decreases |tokens|
  {
    if tokens == [] then v
    else WithChild(node, tokens[0], PutAt(Child(node, tokens[0]).value, tokens[1..], v))
  }

  /** What a write of `v` at `tokens` should produce. */
  function Written(node: Node, tokens: seq<Token>, v: Node): Result<Node, NodeError>
    decreases |tokens|
  {
    if tokens == [] then Ok(v)
    else
      var container := Opened(node, tokens[0]);
      if container.Err? then container
      else
        var child := Written(Child(container.value, tokens[0]).value, tokens[1..], v);
        if child.Err? then child else Ok(WithChild(container.value, tokens[0], child.value))
  }

  lemma {:induction false} PutAtDeeper(node: Node, p: seq<Token>, t: Token, v: Node)
    requires At(node, p).Ok? && Child(At(node, p).value, t).Ok?
    ensures At(node, p + [t]).Ok?
    ensures PutAt(node, p + [t], v) == PutAt(node, p, WithChild(At(node, p).value, t, v))
    decreases |p|
  {
    AtConcat(node, p, [t]);
    if p == [] {
      assert p + [t] == [t] && [t][1..] == [];
    } else {
      assert (p + [t])[1..] == p[1..] + [t];
      PutAtDeeper(Child(node, p[0]).value, p[1..], t, v);
    }
  }

  lemma {:induction false} AtPutAt(node: Node, p: seq<Token>, v: Node)
    requires At(node, p).Ok?
    ensures At(PutAt(node, p, v), p) == Ok(v)
    decreases |p|
  {
    if p != [] {
      AtPutAt(Child(node, p[0]).value, p[1..], v);
    }
  }

  lemma {:induction false} PutAtTwice(node: Node, p: seq<Token>, v: Node, w: Node)
    requires At(node, p).Ok?
    ensures At(PutAt(node, p, v), p).Ok?
    ensures PutAt(PutAt(node, p, v), p, w) == PutAt(node, p, w)
    decreases |p|
  {
    AtPutAt(node, p, v);
    if p != [] {
      var child := Child(node, p[0]).value;
      PutAtTwice(child, p[1..], v, w);
      WithChildTwice(node, p[0], PutAt(child, p[1..], v), PutAt(child, p[1..], w));
    }
  }

  lemma WithChildTwice(node: Node, t: Token, v: Node, w: Node)
    requires Child(node, t).Ok?
    ensures WithChild(WithChild(node, t, v), t, w) == WithChild(node, t, w)
  {
    if t.Key? {
      var once := WithChild(node, t, v);
      SameKeysSameIndex(node.entries, once.entries);
    }
  }

  lemma {:induction false} PutAtSame(node: Node, p: seq<Token>)
    requires At(node, p).Ok?
    ensures PutAt(node, p, At(node, p).value) == node
    decreases |p|
  {
    if p != [] {
      var child := Child(node, p[0]).value;
      PutAtSame(child, p[1..]);
      if p[0].Key? {
        var i := FindIndex(node.entries, p[0].key);
        assert node.entries[i := (p[0].key, child)] == node.entries;
      } else {
        assert node.items[p[0].index := child] == node.items;
      }
    }
  }

  /** A document whose root the setter edits in place, one container after the other. */
  class Document {
    var root: Node

    constructor (node: Node)
      ensures root == node
    {
      root := node;
    }

    /** The write either completes as specified or reports an error and leaves the whole tree
        as it was, although containers are created while the path is still being walked. */
    method SetNode(path: string, value: Node, maxArraySize: nat) returns (r: Result<(), NodeError>)
      modifies this
      ensures Parse(path).Err? ==> r == Err(BadPath(Parse(path).error))
      ensures Parse(path).Ok? && TooLarge(Parse(path).value, maxArraySize) ==> r == Err(IndexTooLarge)
      ensures Parse(path).Ok? && !TooLarge(Parse(path).value, maxArraySize) ==>
                match Written(old(root), Parse(path).value, value)
                case Ok(written) => r == Ok(()) && root == written
                case Err(error) => r == Err(error)
      ensures r.Err? ==> root == old(root)
    {
      hide Parse, Written;
      var parsed := ParsePath(path);
      if parsed.Err? {
        return Err(BadPath(parsed.error));
      }
      var tokens := parsed.value;
      for i := 0 to |tokens|
        invariant forall j :: 0 <= j < i && tokens[j].Index? ==> tokens[j].index < maxArraySize
      {
        if tokens[i].Index? && tokens[i].index >= maxArraySize {
          return Err(IndexTooLarge);
        }
      }
      r := Walk(tokens, value);
    }

    /** The walk to the node to be written, which opens containers on its way. */
    method Walk(tokens: seq<Token>, value: Node) returns (r: Result<(), NodeError>)
      modifies this
      ensures match Written(old(root), tokens, value)
              case Ok(written) => r == Ok(()) && root == written
              case Err(error) => r == Err(error)
      ensures r.Err? ==> root == old(root)
    {
      hide Written, Opened, At, PutAt, Child, FindIndex, WithChild, Padded, Rewrapped;
      ghost var before := root;
      var current := root;
      WalkBegins(root, tokens, value);
      for i := 0 to |tokens|
        invariant Walking(before, root, tokens, tokens[..i], tokens[i..], current, value)
      {
        var token := tokens[i];
        assert tokens[i..][0] == token;
        assert tokens[i..][1..] == tokens[i + 1..] && tokens[..i + 1] == tokens[..i] + [token];
        var container := OpenContainer(current, token);
        if container.Err? {
          WalkFails(before, root, tokens, tokens[..i], tokens[i..], current, value);
          return Err(container.error);
        }
        OpenedHas(current, token);
        WalkStep(before, root, tokens, tokens[..i], tokens[i..], current, value, container.value);
        root := PutAt(root, tokens[..i], container.value);
        current := Child(container.value, token).value;
      }
      assert tokens[..|tokens|] == tokens && tokens[|tokens|..] == [];
      WalkEnds(before, root, tokens, current, value);
      root := PutAt(root, tokens, value);
      return Ok(());
    }
  }

  method OpenContainer(current: Node, token: Token) returns (r: Result<Node, NodeError>)
    ensures r == Opened(current, token)
  {
    if token.Key? {
      var container := if current.Null? then Object([]) else current;
      if !container.Object? {
        return Err(ExpectedObject(token.key));
      }
      var index := FindObjectIndex(container.entries, token.key);
      if index.None? {
        container := Object(container.entries + [(token.key, Null)]);
      }
      return Ok(container);
    }
    var container := if current.Null? then Array([]) else current;
    if !container.Array? {
      return Err(ExpectedArray);
    }
    if token.index >= |container.items| {
      container := Array(Padded(container.items, token.index + 1));
    }
    return Ok(container);
  }

  function Rewrapped(root: Node, p: seq<Token>, r: Result<Node, NodeError>): Result<Node, NodeError>
    requires At(root, p).Ok?
  {
    if r.Err? then r else Ok(PutAt(root, p, r.value))
  }

  /** The setter after `i` tokens: `current` is what the walked tokens lead to in the edited tree,
      the edited tree differs from the original only when `current` is a fresh `Null`, and
      finishing the write below `current` finishes the whole write. */
  ghost predicate Walking(before: Node, root: Node, tokens: seq<Token>, p: seq<Token>, rest: seq<Token>, current: Node,
      v: Node) {
    At(root, p) == Ok(current) && (root == before || current == Null) &&
    Written(before, tokens, v) == Rewrapped(root, p, Written(current, rest, v))
  }

  /** Storing a container at `p` and then a node under its token `t` is one store at `p`. */
  lemma StoreThrough(root: Node, p: seq<Token>, t: Token, container: Node, rest: Node)
    requires At(root, p).Ok? && Child(container, t).Ok?
    ensures At(PutAt(root, p, container), p + [t]) == Child(container, t)
    ensures PutAt(PutAt(root, p, container), p + [t], rest) == PutAt(root, p, WithChild(container, t, rest))
  {
    hide WithChild, FindIndex;
    var edited := PutAt(root, p, container);
    AtPutAt(root, p, container);
    AtConcat(edited, p, [t]);
    AtSingle(container, t);
    PutAtDeeper(edited, p, t, rest);
    PutAtTwice(root, p, container, WithChild(container, t, rest));
  }

  lemma WalkBegins(root: Node, tokens: seq<Token>, v: Node)
    ensures Walking(root, root, tokens, tokens[..0], tokens[0..], root, v)
  {
    assert tokens[..0] == [] && tokens[0..] == tokens;
  }

  /** A walk that cannot go on has not edited anything yet. */
  lemma WalkFails(before: Node, root: Node, tokens: seq<Token>, p: seq<Token>, rest: seq<Token>, current: Node, v: Node)
    requires rest != [] && Walking(before, root, tokens, p, rest, current, v) && Opened(current, rest[0]).Err?
    ensures Written(before, tokens, v) == Opened(current, rest[0]) && root == before
  {
  }

  lemma WalkEnds(before: Node, root: Node, tokens: seq<Token>, current: Node, v: Node)
    requires Walking(before, root, tokens, tokens, [], current, v)
    ensures At(root, tokens).Ok? && Written(before, tokens, v) == Ok(PutAt(root, tokens, v))
  {
  }

  lemma WrittenUnfolds(node: Node, tokens: seq<Token>, v: Node, container: Node)
    requires tokens != [] && Opened(node, tokens[0]) == Ok(container)
    ensures var rest := Written(Child(container, tokens[0]).value, tokens[1..], v);
            Written(node, tokens, v) == if rest.Err? then rest else Ok(WithChild(container, tokens[0], rest.value))
  {
  }

  lemma OpenedHas(node: Node, t: Token)
    requires Opened(node, t).Ok?
    ensures Child(Opened(node, t).value, t).Ok? && Opened(node, t).value != Null
    ensures Opened(node, t).value != node ==> Child(Opened(node, t).value, t) == Ok(Null)
  {
  }

  /** Wrapping a result in a container and then in the root is wrapping it in the edited root. */
  lemma RewrapThrough(root: Node, p: seq<Token>, t: Token, container: Node, below: Result<Node, NodeError>)
    requires At(root, p).Ok? && Child(container, t).Ok?
    ensures At(PutAt(root, p, container), p + [t]).Ok?
    ensures Rewrapped(PutAt(root, p, container), p + [t], below) ==
            Rewrapped(root, p, if below.Err? then below else Ok(WithChild(container, t, below.value)))
  {
    hide At, PutAt, WithChild, Child;
    StoreThrough(root, p, t, container, if below.Ok? then below.value else Null);
  }

  lemma WalkStep(before: Node, root: Node, tokens: seq<Token>, p: seq<Token>, rest: seq<Token>, current: Node, v: Node,
                 container: Node)
    requires rest != [] && Walking(before, root, tokens, p, rest, current, v)
    requires Opened(current, rest[0]) == Ok(container)
    ensures Walking(before, PutAt(root, p, container), tokens, p + [rest[0]], rest[1..],
      Child(container, rest[0]).value, v)
  {
    hide Opened, FindIndex, PutAt, At, WithChild, Written, Padded, Child, Rewrapped;
    var t, child := rest[0], Child(container, rest[0]).value;
    OpenedHas(current, t);
    WrittenUnfolds(current, rest, v, container);
    var below := Written(child, rest[1..], v);
    var edited := PutAt(root, p, container);
    RewrapThrough(root, p, t, container, below);
    StoreThrough(root, p, t, container, Null);
    if container == current {
      PutAtSame(root, p);
    }
  }

  predicate TooLarge(tokens: seq<Token>, maxArraySize: nat) {
    exists i :: 0 <= i < |tokens| && tokens[i].Index? && tokens[i].index >= maxArraySize
  }

  // ----- What a write means for later reads -----

  /** The written value is what the path reads afterwards. */
  lemma {:induction false} ReadBackWritten(node: Node, tokens: seq<Token>, v: Node)
    requires Written(node, tokens, v).Ok?
    ensures At(Written(node, tokens, v).value, tokens) == Ok(v)
    decreases |tokens|
  {
    if tokens != [] {
      var container := Opened(node, tokens[0]).value;
      ReadBackWritten(Child(container, tokens[0]).value, tokens[1..], v);
    }
  }

  /** Two paths that part at some common token position. */
  ghost predicate Diverge(p: seq<Token>, q: seq<Token>) {
    !(p <= q) && !(q <= p)
  }

  lemma OpenedKeeps(node: Node, t: Token, u: Token)
    requires Opened(node, t).Ok? && Child(node, u).Ok?
    ensures Child(Opened(node, t).value, u) == Child(node, u)
  {
    if t.Key? && node.Object? && u.Key? {
      FindIndexIs(Opened(node, t).value.entries, u.key, FindIndex(node.entries, u.key));
    }
  }

  /** Whatever was readable at a diverging path is still there, unchanged, array growth included. */
  lemma {:induction false} DivergingPathKept(node: Node, tokens: seq<Token>, v: Node, q: seq<Token>)
    requires Written(node, tokens, v).Ok? && Diverge(tokens, q) && At(node, q).Ok?
    ensures At(Written(node, tokens, v).value, q) == At(node, q)
    decreases |tokens|
  {
    var t, u := tokens[0], q[0];
    var container := Opened(node, t).value;
    OpenedKeeps(node, t, u);
    if t == u {
      assert tokens == [t] + tokens[1..] && q == [t] + q[1..];
      assert Diverge(tokens[1..], q[1..]);
      DivergingPathKept(Child(container, t).value, tokens[1..], v, q[1..]);
    } else {
      WithChildKeeps(container, t, Written(Child(container, t).value, tokens[1..], v).value, u);
    }
  }

  /** A new element that a write has put below the array index it names. */
  ghost predicate FilledIn(node: Node, tokens: seq<Token>, q: seq<Token>, i: nat) {
    && i < |tokens| && |q| == i + 1 && q[..i] == tokens[..i]
    && tokens[i].Index? && q[i].Index? && q[i].index < tokens[i].index
    && At(node, q).Err?
  }

  lemma OpenedAddsOnly(node: Node, t: Token, u: Token)
    requires Opened(node, t).Ok? && u != t && Child(Opened(node, t).value, u).Ok?
    ensures || Child(node, u) == Child(Opened(node, t).value, u)
            || (Child(node, u).Err? && Child(Opened(node, t).value, u) == Ok(Null) &&
                 t.Index? && u.Index? && u.index < t.index)
  {
    if t.Key? && node.Object? && u.Key? {
      var grown := Opened(node, t).value.entries;
      assert forall j :: 0 <= j < |node.entries| ==> grown[j] == node.entries[j];
      assert |grown| > |node.entries| ==> grown[|node.entries|].0 == t.key;
      FindIndexIs(node.entries, u.key, FindIndex(grown, u.key));
    }
  }

  lemma WithChildAddsOnly(node: Node, t: Token, v: Node, u: Token)
    requires Child(node, t).Ok? && u != t && Child(WithChild(node, t, v), u).Ok?
    ensures Child(node, u) == Child(WithChild(node, t, v), u)
  {
    if t.Key? {
      SameKeysSameIndex(node.entries, WithChild(node, t, v).entries);
    }
  }

  lemma OpenedAtToken(node: Node, t: Token)
    requires Opened(node, t).Ok?
    ensures Child(Opened(node, t).value, t) == if Child(node, t).Ok? then Child(node, t) else Ok(Null)
  {
    OpenedIff(node, t);
    if Child(node, t).Ok? {
      OpenedKeeps(node, t, t);
    }
  }

  /** A write adds nothing beside its path but the `Null` elements below an array index it names: what is
      readable at a diverging path afterwards was there before. */
  lemma {:induction false} NothingElseAppears(node: Node, tokens: seq<Token>, v: Node, q: seq<Token>)
    requires Written(node, tokens, v).Ok? && Diverge(tokens, q) && At(Written(node, tokens, v).value, q).Ok?
    ensures var after := At(Written(node, tokens, v).value, q);
      At(node, q) == after || (after == Ok(Null) && exists i: nat :: FilledIn(node, tokens, q, i))
    decreases |tokens|
  {
    hide Opened, WithChild, Child, At, Written;
    var t, u := tokens[0], q[0];
    WrittenOpens(node, tokens, v);
    var container := Opened(node, t).value;
    WrittenUnfolds(node, tokens, v, container);
    OpenedHas(node, t);
    var child := Child(container, t).value;
    var below := Written(child, tokens[1..], v).value;
    AtUnfolds(node, q);
    AtUnfolds(Written(node, tokens, v).value, q);
    if t == u {
      assert tokens == [t] + tokens[1..] && q == [t] + q[1..];
      assert Diverge(tokens[1..], q[1..]);
      OpenedAtToken(node, t);
      NothingElseAppears(child, tokens[1..], v, q[1..]);
      if At(child, q[1..]) != At(below, q[1..]) {
        var i: nat :| FilledIn(child, tokens[1..], q[1..], i);
        assert q[..i + 1] == [t] + q[1..][..i] && tokens[..i + 1] == [t] + tokens[1..][..i];
        assert FilledIn(node, tokens, q, i + 1);
      } else {
        NullHasNothing(q[1..]);
      }
    } else {
      WithChildAddsOnly(container, t, below, u);
      OpenedAddsOnly(node, t, u);
      if Child(node, u) != Child(container, u) {
        NullHasNothing(q[1..]);
        assert q[..0] == tokens[..0];
        assert FilledIn(node, tokens, q, 0);
      }
    }
  }

  lemma WrittenOpens(node: Node, tokens: seq<Token>, v: Node)
    requires Written(node, tokens, v).Ok? && tokens != []
    ensures Opened(node, tokens[0]).Ok?
  {
  }

  lemma NullHasNothing(q: seq<Token>)
    ensures At(Null, q).Ok? ==> q == [] && At(Null, q) == Ok(Null)
  {
  }

  function ItemsAt(node: Node, p: seq<Token>): seq<Node> {
    if At(node, p).Ok? && At(node, p).value.Array? then At(node, p).value.items else []
  }

  function EntriesAt(node: Node, p: seq<Token>): seq<(string, Node)> {
    if At(node, p).Ok? && At(node, p).value.Object? then At(node, p).value.entries else []
  }

  /** An array that a write has gone through at index n: as long as it was or just long enough. */
  ghost predicate ArrayGrown(before: seq<Node>, after: seq<Node>, n: nat) {
    && |after| == (if n < |before| then |before| else n + 1)
    && (forall j :: 0 <= j < |before| && j != n ==> after[j] == before[j])
    && (forall j :: |before| <= j < n ==> after[j] == Null)
  }

  /** An object that a write has gone through at a key: the same entries in the same order, and the key
      at the end if it is new. */
  ghost predicate ObjectGrown(before: seq<(string, Node)>, after: seq<(string, Node)>, k: string) {
    var known := exists j :: 0 <= j < |before| && before[j].0 == k;
    && |after| == (if known then |before| else |before| + 1)
    && (!known ==> after[|before|].0 == k)
    && (forall j :: 0 <= j < |before| ==> after[j].0 == before[j].0)
    && (forall j :: 0 <= j < |before| && after[j] != before[j] ==> forall i :: 0 <= i < j ==> before[i].0 != k)
    && (forall j :: 0 <= j < |before| && after[j] != before[j] ==> before[j].0 == k)
  }

  lemma ArrayGrowsAt(node: Node, t: Token, v: Node)
    requires Opened(node, t).Ok? && t.Index?
    ensures var after := WithChild(Opened(node, t).value, t, v);
      after.Array? && ArrayGrown(if node.Array? then node.items else [], after.items, t.index)
  {
  }

  /** An entry replaced, or added at the end. */
  lemma SplicedGrows(before: seq<(string, Node)>, after: seq<(string, Node)>, i: nat, k: string, v: Node)
    requires i <= |before| && forall j :: 0 <= j < i ==> before[j].0 != k
    requires i < |before| ==> before[i].0 == k && after == before[i := (k, v)]
    requires i == |before| ==> after == before + [(k, v)]
    ensures ObjectGrown(before, after, k)
  {
  }

  lemma ObjectGrowsAt(node: Node, t: Token, v: Node)
    requires Opened(node, t).Ok? && t.Key?
    ensures var after := WithChild(Opened(node, t).value, t, v);
      after.Object? && ObjectGrown(if node.Object? then node.entries else [], after.entries, t.key)
  {
    hide ObjectGrown;
    var before := if node.Object? then node.entries else [];
    var i := FindIndex(before, t.key);
    var grown := if i < |before| then before else before + [(t.key, Null)];
    FindIndexIs(grown, t.key, i);
    assert i == |before| ==> grown[i := (t.key, v)] == before + [(t.key, v)];
    SplicedGrows(before, grown[i := (t.key, v)], i, t.key, v);
  }

  lemma ContainerGrown(node: Node, t: Token, v: Node)
    requires Opened(node, t).Ok?
    ensures var after := WithChild(Opened(node, t).value, t, v);
      && (t.Index? ==> after.Array? && ArrayGrown(if node.Array? then node.items else [], after.items, t.index))
      && (t.Key? ==> after.Object? && ObjectGrown(if node.Object? then node.entries else [], after.entries, t.key))
  {
    hide Opened, WithChild, ArrayGrown, ObjectGrown;
    if t.Index? {
      ArrayGrowsAt(node, t, v);
    } else {
      ObjectGrowsAt(node, t, v);
    }
  }

  /** Each container on the path grows by what the path needs and by nothing else. */
  lemma {:induction false} PathContainersGrow(node: Node, tokens: seq<Token>, v: Node, i: nat)
    requires Written(node, tokens, v).Ok? && i < |tokens|
    ensures var p, t := tokens[..i], tokens[i];
      var after := At(Written(node, tokens, v).value, p);
      && after.Ok?
      && (t.Index? ==> after.value.Array? && ArrayGrown(ItemsAt(node, p), after.value.items, t.index))
      && (t.Key? ==> after.value.Object? && ObjectGrown(EntriesAt(node, p), after.value.entries, t.key))
    decreases |tokens|
  {
    hide Opened, WithChild, Child, ArrayGrown, ObjectGrown;
    var t, rest := tokens[0], tokens[1..];
    OpenedHas(node, t);
    var container := Opened(node, t).value;
    var child := Child(container, t).value;
    if i == 0 {
      ContainerGrown(node, t, Written(child, rest, v).value);
    } else {
      var p := tokens[..i];
      assert p[0] == t && p[1..] == rest[..i - 1];
      PathContainersGrow(child, rest, v, i - 1);
      OpenedAtToken(node, t);
      NullHasNothing(rest[..i - 1]);
    }
  }

  /** A node that a write could not go through: neither `Null` nor the container `t` needs. */
  predicate Blocks(node: Node, t: Token) {
    !node.Null? && (if t.Key? then !node.Object? else !node.Array?)
  }

  /** Some node already on the path cannot hold the next token. */
  ghost predicate Blocked(node: Node, tokens: seq<Token>) {
    exists i: nat :: BlockedAt(node, tokens, i)
  }

  ghost predicate BlockedAt(node: Node, tokens: seq<Token>, i: nat) {
    i < |tokens| && At(node, tokens[..i]).Ok? && Blocks(At(node, tokens[..i]).value, tokens[i])
  }

  /** A write fails exactly when some node already on the path has the wrong kind. */
  lemma {:induction false} WriteFailsIff(node: Node, tokens: seq<Token>, v: Node)
    ensures Written(node, tokens, v).Err? <==> Blocked(node, tokens)
    decreases |tokens|
  {
    hide Blocked, Child, WithChild, Padded;
    if tokens == [] {
      NothingBlocks(node);
      return;
    }
    var t, rest := tokens[0], tokens[1..];
    BlockedUnfolds(node, tokens);
    OpenedIff(node, t);
    if !Blocks(node, t) {
      WriteFailsIff(Child(Opened(node, t).value, t).value, rest, v);
      NullIsNeverBlocked(rest);
      if Child(node, t).Ok? {
        OpenedKeeps(node, t, t);
      }
    }
  }

  lemma NothingBlocks(node: Node)
    ensures !Blocked(node, [])
  {
  }

  lemma OpenedIff(node: Node, t: Token)
    ensures Opened(node, t).Ok? <==> !Blocks(node, t)
    ensures Opened(node, t).Ok? && Child(node, t).Err? ==> Child(Opened(node, t).value, t) == Ok(Null)
  {
  }

  lemma NullIsNeverBlocked(tokens: seq<Token>)
    ensures !Blocked(Null, tokens)
  {
    NullNeverBlocks(tokens);
  }

  /** A path is blocked at its first token or below the child it leads to. */
  lemma BlockedUnfolds(node: Node, tokens: seq<Token>)
    requires tokens != []
    ensures Blocked(node, tokens) <==>
      Blocks(node, tokens[0]) || (Child(node, tokens[0]).Ok? && Blocked(Child(node, tokens[0]).value, tokens[1..]))
  {
    hide Blocks, Child;
    var t, rest := tokens[0], tokens[1..];
    assert tokens[..0] == [];
    assert BlockedAt(node, tokens, 0) <==> Blocks(node, t);
    forall i: nat | i < |rest|
      ensures BlockedAt(node, tokens, i + 1) <==> Child(node, t).Ok? && BlockedAt(Child(node, t).value, rest, i)
    {
      assert tokens[..i + 1][1..] == rest[..i];
    }
    if Blocked(node, tokens) {
      var i: nat :| BlockedAt(node, tokens, i);
      if i > 0 {
        assert BlockedAt(node, tokens, i - 1 + 1);
        assert BlockedAt(Child(node, t).value, rest, i - 1);
      }
    }
    if Blocks(node, t) {
      assert BlockedAt(node, tokens, 0);
    }
    if Child(node, t).Ok? && Blocked(Child(node, t).value, rest) {
      var i: nat :| BlockedAt(Child(node, t).value, rest, i);
      assert BlockedAt(node, tokens, i + 1);
    }
  }

  lemma NullNeverBlocks(tokens: seq<Token>)
    ensures forall i :: 0 <= i < |tokens| ==>
              !(At(Null, tokens[..i]).Ok? && Blocks(At(Null, tokens[..i]).value, tokens[i]))
  {
    forall i | 0 <= i < |tokens|
      ensures !(At(Null, tokens[..i]).Ok? && Blocks(At(Null, tokens[..i]).value, tokens[i]))
    {
      if i > 0 {
        assert tokens[..i][0] == tokens[0];
      }
    }
  }
}
