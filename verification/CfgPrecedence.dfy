/** Which layer decides what a composed configuration holds at a path, told from the layers alone. */
module CfgPrecedence {
  import opened Text
  import opened CfgPath
  import opened CfgNode
  import opened CfgMerge
  import opened CfgCompose

  ghost predicate AllKeys(q: seq<Token>) {
    forall i :: 0 <= i < |q| ==> q[i].Key?
  }

  /** The layer decides what is at `q`, whatever the layers below hold: it has something there other than
      an object, or something inside an array.  Where arrays are appended, only what is not part of an
      array is decided by one layer. */
  ghost predicate Decides(node: Node, q: seq<Token>, v: Node, append: bool) {
    && At(node, q) == Ok(v)
    && if append then AllKeys(q) && !v.Object? && !v.Array? else !AllKeys(q) || !v.Object?
  }

  /** The layer says nothing about `q`: on the way there it comes to an object without the next key. */
  ghost predicate SaysNothing(node: Node, q: seq<Token>) {
    exists n: nat :: LacksKeyAt(node, q, n)
  }

  ghost predicate LacksKeyAt(node: Node, q: seq<Token>, n: nat) {
    && n < |q| && AllKeys(q[..n + 1])
    && At(node, q[..n]).Ok? && At(node, q[..n]).value.Object?
    && forall v :: (q[n].key, v) !in At(node, q[..n]).value.entries
  }

  lemma LacksFirstKey(node: Node, q: seq<Token>)
    requires LacksKeyAt(node, q, 0)
    ensures q != [] && node.Object? && q[0].Key? && Get(node.entries, q[0].key).None?
  {
    var k := q[..1][0].key;
    assert At(node, q[..0]) == Ok(node);
    var i := FindIndex(node.entries, k);
    if i < |node.entries| {
      assert (k, node.entries[i].1) == node.entries[i];
    }
  }

  lemma LacksLaterKey(node: Node, q: seq<Token>, n: nat)
    requires 0 < n && LacksKeyAt(node, q, n)
    ensures q != [] && node.Object? && q[0].Key? && Get(node.entries, q[0].key).Some?
    ensures LacksKeyAt(Get(node.entries, q[0].key).value, q[1..], n - 1)
  {
    assert q[..n + 1][0].Key?;
    assert q[..n][0] == q[0] && q[..n][1..] == q[1..][..n - 1];
    assert q[1..][..n - 1 + 1] == q[..n + 1][1..];
    if node.Object? {
      AtKey(node, q[..n]);
    }
  }

  /** What the upper layer decides is what the merged tree holds. */
  lemma {:induction false} UpperDecides(lower: Node, upper: Node, append: bool, q: seq<Token>, v: Node)
    requires UniqueKeys(upper) && Decides(upper, q, v, append)
    ensures At(Merged(lower, upper, append), q) == Ok(v)
    decreases |q|
  {
    if lower.Object? && upper.Object? {
      var k := q[0].key;
      GetMergedAll(lower, upper, append, k);
      AtKey(Merged(lower, upper, append), q);
      AtKey(upper, q);
      var b := Get(upper.entries, k).value;
      assert upper.entries[FindIndex(upper.entries, k)].1 == b;
      if Get(lower.entries, k).Some? {
        assert q == [q[0]] + q[1..];
        UpperDecides(Get(lower.entries, k).value, b, append, q[1..], v);
      }
    }
  }

  /** Where the upper layer says nothing the merged tree holds what the lower layer holds. */
  lemma {:induction false} SilenceKeeps(lower: Node, upper: Node, append: bool, q: seq<Token>)
    requires UniqueKeys(upper) && SaysNothing(upper, q) && At(lower, q).Ok?
    ensures At(Merged(lower, upper, append), q) == At(lower, q)
    decreases |q|
  {
    hide Merged, LacksKeyAt;
    var n: nat :| LacksKeyAt(upper, q, n);
    if n == 0 {
      LacksFirstKey(upper, q);
    } else {
      LacksLaterKey(upper, q, n);
      var b := Get(upper.entries, q[0].key).value;
      assert upper.entries[FindIndex(upper.entries, q[0].key)].1 == b;
      assert SaysNothing(b, q[1..]);
    }
    KeyIsInObject(lower, q);
    GetMergedAll(lower, upper, append, q[0].key);
    AtKey(Merged(lower, upper, append), q);
    AtKey(lower, q);
    if n > 0 {
      SilenceKeeps(Get(lower.entries, q[0].key).value, Get(upper.entries, q[0].key).value, append, q[1..]);
    }
  }

  lemma KeyIsInObject(node: Node, q: seq<Token>)
    requires q != [] && q[0].Key? && At(node, q).Ok?
    ensures node.Object? && Get(node.entries, q[0].key).Some?
  {
  }

  /** A node is replaced as a whole unless both layers have an object there, or two arrays to append. */
  lemma {:induction false} OtherKindReplaced(lower: Node, upper: Node, append: bool, q: seq<Token>, v: Node)
    requires UniqueKeys(upper) && AllKeys(q) && At(upper, q) == Ok(v)
    requires At(lower, q).Ok? ==>
      !(At(lower, q).value.Object? && v.Object?) && !(append && At(lower, q).value.Array? && v.Array?)
    ensures At(Merged(lower, upper, append), q) == Ok(v)
    decreases |q|
  {
    if q != [] && lower.Object? && upper.Object? {
      var k := q[0].key;
      GetMergedAll(lower, upper, append, k);
      AtKey(Merged(lower, upper, append), q);
      AtKey(lower, q);
      AtKey(upper, q);
      var below := Get(upper.entries, k).value;
      assert upper.entries[FindIndex(upper.entries, k)].1 == below;
      if Get(lower.entries, k).Some? {
        OtherKindReplaced(Get(lower.entries, k).value, below, append, q[1..], v);
      }
    }
  }

  /** Arrays are appended, the lower layer's elements first, if asked for. */
  lemma {:induction false} ArraysAppended(lower: Node, upper: Node, q: seq<Token>, a: seq<Node>, b: seq<Node>)
    requires UniqueKeys(upper) && AllKeys(q) && At(lower, q) == Ok(Array(a)) && At(upper, q) == Ok(Array(b))
    ensures At(Merged(lower, upper, true), q) == Ok(Array(a + b))
    decreases |q|
  {
    if q != [] {
      var k := q[0].key;
      GetMergedAll(lower, upper, true, k);
      AtKey(Merged(lower, upper, true), q);
      AtKey(lower, q);
      AtKey(upper, q);
      var below := Get(upper.entries, k).value;
      assert upper.entries[FindIndex(upper.entries, k)].1 == below;
      ArraysAppended(Get(lower.entries, k).value, below, q[1..], a, b);
    }
  }

  // ----- Key order -----

  function KeysInOrder(entries: seq<(string, Node)>): (keys: seq<string>)
    ensures |keys| == |entries| && forall i :: 0 <= i < |keys| ==> keys[i] == entries[i].0
  {
    seq(|entries|, i requires 0 <= i < |entries| => entries[i].0)
  }

  /** The keys that are not known yet, in their order. */
  function NewKeys(known: seq<string>, keys: seq<string>): seq<string> {
    if keys == [] then []
    else
      var last := keys[|keys| - 1];
      NewKeys(known, keys[..|keys| - 1]) + if last in known then [] else [last]
  }

  lemma {:induction false} NewKeysAre(known: seq<string>, keys: seq<string>, k: string)
    ensures k in NewKeys(known, keys) <==> k in keys && k !in known
  {
    if keys != [] {
      NewKeysAre(known, keys[..|keys| - 1], k);
      assert keys == keys[..|keys| - 1] + [keys[|keys| - 1]];
    }
  }

  /** A merged object has the lower layer's keys in their order, then the new ones of the upper layer. */
  lemma {:induction false} MergedKeyOrder(lower: Node, upper: Node, n: nat, append: bool)
    requires lower.Object? && upper.Object? && n <= |upper.entries| && DistinctKeys(upper.entries)
    ensures KeysInOrder(MergedEntries(lower.entries, upper, n, append)) ==
      KeysInOrder(lower.entries) + NewKeys(KeysInOrder(lower.entries), KeysInOrder(upper.entries[..n]))
    decreases n
  {
    hide Merged;
    var known := KeysInOrder(lower.entries);
    if n == 0 {
      assert KeysInOrder(upper.entries[..0]) == [];
    } else {
      MergedKeyOrder(lower, upper, n - 1, append);
      var done := MergedEntries(lower.entries, upper, n - 1, append);
      var k := upper.entries[n - 1].0;
      var earlier := KeysInOrder(upper.entries[..n - 1]);
      assert KeysInOrder(upper.entries[..n]) == earlier + [k];
      assert (earlier + [k])[..n - 1] == earlier;
      assert k !in earlier;
      NewKeysAre(known, earlier, k);
      KeyFound(done, k);
      var after := MergedEntries(lower.entries, upper, n, append);
      if k in known {
        assert KeysInOrder(after) == KeysInOrder(done);
      } else {
        assert KeysInOrder(after) == KeysInOrder(done) + [k];
      }
    }
  }

  lemma KeyFound(entries: seq<(string, Node)>, k: string)
    ensures FindIndex(entries, k) < |entries| <==> k in KeysInOrder(entries)
  {
    if k in KeysInOrder(entries) {
      var i :| 0 <= i < |entries| && KeysInOrder(entries)[i] == k;
      assert entries[i].0 == k;
    }
  }

  /** The order of the keys in a composed object. */
  lemma MergedOrder(lower: Node, upper: Node, append: bool)
    requires lower.Object? && upper.Object? && DistinctKeys(upper.entries)
    ensures Merged(lower, upper, append).Object?
    ensures KeysInOrder(Merged(lower, upper, append).entries) ==
      KeysInOrder(lower.entries) + NewKeys(KeysInOrder(lower.entries), KeysInOrder(upper.entries))
  {
    MergedKeyOrder(lower, upper, |upper.entries|, append);
    assert upper.entries[..|upper.entries|] == upper.entries;
  }

  // ----- Stacks -----

  ghost predicate Mute(stack: Stack, q: seq<Token>) {
    forall i :: 0 <= i < |stack| ==> SaysNothing(stack[i].1, q)
  }

  /** The topmost layer that says anything decides. */
  lemma {:induction false} TopmostDecides(below: Stack, layer: (Layer, Node), above: Stack, append: bool, q: seq<Token>,
      v: Node)
    requires UniqueStack(below + [layer] + above) && Decides(layer.1, q, v, append) && Mute(above, q)
    ensures At(Composed(below + [layer] + above, append), q) == Ok(v)
    decreases |above|
  {
    hide Merged, Decides, SaysNothing, UniqueKeys;
    var stack := below + [layer] + above;
    var last := |stack| - 1;
    if above == [] {
      assert stack[last] == layer;
      if below == [] {
        DecidedIsThere(layer.1, q, v, append);
      } else {
        UpperDecides(Composed(stack[..last], append), layer.1, append, q, v);
      }
    } else {
      var front := above[..|above| - 1];
      assert stack[..last] == below + [layer] + front;
      assert stack[last] == above[|above| - 1];
      forall i | 0 <= i < |below + [layer] + front| ensures UniqueKeys((below + [layer] + front)[i].1) {
        assert stack[i] == (below + [layer] + front)[i];
      }
      TopmostDecides(below, layer, front, append, q, v);
      SilenceKeeps(Composed(stack[..last], append), stack[last].1, append, q);
    }
  }

  lemma DecidedIsThere(node: Node, q: seq<Token>, v: Node, append: bool)
    requires Decides(node, q, v, append)
    ensures At(node, q) == Ok(v)
  {
  }

  ghost predicate Sets(layer: Option<Node>, q: seq<Token>, v: Node, append: bool) {
    layer.Some? && Decides(layer.value, q, v, append)
  }

  ghost predicate Quiet(layer: Option<Node>, q: seq<Token>) {
    layer.None? || SaysNothing(layer.value, q)
  }

  /** Layers merged from parts of a stack. */
  lemma LayerDecides(all: Stack, below: Stack, layer: Layer, node: Option<Node>, above: Stack, append: bool,
      q: seq<Token>, v: Node)
    requires all == below + (Present(layer, node) + above) && all != [] && UniqueStack(all)
    requires Sets(node, q, v, append) && Mute(above, q)
    ensures At(Composed(all, append), q) == Ok(v)
  {
    hide Composed, Decides, SaysNothing, UniqueKeys;
    assert all == below + [(layer, node.value)] + above;
    TopmostDecides(below, (layer, node.value), above, append, q, v);
  }

  lemma QuietIsMute(layer: Layer, node: Option<Node>, above: Stack, q: seq<Token>)
    requires Quiet(node, q) && Mute(above, q)
    ensures Mute(Present(layer, node) + above, q)
  {
    hide SaysNothing;
  }

  /** Runtime overrides come before the local layer, this before the remote one, this before the
      environment, and this before the base. */
  lemma Precedence(base: Node, env: Option<Node>, remote: Option<Node>, local: Option<Node>, runtime: Option<Node>,
      append: bool, q: seq<Token>, v: Node)
    requires UniqueStack(Layers(base, env, remote, local, runtime))
    ensures var root := Composed(Layers(base, env, remote, local, runtime), append);
      && (Sets(runtime, q, v, append) ==> At(root, q) == Ok(v))
      && (Sets(local, q, v, append) && Quiet(runtime, q) ==> At(root, q) == Ok(v))
      && (Sets(remote, q, v, append) && Quiet(local, q) && Quiet(runtime, q) ==> At(root, q) == Ok(v))
      && (Sets(env, q, v, append) && Quiet(remote, q) && Quiet(local, q) && Quiet(runtime, q) ==>
            At(root, q) == Ok(v))
      && (Decides(base, q, v, append) && Quiet(env, q) && Quiet(remote, q) && Quiet(local, q) && Quiet(runtime, q) ==>
            At(root, q) == Ok(v))
  {
    hide Composed, Decides, SaysNothing, UniqueKeys, Mute, Present;
    var all := Layers(base, env, remote, local, runtime);
    var b, e, r, l, t := Present(Base, Some(base)), Present(Env, env), Present(Remote, remote),
      Present(Local, local), Present(Runtime, runtime);
    assert b == [(Base, base)] by { BaseIsPresent(base); }
    NothingIsMute(q);
    var aboveLocal := t + [];
    var aboveRemote := l + aboveLocal;
    var aboveEnv := r + aboveRemote;
    var aboveBase := e + aboveEnv;
    assert all == b + e + r + l + t == b + aboveBase;
    if Sets(runtime, q, v, append) {
      assert all == (b + e + r + l) + (t + []);
      LayerDecides(all, b + e + r + l, Runtime, runtime, [], append, q, v);
    }
    if Quiet(runtime, q) {
      QuietIsMute(Runtime, runtime, [], q);
      if Sets(local, q, v, append) {
        assert all == (b + e + r) + aboveRemote;
        LayerDecides(all, b + e + r, Local, local, aboveLocal, append, q, v);
      }
      if Quiet(local, q) {
        QuietIsMute(Local, local, aboveLocal, q);
        if Sets(remote, q, v, append) {
          assert all == (b + e) + aboveEnv;
          LayerDecides(all, b + e, Remote, remote, aboveRemote, append, q, v);
        }
        if Quiet(remote, q) {
          QuietIsMute(Remote, remote, aboveRemote, q);
          if Sets(env, q, v, append) {
            LayerDecides(all, b, Env, env, aboveEnv, append, q, v);
          }
          if Quiet(env, q) && Decides(base, q, v, append) {
            QuietIsMute(Env, env, aboveEnv, q);
            assert all == [] + (b + aboveBase);
            LayerDecides(all, [], Base, Some(base), aboveBase, append, q, v);
          }
        }
      }
    }
  }

  lemma BaseIsPresent(base: Node)
    ensures Present(Base, Some(base)) == [(Base, base)]
  {
  }

  lemma NothingIsMute(q: seq<Token>)
    ensures Mute([], q)
  {
  }
}
