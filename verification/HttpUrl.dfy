/** Removing dot segments from the path of a URL (section 5.2.4 of RFC 3986). */
module HttpUrl {
  import opened Text

  // ----- What the algorithm means -----

  /** The position of the next slash at or after i, or the length of the path. */
  function NextSlash(path: string, i: nat): (n: nat)
    requires i <= |path|
    ensures i <= n <= |path| && (n < |path| ==> path[n] == '/')
    ensures forall k :: i <= k < n ==> path[k] != '/'
    decreases |path| - i
  {
    if i == |path| || path[i] == '/' then i else NextSlash(path, i + 1)
  }

  /** The segments of a path that is empty or starts with a slash. */
  function SegmentsOf(path: string): seq<string> {
    if path == "" then []
    else
      var n := NextSlash(path, 1);
      [path[1..n]] + SegmentsOf(path[n..])
  }

  function Render(segments: seq<string>): string {
    if segments == [] then "" else Render(segments[..|segments| - 1]) + "/" + segments[|segments| - 1]
  }

  function Popped(stack: seq<string>): seq<string> {
    if stack == [] then [] else stack[..|stack| - 1]
  }

  /** The reference: segments are pushed on a stack, "." does nothing and ".." pops; at the end of the
      path both leave an empty segment behind. */
  function Stack(segments: seq<string>, stack: seq<string>): seq<string>
    decreases |segments|, if segments != [] && segments[0] in [".", ".."] then 1 else 0
  {
    if segments == [] then stack
    else
      var rest := segments[1..];
      if segments[0] == "." then Stack(if rest == [] then [""] else rest, stack)
      else if segments[0] == ".." then Stack(if rest == [] then [""] else rest, Popped(stack))
      else Stack(rest, stack + [segments[0]])
  }

  function Normalized(path: string): string {
    Render(Stack(SegmentsOf(path), []))
  }

  // ----- The loop -----

  /** What one turn of the loop does to the rest of the path and the output. */
  function Turn(path: string, out: string): (string, string)
    requires path != ""
  {
    if StartsWith(path, "../") then (path[3..], out)
    else if StartsWith(path, "./") || StartsWith(path, "/./") then (path[2..], out)
    else if path == "/." then ("/", out)
    else if StartsWith(path, "/../") || path == "/.." then
      (if path == "/.." then "/" else path[3..], out[..LastSlash(out)])
    else if path == "." || path == ".." then ("", out)
    else
      var n := NextSlash(path, if path[0] == '/' then 1 else 0);
      (path[n..], out + path[..n])
  }

  /** The position of the last slash, or 0 if there is none. */
  function LastSlash(s: string): (n: nat)
    ensures n <= |s|
  {
    if s == "" then 0
    else if s[|s| - 1] == '/' then |s| - 1
    else LastSlash(s[..|s| - 1])
  }

  method FindLastSlash(s: string) returns (n: nat)
    ensures n == LastSlash(s)
  {
    n := |s|;
    assert s[..|s|] == s;
    while 0 < n && s[n - 1] != '/'
      invariant 0 <= n <= |s| && LastSlash(s[..n]) == LastSlash(s)
    {
      assert s[..n][..n - 1] == s[..n - 1];
      n := n - 1;
    }
    if 0 < n {
      n := n - 1;
    }
  }

  /** The loop from some state on. */
  function Loop(path: string, out: string): string
    decreases |path|
  {
    if path == "" then out
    else
      var (rest, next) := Turn(path, out);
      if |rest| < |path| then Loop(rest, next) else next
  }

  /** Every turn shortens the path. */
  lemma TurnShortens(path: string, out: string)
    requires path != ""
    ensures |Turn(path, out).0| < |path|
  {
  }

  /** `RemoveDotSegments` */
  method RemoveDotSegments(view: string) returns (out: string)
    ensures out == Loop(view, "")
    ensures StartsWith(view, "/") ==> out == Normalized(view)
  {
    out := "";
    var path := view;
    while path != ""
      invariant Loop(path, out) == Loop(view, "")
      decreases |path|
    {
      TurnShortens(path, out);
      if StartsWith(path, "../") {
        path := path[3..];
      } else if StartsWith(path, "./") || StartsWith(path, "/./") {
        path := path[2..];
      } else if path == "/." {
        path := "/";
      } else if StartsWith(path, "/../") || path == "/.." {
        path := if path == "/.." then "/" else path[3..];
        var slash := FindLastSlash(out);
        out := out[..slash];
      } else if path == "." || path == ".." {
        path := "";
      } else {
        var n := NextSlash(path, if path[0] == '/' then 1 else 0);
        out := out + path[..n];
        path := path[n..];
      }
    }
    if StartsWith(view, "/") {
      LoopIsStack(view, []);
    }
  }

  // ----- The loop computes the stack -----

  lemma RenderSnoc(stack: seq<string>, segment: string)
    ensures Render(stack + [segment]) == Render(stack) + "/" + segment
  {
    assert (stack + [segment])[..|stack|] == stack;
  }

  ghost predicate SlashFree(segments: seq<string>) {
    forall i :: 0 <= i < |segments| ==> '/' !in segments[i]
  }

  /** Cutting the output at its last slash pops a segment. */
  lemma CutPops(stack: seq<string>)
    requires SlashFree(stack)
    ensures Render(stack)[..LastSlash(Render(stack))] == Render(Popped(stack))
  {
    if stack != [] {
      var front, last := Render(Popped(stack)), stack[|stack| - 1];
      LastSlashOf(front, last);
      assert Render(stack) == front + "/" + last;
    }
  }

  lemma {:induction false} LastSlashOf(front: string, last: string)
    requires '/' !in last
    ensures LastSlash(front + "/" + last) == |front|
  {
    var s := front + "/" + last;
    if last == "" {
      assert s == front + "/";
    } else {
      assert s[..|s| - 1] == front + "/" + last[..|last| - 1];
      LastSlashOf(front, last[..|last| - 1]);
    }
  }

  /** The first segment of a path, and the rest after it. */
  lemma FirstSegment(path: string, n: nat)
    requires StartsWith(path, "/") && n == NextSlash(path, 1)
    ensures SegmentsOf(path) == [path[1..n]] + SegmentsOf(path[n..])
    ensures path[n..] == "" || StartsWith(path[n..], "/")
    ensures path[..n] == "/" + path[1..n] && '/' !in path[1..n]
    ensures SegmentsOf(path[n..]) == [] <==> n == |path|
  {
    hide NextSlash, SegmentsOf, StartsWith;
    ShortPrefixes(path);
    ShortPrefixes(path[n..]);
    SegmentsUnfold(path);
    SegmentsUnfold(path[n..]);
  }

  lemma SegmentsUnfold(path: string)
    ensures path == "" ==> SegmentsOf(path) == []
    ensures path != "" ==> SegmentsOf(path) == [path[1..NextSlash(path, 1)]] + SegmentsOf(path[NextSlash(path, 1)..])
  {
  }

  predicate Matches3(path: string, a: char, b: char, c: char) {
    3 <= |path| && path[0] == a && path[1] == b && path[2] == c
  }

  lemma ShortPrefixes(path: string)
    ensures StartsWith(path, "/./") <==> Matches3(path, '/', '.', '/')
    ensures StartsWith(path, "../") <==> Matches3(path, '.', '.', '/')
    ensures StartsWith(path, "/../") <==> Matches3(path, '/', '.', '.') && 4 <= |path| && path[3] == '/'
    ensures StartsWith(path, "./") <==> 2 <= |path| && path[0] == '.' && path[1] == '/'
    ensures StartsWith(path, "/") <==> 1 <= |path| && path[0] == '/'
  {
    if 3 <= |path| {
      assert path[..3] == [path[0], path[1], path[2]];
    }
    if 4 <= |path| {
      assert path[..4] == [path[0], path[1], path[2], path[3]];
    }
    if 2 <= |path| {
      assert path[..2] == [path[0], path[1]];
    }
    if 1 <= |path| {
      assert path[..1] == [path[0]];
    }
  }

  /** A segment of dots is short. */
  lemma DotSegments(path: string, n: nat)
    requires 1 <= n <= |path|
    ensures path[1..n] == "." <==> n == 2 && path[1] == '.'
    ensures path[1..n] == ".." <==> n == 3 && path[1] == '.' && path[2] == '.'
  {
    if n == 2 {
      assert path[1..n] == [path[1]];
    } else if n == 3 {
      assert path[1..n] == [path[1], path[2]];
    } else {
      assert |path[1..n]| != 1 && |path[1..n]| != 2;
    }
  }

  /** Which branch is taken is decided by the first segment. */
  lemma BranchBySegment(path: string, n: nat)
    requires StartsWith(path, "/") && n == NextSlash(path, 1)
    ensures !StartsWith(path, "../") && !StartsWith(path, "./") && path != "." && path != ".."
    ensures StartsWith(path, "/./") <==> path[1..n] == "." && n < |path|
    ensures path == "/." <==> path[1..n] == "." && n == |path|
    ensures StartsWith(path, "/../") <==> path[1..n] == ".." && n < |path|
    ensures path == "/.." <==> path[1..n] == ".." && n == |path|
    ensures (path[1..n] == "." ==> n == 2) && (path[1..n] == ".." ==> n == 3)
  {
    hide StartsWith;
    ShortPrefixes(path);
    DotSegments(path, n);
    NextSlashIs(path, 2);
    NextSlashIs(path, 3);
  }

  lemma NextSlashIs(path: string, k: nat)
    requires 1 <= k && 1 <= |path|
    ensures k < |path| && path[k] == '/' && (forall i :: 1 <= i < k ==> path[i] != '/') ==> NextSlash(path, 1) == k
    ensures k == |path| && (forall i :: 1 <= i < k ==> path[i] != '/') ==> NextSlash(path, 1) == k
  {
  }

  /** What a turn does to a path that starts with a slash. */
  lemma TurnBySegment(path: string, out: string, n: nat)
    requires StartsWith(path, "/") && n == NextSlash(path, 1)
    ensures Turn(path, out) == (
      if path[1..n] == "." then (if n == |path| then "/" else path[n..], out)
      else if path[1..n] == ".." then (if n == |path| then "/" else path[n..], out[..LastSlash(out)])
      else (path[n..], out + path[..n]))
  {
    hide StartsWith, LastSlash;
    BranchBySegment(path, n);
    ShortPrefixes(path);
  }

  lemma {:induction false} LoopIsStack(path: string, stack: seq<string>)
    requires (path == "" || StartsWith(path, "/")) && SlashFree(stack)
    ensures Loop(path, Render(stack)) == Render(Stack(SegmentsOf(path), stack))
    decreases |path|
  {
    hide NextSlash, LastSlash, Render, StartsWith, Turn, SegmentsOf, Stack;
    if path == "" {
      NoSegments(stack);
    } else {
      var n := NextSlash(path, 1);
      var segment, rest := path[1..n], path[n..];
      FirstSegment(path, n);
      TurnBySegment(path, Render(stack), n);
      TurnShortens(path, Render(stack));
      StackStep(SegmentsOf(path), stack);
      assert SegmentsOf(path)[1..] == SegmentsOf(rest);
      SlashAlone();
      if segment == "." {
        LoopIsStack(if n == |path| then "/" else rest, stack);
      } else if segment == ".." {
        CutPops(stack);
        LoopIsStack(if n == |path| then "/" else rest, Popped(stack));
      } else {
        RenderSnoc(stack, segment);
        assert Render(stack) + ("/" + segment) == Render(stack) + "/" + segment;
        LoopIsStack(rest, stack + [segment]);
      }
    }
  }

  lemma NoSegments(stack: seq<string>)
    ensures Stack(SegmentsOf(""), stack) == stack
  {
  }

  lemma StackStep(segments: seq<string>, stack: seq<string>)
    requires segments != []
    ensures Stack(segments, stack) ==
      var rest := if segments[1..] == [] then [""] else segments[1..];
      if segments[0] == "." then Stack(rest, stack)
      else if segments[0] == ".." then Stack(rest, Popped(stack))
      else Stack(segments[1..], stack + [segments[0]])
  {
  }

  lemma SlashAlone()
    ensures SegmentsOf("/") == [""] && StartsWith("/", "/")
  {
    assert NextSlash("/", 1) == 1;
    assert "/"[1..1] == "" && "/"[1..] == "";
    assert SegmentsOf("/") == ["/"[1..1]] + SegmentsOf("/"[1..]);
    assert SegmentsOf("") == [];
  }

  // ----- What the result is like -----

  ghost predicate Clean(segments: seq<string>) {
    SlashFree(segments) && forall i :: 0 <= i < |segments| ==> segments[i] != "." && segments[i] != ".."
  }

  lemma {:induction false} SegmentsSlashFree(path: string)
    requires path == "" || StartsWith(path, "/")
    ensures SlashFree(SegmentsOf(path))
    decreases |path|
  {
    if path != "" {
      FirstSegment(path, NextSlash(path, 1));
      SegmentsSlashFree(path[NextSlash(path, 1)..]);
    }
  }

  /** The stack never holds a dot segment, and is not empty at the end of a path. */
  lemma {:induction false} StackClean(segments: seq<string>, stack: seq<string>)
    requires SlashFree(segments) && Clean(stack)
    ensures Clean(Stack(segments, stack))
    ensures segments != [] ==> Stack(segments, stack) != []
    decreases |segments|, if segments != [] && segments[0] in [".", ".."] then 1 else 0
  {
    if segments != [] {
      var rest := segments[1..];
      if segments[0] == "." {
        StackClean(if rest == [] then [""] else rest, stack);
      } else if segments[0] == ".." {
        StackClean(if rest == [] then [""] else rest, Popped(stack));
      } else {
        StackClean(rest, stack + [segments[0]]);
        StackKeepsPushed(rest, stack + [segments[0]]);
      }
    }
  }

  lemma StackKeepsPushed(segments: seq<string>, stack: seq<string>)
    requires stack != []
    ensures segments == [] ==> Stack(segments, stack) != []
  {
  }

  lemma {:induction false} RenderConcat(a: seq<string>, b: seq<string>)
    ensures Render(a + b) == Render(a) + Render(b)
  {
    if b == [] {
      assert a + b == a;
    } else {
      assert (a + b)[..|a + b| - 1] == a + b[..|b| - 1];
      RenderConcat(a, b[..|b| - 1]);
    }
  }

  /** Rendered segments are read back. */
  lemma {:induction false} SegmentsOfRender(segments: seq<string>)
    requires SlashFree(segments)
    ensures SegmentsOf(Render(segments)) == segments
    ensures segments != [] ==> StartsWith(Render(segments), "/")
  {
    if segments != [] {
      var first, rest := segments[0], segments[1..];
      SegmentsOfRender(rest);
      assert segments == [first] + rest;
      RenderConcat([first], rest);
      assert [first][..0] == [] && Render([first]) == "/" + first;
      var path := Render(segments);
      assert path == "/" + first + Render(rest);
      RenderStarts(rest);
      NextSlashOf(first, Render(rest));
      assert path[1..1 + |first|] == first;
      assert path[1 + |first|..] == Render(rest);
    }
  }

  lemma {:induction false} RenderStarts(segments: seq<string>)
    ensures segments == [] ==> Render(segments) == ""
    ensures segments != [] ==> Render(segments) != "" && Render(segments)[0] == '/'
  {
    if segments != [] {
      RenderStarts(segments[..|segments| - 1]);
    }
  }

  lemma NextSlashOf(first: string, rest: string)
    requires '/' !in first && (rest == "" || rest[0] == '/')
    ensures NextSlash("/" + first + rest, 1) == 1 + |first|
  {
    var path := "/" + first + rest;
    forall k | 1 <= k < 1 + |first| ensures path[k] != '/' {
      assert path[k] == first[k - 1];
    }
    NextSlashIs(path, 1 + |first|);
  }

  /** Clean segments are their own stack. */
  lemma {:induction false} StackOfClean(segments: seq<string>, stack: seq<string>)
    requires Clean(segments)
    ensures Stack(segments, stack) == stack + segments
  {
    if segments == [] {
      assert stack + segments == stack;
    } else {
      StackOfClean(segments[1..], stack + [segments[0]]);
      assert stack + segments == stack + [segments[0]] + segments[1..];
    }
  }

  /** For a path that starts with a slash the result starts with a slash, holds no "." or ".."
      segment, and is left alone when the dots are removed once more. */
  lemma NormalizedIsNormal(path: string)
    requires StartsWith(path, "/")
    ensures StartsWith(Normalized(path), "/")
    ensures Clean(SegmentsOf(Normalized(path)))
    ensures Normalized(Normalized(path)) == Normalized(path)
    ensures Loop(Normalized(path), "") == Normalized(path)
  {
    hide NextSlash, LastSlash;
    var stack := Stack(SegmentsOf(path), []);
    SegmentsSlashFree(path);
    StackClean(SegmentsOf(path), []);
    SegmentsOfRender(stack);
    StackOfClean(stack, []);
    assert [] + stack == stack;
    LoopIsStack(Normalized(path), []);
  }

  // ----- What each segment does -----

  /** Empty, or starting with a slash. */
  predicate IsRooted(path: string) {
    path == "" || path[0] == '/'
  }

  lemma {:induction false} SegmentsConcat(a: string, b: string)
    requires IsRooted(a) && b != "" && b[0] == '/'
    ensures SegmentsOf(a + b) == SegmentsOf(a) + SegmentsOf(b)
    decreases |a|
  {
    hide NextSlash, SegmentsOf;
    if a == "" {
      assert a + b == b;
      NoPath();
    } else {
      var n := NextSlash(a, 1);
      var whole := a + b;
      SegmentsUnfold(a);
      SlashBehind(a, b);
      SegmentsUnfold(whole);
      assert whole[1..n] == a[1..n] && whole[n..] == a[n..] + b;
      SegmentsConcat(a[n..], b);
    }
  }

  lemma SlashBehind(a: string, b: string)
    requires a != "" && b != "" && b[0] == '/'
    ensures NextSlash(a + b, 1) == NextSlash(a, 1)
  {
    var n := NextSlash(a, 1);
    forall k | 1 <= k < n ensures (a + b)[k] != '/' {
      assert (a + b)[k] == a[k];
    }
    NextSlashIs(a + b, n);
  }

  lemma OneSegment(x: string)
    requires '/' !in x
    ensures SegmentsOf("/" + x) == [x]
  {
    NextSlashOf(x, "");
    assert "/" + x + "" == "/" + x;
    assert ("/" + x)[1..1 + |x|] == x && ("/" + x)[1 + |x|..] == "";
  }

  /** The stack after segments that are not the last ones. */
  function Folded(segments: seq<string>, stack: seq<string>): seq<string> {
    if segments == [] then stack
    else
      Folded(segments[1..],
        if segments[0] == "." then stack
        else if segments[0] == ".." then Popped(stack)
        else stack + [segments[0]])
  }

  lemma {:induction false} StackFolds(a: seq<string>, b: seq<string>, stack: seq<string>)
    requires b != []
    ensures Stack(a + b, stack) == Stack(b, Folded(a, stack))
    decreases |a|
  {
    if a == [] {
      assert a + b == b;
    } else {
      assert (a + b)[1..] == a[1..] + b;
      StackFolds(a[1..], b,
        if a[0] == "." then stack else if a[0] == ".." then Popped(stack) else stack + [a[0]]);
    }
  }

  lemma SegmentsThere(b: string)
    requires b != ""
    ensures SegmentsOf(b) != []
  {
    hide NextSlash;
  }

  /** Replacing what is between the front and the back of a path by something with the same effect. */
  lemma MiddleReplaced(a: string, x: string, y: string, b: string)
    requires IsRooted(a) && IsRooted(x) && IsRooted(y) && b != "" && b[0] == '/'
    requires forall stack :: Folded(SegmentsOf(x), stack) == Folded(SegmentsOf(y), stack)
    ensures Normalized(a + x + b) == Normalized(a + y + b)
  {
    hide SegmentsOf, Stack, Folded;
    SegmentsThere(b);
    MiddleSegments(a, x, b);
    MiddleSegments(a, y, b);
    var front := SegmentsOf(a);
    FoldedConcat(front, SegmentsOf(x), []);
    FoldedConcat(front, SegmentsOf(y), []);
    StackFolds(front + SegmentsOf(x), SegmentsOf(b), []);
    StackFolds(front + SegmentsOf(y), SegmentsOf(b), []);
  }

  lemma MiddleSegments(a: string, x: string, b: string)
    requires IsRooted(a) && IsRooted(x) && b != "" && b[0] == '/'
    ensures SegmentsOf(a + x + b) == SegmentsOf(a) + SegmentsOf(x) + SegmentsOf(b)
  {
    hide SegmentsOf;
    NoPath();
    if x == "" {
      assert a + x == a;
      SegmentsConcat(a, b);
      assert SegmentsOf(a) + [] == SegmentsOf(a);
    } else {
      SegmentsConcat(a, x);
      SegmentsConcat(a + x, b);
    }
  }

  lemma NoPath()
    ensures SegmentsOf("") == []
  {
  }

  lemma {:induction false} FoldedConcat(a: seq<string>, b: seq<string>, stack: seq<string>)
    ensures Folded(a + b, stack) == Folded(b, Folded(a, stack))
    decreases |a|
  {
    if a == [] {
      assert a + b == b;
    } else {
      assert (a + b)[1..] == a[1..] + b;
      FoldedConcat(a[1..], b,
        if a[0] == "." then stack else if a[0] == ".." then Popped(stack) else stack + [a[0]]);
    }
  }

  /** A "." segment makes no difference. */
  lemma DotRemoved(a: string, b: string)
    requires IsRooted(a) && b != "" && b[0] == '/'
    ensures Normalized(a + "/." + b) == Normalized(a + b)
  {
    hide Normalized, SegmentsOf, Folded;
    OneSegment(".");
    assert "/" + "." == "/.";
    NoPath();
    forall stack ensures Folded(SegmentsOf("/."), stack) == Folded(SegmentsOf(""), stack) {
      FoldedSteps(".", stack);
    }
    MiddleReplaced(a, "/.", "", b);
    assert a + "" + b == a + b;
  }

  lemma FoldedSteps(x: string, stack: seq<string>)
    ensures Folded([], stack) == stack
    ensures Folded(["."], stack) == stack
    ensures Folded([x], stack) ==
      if x == "." then stack else if x == ".." then Popped(stack) else stack + [x]
    ensures x != "." && x != ".." ==> Folded([x, ".."], stack) == stack
  {
    assert [x][1..] == [] && [x, ".."][1..] == [".."] && [".."][1..] == [];
    assert (stack + [x])[..|stack|] == stack;
  }

  /** A ".." segment takes the segment before it away. */
  lemma ParentRemoved(a: string, x: string, b: string)
    requires IsRooted(a) && b != "" && b[0] == '/' && '/' !in x && x != "." && x != ".."
    ensures Normalized(a + "/" + x + "/.." + b) == Normalized(a + b)
  {
    hide Normalized, SegmentsOf, Folded;
    OneSegment(x);
    OneSegment("..");
    assert "/" + ".." == "/..";
    SegmentsConcat("/" + x, "/..");
    var middle := "/" + x + "/..";
    assert SegmentsOf(middle) == [x, ".."];
    NoPath();
    forall stack ensures Folded(SegmentsOf(middle), stack) == Folded(SegmentsOf(""), stack) {
      FoldedSteps(x, stack);
    }
    MiddleReplaced(a, middle, "", b);
    assert a + "" + b == a + b;
    assert a + middle + b == a + "/" + x + "/.." + b;
  }

  /** At the root there is nothing for ".." to take away. */
  lemma RootHasNoParent(b: string)
    requires b != "" && b[0] == '/'
    ensures Normalized("/.." + b) == Normalized(b)
  {
    hide SegmentsOf, Folded, Stack;
    OneSegment("..");
    assert "/" + ".." == "/..";
    SegmentsConcat("/..", b);
    SegmentsThere(b);
    StackFolds([".."], SegmentsOf(b), []);
    FoldedSteps("..", []);
  }

  /** At the end of a path a dot segment counts like one with a slash behind it. */
  lemma FinalDots(a: string)
    requires IsRooted(a)
    ensures Normalized(a + "/.") == Normalized(a + "/") && Normalized(a + "/..") == Normalized(a + "/../")
  {
    hide SegmentsOf, Folded;
    OneSegment(".");
    OneSegment("..");
    OneSegment("");
    assert "/" + "." == "/." && "/" + ".." == "/.." && "/" + "" == "/";
    SegmentsConcat(a, "/.");
    SegmentsConcat(a, "/");
    SegmentsConcat(a, "/..");
    SegmentsConcat(a + "/..", "/");
    assert a + "/.." + "/" == a + "/../";
    var front := SegmentsOf(a);
    StackFolds(front, ["."], []);
    StackFolds(front, [""], []);
    StackFolds(front, [".."], []);
    StackFolds(front + [".."], [""], []);
    FoldedConcat(front, [".."], []);
    FoldedSteps("..", Folded(front, []));
    assert ["."][1..] == [] && [".."][1..] == [];
  }

  /** A path without dot segments is left alone. */
  lemma CleanPathKept(path: string)
    requires IsRooted(path) && Clean(SegmentsOf(path))
    ensures Normalized(path) == path
  {
    StackOfClean(SegmentsOf(path), []);
    assert [] + SegmentsOf(path) == SegmentsOf(path);
    RenderOfSegments(path);
  }

  lemma {:induction false} RenderOfSegments(path: string)
    requires IsRooted(path)
    ensures Render(SegmentsOf(path)) == path
    decreases |path|
  {
    if path != "" {
      var n := NextSlash(path, 1);
      var rest := SegmentsOf(path[n..]);
      RenderOfSegments(path[n..]);
      RenderConcat([path[1..n]], rest);
      assert [path[1..n]][..0] == [];
      assert path == "/" + path[1..n] + path[n..];
    }
  }
}
