/** The configuration path grammar: keys separated by '.', indices as "[n]", the empty key as
    "[]", and '\' escapes.  The printer and the parser are separate loops in the library. */
module CfgPath {
  import opened Text

  datatype Token = Key(key: string) | Index(index: nat)

  datatype PathError =
    | EmptyPath
    | TrailingEscape
    | TrailingDot
    | EmptySegment
    | UnterminatedIndex
    | AfterEmptyKey
    | IndexOverflow
    | IndexWithoutDigits
    | MissingClosingBracket
    | AfterIndex
    | NoTokens

  type PathResult = Result<seq<Token>, PathError>

  // ----- Printing -----

  predicate NeedsEscape(c: char) {
    c == '\\' || c == '.' || c == '[' || c == ']'
  }

  function EscapeChar(c: char): string {
    if NeedsEscape(c) then ['\\', c] else [c]
  }

  function EscapeChars(s: string): string {
    if s == "" then ""
    else EscapeChars(s[..|s| - 1]) + EscapeChar(s[|s| - 1])
  }

  /** The printed form of one key. */
  function EscapeSegment(segment: string): (r: string)
    ensures r != ""
  {
    if segment == "" then "[]" else EscapeChars(segment)
  }

  function JoinObjectPath(path: string, escapedKey: string): string {
    if path == "" then escapedKey else path + "." + escapedKey
  }

  function JoinIndex(path: string, index: nat): string {
    path + "[" + Decimal(index) + "]"
  }

  function AppendToken(path: string, t: Token): string {
    match t
    case Key(k) => JoinObjectPath(path, EscapeSegment(k))
    case Index(n) => JoinIndex(path, n)
  }

  /** The printed form of a token list; the empty list, which names the root, prints as "". */
  function Format(tokens: seq<Token>): string {
    if tokens == [] then "" else AppendToken(Format(tokens[..|tokens| - 1]), tokens[|tokens| - 1])
  }

  method EscapePathSegment(segment: string) returns (out: string)
    ensures out == EscapeSegment(segment)
  {
    if segment == "" {
      return "[]";
    }
    out := "";
    for i := 0 to |segment|
      invariant out == EscapeChars(segment[..i])
    {
      var ch := segment[i];
      assert segment[..i + 1][..i] == segment[..i];
      if ch == '\\' || ch == '.' || ch == '[' || ch == ']' {
        out := out + ['\\'];
      }
      out := out + [ch];
    }
    assert segment[..|segment|] == segment;
  }

  method FormatPathTokens(tokens: seq<Token>) returns (path: string)
    ensures path == Format(tokens)
  {
    path := "";
    for i := 0 to |tokens|
      invariant path == Format(tokens[..i])
    {
      var token := tokens[i];
      assert tokens[..i + 1][..i] == tokens[..i];
      if token.Index? {
        path := path + "[" + Decimal(token.index) + "]";
      } else {
        var escaped := EscapePathSegment(token.key);
        path := JoinObjectPath(path, escaped);
      }
    }
    assert tokens[..|tokens|] == tokens;
  }

  // ----- Parsing -----

  /** The tokens read so far, with the key still being read. */
  function Flush(current: string, out: seq<Token>): seq<Token> {
    if current == "" then out else out + [Key(current)]
  }

  /** An empty segment is allowed only right after an index or after the explicit empty key. */
  predicate MayFollow(out: seq<Token>) {
    out != [] && (out[|out| - 1].Index? || out[|out| - 1].key == "")
  }

  /** The index after '[': a digit run of value at most `limit`, ']', and a legal follower.
      The library's limit is `size_t`'s maximum. */
  function ParseIndex(s: string, limit: nat): (r: Result<(nat, string), PathError>)
    requires s != ""
    ensures r.Ok? ==> |r.value.1| < |s|
  {
    var n := DigitRun(s);
    if DecimalFrom(s[..n], 0) > limit then Err(IndexOverflow)
    else if n == 0 then Err(IndexWithoutDigits)
    else if n >= |s| || s[n] != ']' then Err(MissingClosingBracket)
    else if n + 1 < |s| && s[n + 1] != '.' && s[n + 1] != '[' then Err(AfterIndex)
    else Ok((DecimalFrom(s[..n], 0), s[n + 1..]))
  }

  datatype Next = Stop(result: PathResult) | Go(rest: string, current: string, out: seq<Token>)

  /** One round of the parser's loop: what remains to be read, the key being read and the
      tokens already read. */
  function Step(s: string, current: string, out: seq<Token>, limit: nat): (next: Next)
    ensures next.Go? ==> |next.rest| < |s|
  {
    if s == "" then
      Stop(if Flush(current, out) == [] then Err(NoTokens) else Ok(Flush(current, out)))
    else if s[0] == '\\' then
      if |s| < 2 then Stop(Err(TrailingEscape)) else Go(s[2..], current + [s[1]], out)
    else if s[0] == '.' then
      if |s| < 2 then Stop(Err(TrailingDot))
      else if current == "" && !MayFollow(out) then Stop(Err(EmptySegment))
      else Go(s[1..], "", Flush(current, out))
    else if s[0] == '[' then
      if |s| < 2 then Stop(Err(UnterminatedIndex))
      else if s[1] == ']' then
        if |s| > 2 && s[2] != '.' && s[2] != '[' then Stop(Err(AfterEmptyKey))
        else Go(s[2..], "", Flush(current, out) + [Key("")])
      else
        var index := ParseIndex(s[1..], limit);
        if index.Err? then Stop(Err(index.error))
        else Go(index.value.1, "", Flush(current, out) + [Index(index.value.0)])
    else Go(s[1..], current + [s[0]], out)
  }

  function ParseTokens(s: string, current: string, out: seq<Token>, limit: nat): PathResult
    decreases |s|
  {
    match Step(s, current, out, limit)
    case Stop(result) => result
    case Go(rest, current', out') => ParseTokens(rest, current', out', limit)
  }

  function ParseWithin(path: string, limit: nat): PathResult {
    if path == "" then Err(EmptyPath) else ParseTokens(path, "", [], limit)
  }

  function Parse(path: string): PathResult {
    ParseWithin(path, SIZE_MAX)
  }

  /** The digits, the ']' and the follower of an index that starts at `start`. */
  method ReadIndex(path: string, start: nat) returns (r: Result<(nat, string), PathError>, i: nat)
    requires start < |path|
    ensures r == ParseIndex(path[start..], SIZE_MAX)
    ensures r.Ok? ==> start < i <= |path| && r.value.1 == path[i..]
  {
    i := start;
    var index: nat := 0;
    ghost var digits := path[start..];
    ghost var n := DigitRun(digits);
    while i < |path| && IsDigit(path[i])
      invariant start <= i <= start + n && i <= |path|
      invariant AllDigits(digits[i - start..n])
      invariant DecimalFrom(digits[i - start..n], index) == DecimalFrom(digits[..n], 0)
      invariant index <= SIZE_MAX
    {
      var digit := DigitValue(path[i]);
      ghost var run := digits[i - start..n];
      assert digits[i - start] == path[i];
      DigitRunStops(digits, i - start);
      assert run[1..] == digits[i + 1 - start..n];
      DecimalFromGrows(run[1..], index * 10 + digit);
      if index > (SIZE_MAX - digit) / 10 {
        return Err(IndexOverflow), i;
      }
      index := index * 10 + digit;
      i := i + 1;
    }
    DigitRunStops(digits, i - start);
    assert i - start == n;
    if i == start {
      return Err(IndexWithoutDigits), i;
    }
    if i >= |path| || path[i] != ']' {
      return Err(MissingClosingBracket), i;
    }
    i := i + 1;
    assert digits[n + 1..] == path[i..];
    if i < |path| && path[i] != '.' && path[i] != '[' {
      return Err(AfterIndex), i;
    }
    return Ok((index, path[i..])), i;
  }

  method ParsePath(path: string) returns (r: PathResult)
    ensures r == Parse(path)
  {
    hide ParseTokens;
    if path == "" {
      return Err(EmptyPath);
    }
    var out: seq<Token>, current, i := [], "", 0;
    while i < |path|
      invariant 0 <= i <= |path|
      invariant ParseTokens(path[i..], current, out, SIZE_MAX) == ParseTokens(path, "", [], SIZE_MAX)
    {
      var ch := path[i];
      ghost var rest := path[i..];
      ghost var next := Step(rest, current, out, SIZE_MAX);
      StepParses(rest, current, out, SIZE_MAX);
      assert rest[0] == ch && |rest| == |path| - i;
      assert forall k :: 0 <= k <= |rest| ==> rest[k..] == path[i + k..];
      if ch == '\\' {
        if i + 1 >= |path| {
          return Err(TrailingEscape);
        }
        current := current + [path[i + 1]];
        i := i + 2;
      } else if ch == '.' {
        if i + 1 >= |path| {
          return Err(TrailingDot);
        }
        if current == "" {
          if out == [] || (!out[|out| - 1].Index? && out[|out| - 1].key != "") {
            return Err(EmptySegment);
          }
        } else {
          out := out + [Key(current)];
          current := "";
        }
        i := i + 1;
      } else if ch == '[' {
        if current != "" {
          out := out + [Key(current)];
          current := "";
        }
        i := i + 1;
        if i >= |path| {
          return Err(UnterminatedIndex);
        }
        if path[i] == ']' {
          out := out + [Key("")];
          i := i + 1;
          if i < |path| && path[i] != '.' && path[i] != '[' {
            return Err(AfterEmptyKey);
          }
        } else {
          var index, after := ReadIndex(path, i);
          if index.Err? {
            return Err(index.error);
          }
          out := out + [Index(index.value.0)];
          i := after;
        }
      } else {
        current := current + [ch];
        i := i + 1;
      }
      assert next == Go(path[i..], current, out);
    }
    StepParses(path[i..], current, out, SIZE_MAX);
    if current != "" {
      out := out + [Key(current)];
    }
    if out == [] {
      return Err(NoTokens);
    }
    return Ok(out);
  }

  // ----- Printing and parsing agree -----

  predicate IndicesFit(tokens: seq<Token>, limit: nat) {
    forall i :: 0 <= i < |tokens| && tokens[i].Index? ==> tokens[i].index <= limit
  }

  /** Where a token may end: at the end of the path or in front of the next token. */
  predicate AtBoundary(rest: string) {
    rest == "" || rest[0] == '.' || rest[0] == '['
  }

  /** The parser in front of a token boundary: a key is being read, or the last token is closed. */
  predicate BetweenTokens(current: string, out: seq<Token>) {
    current != "" || MayFollow(out)
  }

  function NextToken(current: string, out: seq<Token>, t: Token): (string, seq<Token>) {
    if t.Key? && t.key != "" then (t.key, Flush(current, out)) else ("", Flush(current, out) + [t])
  }

  lemma EscapedCharSteps(c: char, tail: string, current: string, out: seq<Token>, limit: nat)
    ensures Step(EscapeChar(c) + tail, current, out, limit) == Go(tail, current + [c], out)
  {
    var s := EscapeChar(c) + tail;
    assert s[|EscapeChar(c)|..] == tail;
  }

  lemma {:induction false} EscapedCharsParse(k: string, rest: string, current: string, out: seq<Token>, limit: nat)
    ensures ParseTokens(EscapeChars(k) + rest, current, out, limit) == ParseTokens(rest, current + k, out, limit)
    decreases |k|
  {
    if k == "" {
      assert EscapeChars(k) + rest == rest;
      assert current + k == current;
    } else {
      var init, c := k[..|k| - 1], k[|k| - 1];
      assert EscapeChars(k) + rest == EscapeChars(init) + (EscapeChar(c) + rest);
      EscapedCharsParse(init, EscapeChar(c) + rest, current, out, limit);
      EscapedCharSteps(c, rest, current + init, out, limit);
      assert current + init + [c] == current + k;
    }
  }

  lemma ParseIndexOfNumeral(digits: string, rest: string, limit: nat)
    requires digits != "" && AllDigits(digits) && DecimalFrom(digits, 0) <= limit && AtBoundary(rest)
    ensures ParseIndex(digits + ("]" + rest), limit) == Ok((DecimalFrom(digits, 0), rest))
  {
    var s := digits + ("]" + rest);
    DigitRunOfNumeral(digits, "]" + rest);
    assert s[..|digits|] == digits;
    assert s[|digits| + 1..] == rest;
  }

  lemma IndexParses(n: nat, rest: string, current: string, out: seq<Token>, limit: nat)
    requires n <= limit && AtBoundary(rest)
    ensures ParseTokens("[" + Decimal(n) + "]" + rest, current, out, limit) ==
            ParseTokens(rest, "", Flush(current, out) + [Index(n)], limit)
  {
    var digits := Decimal(n);
    DecimalRoundTrip(n);
    IndexDigitsParse(digits, n, rest, current, out, limit);
  }

  lemma IndexDigitsParse(digits: string, n: nat, rest: string, current: string, out: seq<Token>, limit: nat)
    requires digits != "" && AllDigits(digits) && DecimalFrom(digits, 0) == n <= limit && AtBoundary(rest)
    ensures ParseTokens("[" + digits + "]" + rest, current, out, limit) ==
            ParseTokens(rest, "", Flush(current, out) + [Index(n)], limit)
  {
    hide ParseIndex, DecimalFrom, Flush, ParseTokens;
    var s := "[" + digits + "]" + rest;
    assert s[1..] == digits + ("]" + rest);
    ParseIndexOfNumeral(digits, rest, limit);
    assert IsDigit(s[1]);
    StepParses(s, current, out, limit);
  }

  /** One step of the parser. */
  lemma StepParses(s: string, current: string, out: seq<Token>, limit: nat)
    ensures ParseTokens(s, current, out, limit) ==
            match Step(s, current, out, limit)
            case Stop(result) => result
            case Go(rest, current', out') => ParseTokens(rest, current', out', limit)
  {
    hide Step;
  }

  lemma EmptyKeyParses(rest: string, current: string, out: seq<Token>, limit: nat)
    requires AtBoundary(rest)
    ensures ParseTokens("[]" + rest, current, out, limit) ==
      ParseTokens(rest, "", Flush(current, out) + [Key("")], limit)
  {
    assert ("[]" + rest)[2..] == rest;
  }

  /** The printed first token read from the start of a path. */
  lemma FirstTokenParses(t: Token, rest: string, limit: nat)
    requires AtBoundary(rest) && IndicesFit([t], limit)
    ensures ParseTokens(AppendToken("", t) + rest, "", [], limit) ==
            ParseTokens(rest, NextToken("", [], t).0, NextToken("", [], t).1, limit)
  {
    assert [t][0] == t;
    if t.Index? {
      IndexParses(t.index, rest, "", [], limit);
      hide ParseTokens, Decimal;
      assert "" + "[" == "[";
    } else if t.key == "" {
      EmptyKeyParses(rest, "", [], limit);
    } else {
      EscapedCharsParse(t.key, rest, "", [], limit);
      hide ParseTokens, EscapeChars;
      assert "" + t.key == t.key;
    }
  }

  /** What printing one more token adds to a non-empty path. */
  function Suffix(t: Token): (s: string)
    ensures s != "" && AtBoundary(s)
  {
    match t
    case Key(k) => "." + EscapeSegment(k)
    case Index(n) => "[" + Decimal(n) + "]"
  }

  lemma AppendAddsSuffix(path: string, t: Token)
    requires path != ""
    ensures AppendToken(path, t) == path + Suffix(t)
  {
    hide Decimal, EscapeSegment;
  }

  /** The printed form of a later token read between tokens. */
  lemma LaterTokenParses(t: Token, rest: string, current: string, out: seq<Token>, limit: nat)
    requires AtBoundary(rest) && IndicesFit([t], limit) && BetweenTokens(current, out)
    ensures ParseTokens(Suffix(t) + rest, current, out, limit) ==
            ParseTokens(rest, NextToken(current, out, t).0, NextToken(current, out, t).1, limit)
  {
    hide ParseTokens, EscapeSegment, Decimal, Flush;
    assert [t][0] == t;
    if t.Index? {
      IndexParses(t.index, rest, current, out, limit);
    } else {
      LaterKeyParses(t.key, rest, current, out, limit);
    }
  }

  lemma LaterKeyParses(key: string, rest: string, current: string, out: seq<Token>, limit: nat)
    requires AtBoundary(rest) && BetweenTokens(current, out)
    ensures ParseTokens("." + EscapeSegment(key) + rest, current, out, limit) ==
            ParseTokens(rest, NextToken(current, out, Key(key)).0, NextToken(current, out, Key(key)).1, limit)
  {
    hide ParseTokens, ParseIndex;
    var tail := EscapeSegment(key) + rest;
    var s := "." + tail;
    assert "." + EscapeSegment(key) + rest == s && s[1..] == tail;
    StepParses(s, current, out, limit);
    assert Step(s, current, out, limit) == Go(tail, "", Flush(current, out));
    if key == "" {
      EmptyKeyParses(rest, "", Flush(current, out), limit);
    } else {
      EscapedCharsParse(key, rest, "", Flush(current, out), limit);
      assert "" + key == key;
    }
  }

  /** The parser's state after the printed form of `tokens`: the last token, when it is a
      non-empty key, is still being read. */
  function StateAfter(tokens: seq<Token>): (string, seq<Token>) {
    if tokens == [] then ("", [])
    else
      var last := tokens[|tokens| - 1];
      if last.Key? && last.key != "" then (last.key, tokens[..|tokens| - 1]) else ("", tokens)
  }

  lemma StateAfterFlushes(tokens: seq<Token>)
    ensures Flush(StateAfter(tokens).0, StateAfter(tokens).1) == tokens
    ensures tokens != [] ==> BetweenTokens(StateAfter(tokens).0, StateAfter(tokens).1)
  {
    if tokens != [] {
      assert tokens == tokens[..|tokens| - 1] + [tokens[|tokens| - 1]];
    }
  }

  lemma FormatNonempty(tokens: seq<Token>)
    ensures Format(tokens) == "" <==> tokens == []
  {
  }

  lemma StateAfterAppend(init: seq<Token>, t: Token)
    ensures StateAfter(init + [t]) == NextToken(StateAfter(init).0, StateAfter(init).1, t)
  {
    StateAfterFlushes(init);
    assert (init + [t])[..|init|] == init;
  }

  /** Parsing `path + rest` reaches `rest` in the state that follows `tokens`. */
  ghost predicate Reads(path: string, tokens: seq<Token>, rest: string, limit: nat) {
    ParseTokens(path + rest, "", [], limit) == ParseTokens(rest, StateAfter(tokens).0, StateAfter(tokens).1, limit)
  }

  lemma ReadsOneMore(path: string, init: seq<Token>, t: Token, rest: string, limit: nat)
    requires init != [] && AtBoundary(rest) && IndicesFit([t], limit)
    requires Reads(path, init, Suffix(t) + rest, limit)
    ensures Reads(path + Suffix(t), init + [t], rest, limit)
  {
    hide ParseTokens, Suffix, StateAfter;
    StateAfterAppend(init, t);
    StateAfterFlushes(init);
    LaterTokenParses(t, rest, StateAfter(init).0, StateAfter(init).1, limit);
    assert path + (Suffix(t) + rest) == path + Suffix(t) + rest;
  }

  /** Parsing a printed token list followed by anything that starts at a token boundary. */
  lemma {:induction false} PrintedTokensParse(tokens: seq<Token>, rest: string, limit: nat)
    requires AtBoundary(rest) && IndicesFit(tokens, limit)
    ensures Reads(Format(tokens), tokens, rest, limit)
    decreases |tokens|
  {
    if tokens == [] {
      assert Format(tokens) + rest == rest;
      return;
    }
    var init, t := tokens[..|tokens| - 1], tokens[|tokens| - 1];
    assert tokens == init + [t];
    assert IndicesFit([t], limit);
    if init == [] {
      StateAfterAppend(init, t);
      FirstTokenParses(t, rest, limit);
    } else {
      FormatNonempty(init);
      AppendAddsSuffix(Format(init), t);
      PrintedTokensParse(init, Suffix(t) + rest, limit);
      ReadsOneMore(Format(init), init, t, rest, limit);
    }
  }

  lemma FormatParsesWithin(tokens: seq<Token>, limit: nat)
    requires tokens != [] && IndicesFit(tokens, limit)
    ensures ParseWithin(Format(tokens), limit) == Ok(tokens)
  {
    PrintedTokensParse(tokens, "", limit);
    FormatNonempty(tokens);
    StateAfterFlushes(tokens);
    assert Format(tokens) + "" == Format(tokens);
  }

  /** Parsing what the printer wrote gives the token list back: empty keys, keys made of the
      grammar's own characters and `size_t`'s largest index included. */
  lemma FormatParses(tokens: seq<Token>)
    requires tokens != [] && IndicesFit(tokens, SIZE_MAX)
    ensures Parse(Format(tokens)) == Ok(tokens)
  {
    FormatParsesWithin(tokens, SIZE_MAX);
  }

  function LargestIndex(tokens: seq<Token>): (limit: nat)
    ensures IndicesFit(tokens, limit)
  {
    if tokens == [] then 0
    else
      var rest := LargestIndex(tokens[1..]);
      var limit := if tokens[0].Index? && tokens[0].index > rest then tokens[0].index else rest;
      assert forall i :: 1 <= i < |tokens| ==> tokens[i] == tokens[1..][i - 1];
      limit
  }

  lemma CommonLimit(a: seq<Token>, b: seq<Token>) returns (limit: nat)
    ensures IndicesFit(a, limit) && IndicesFit(b, limit)
  {
    limit := LargestIndex(a) + LargestIndex(b);
  }

  /** Two token lists never share a printed form, however large their indices. */
  lemma FormatInjective(a: seq<Token>, b: seq<Token>)
    requires Format(a) == Format(b)
    ensures a == b
  {
    FormatNonempty(a);
    FormatNonempty(b);
    if a != [] {
      var limit := CommonLimit(a, b);
      FormatParsesWithin(a, limit);
      FormatParsesWithin(b, limit);
    }
  }

  lemma {:induction false} ParseExtends(s: string, current: string, out: seq<Token>, limit: nat)
    requires ParseTokens(s, current, out, limit).Ok?
    ensures out <= ParseTokens(s, current, out, limit).value
    decreases |s|
  {
    var next := Step(s, current, out, limit);
    if next.Go? {
      ParseExtends(next.rest, next.current, next.out, limit);
    }
  }

  /** The textual test the library uses for "at or below `path`". */
  predicate AtOrBelow(candidate: string, path: string) {
    candidate == path || StartsWith(candidate, path + ".") || StartsWith(candidate, path + "[")
  }

  function Suffixes(tokens: seq<Token>): (s: string)
    ensures AtBoundary(s)
    ensures s == "" <==> tokens == []
  {
    if tokens == [] then "" else Suffixes(tokens[..|tokens| - 1]) + Suffix(tokens[|tokens| - 1])
  }

  lemma {:induction false} FormatConcat(p: seq<Token>, q: seq<Token>)
    requires p != []
    ensures Format(p + q) == Format(p) + Suffixes(q)
    decreases |q|
  {
    hide Suffix, AppendToken;
    if q == [] {
      assert p + q == p;
    } else {
      var init, t := q[..|q| - 1], q[|q| - 1];
      FormatConcat(p, init);
      FormatNonempty(p + init);
      AppendAddsSuffix(Format(p + init), t);
      assert (p + q)[..|p + q| - 1] == p + init;
    }
  }

  lemma FormatExtends(p: seq<Token>, q: seq<Token>)
    requires p != [] && p <= q
    ensures AtOrBelow(Format(q), Format(p))
  {
    hide Suffix, Suffixes, Format;
    var rest := q[|p|..];
    assert q == p + rest;
    FormatConcat(p, rest);
    var s := Suffixes(rest);
    if s != "" {
      var sep := if s[0] == '.' then "." else "[";
      assert (Format(p) + s)[..|Format(p)| + 1] == Format(p) + sep;
    }
  }

  lemma PrintedPrefixExtends(p: seq<Token>, rest: string, q: seq<Token>, limit: nat)
    requires IndicesFit(p, limit) && rest != "" && AtBoundary(rest)
    requires ParseWithin(Format(p) + rest, limit) == Ok(q)
    ensures p <= q
  {
    PrintedTokensParse(p, rest, limit);
    StateAfterFlushes(p);
    BoundaryKeepsFlushed(rest, StateAfter(p).0, StateAfter(p).1, limit);
  }

  lemma AtOrBelowSplits(candidate: string, path: string) returns (rest: string)
    requires AtOrBelow(candidate, path) && candidate != path
    ensures candidate == path + rest && rest != "" && AtBoundary(rest)
  {
    rest := candidate[|path|..];
    var sep := if StartsWith(candidate, path + ".") then "." else "[";
    assert candidate[..|path| + 1] == path + sep;
    assert candidate[|path|] == (path + sep)[|path|];
  }

  /** The textual prefix test selects exactly the paths whose tokens extend the given tokens:
      the path itself and its descendants, and never a sibling whose name merely starts alike. */
  lemma AtOrBelowIsTokenPrefix(p: seq<Token>, q: seq<Token>)
    requires p != []
    ensures AtOrBelow(Format(q), Format(p)) <==> p <= q
  {
    if p <= q {
      FormatExtends(p, q);
    } else if Format(q) == Format(p) {
      FormatInjective(p, q);
    } else if AtOrBelow(Format(q), Format(p)) {
      var rest := AtOrBelowSplits(Format(q), Format(p));
      FormatNonempty(q);
      var limit := CommonLimit(p, q);
      FormatParsesWithin(q, limit);
      PrintedPrefixExtends(p, rest, q, limit);
    }
  }

  /** Past a separator the tokens read so far are part of every result. */
  lemma BoundaryKeepsFlushed(rest: string, current: string, out: seq<Token>, limit: nat)
    requires rest != "" && AtBoundary(rest) && ParseTokens(rest, current, out, limit).Ok?
    ensures Flush(current, out) <= ParseTokens(rest, current, out, limit).value
  {
    var next := Step(rest, current, out, limit);
    ParseExtends(next.rest, next.current, next.out, limit);
  }
}
