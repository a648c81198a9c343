/** What the printer writes, the parser reads back. */
module CfgJsonRoundTrip {
  import opened Text
  import opened CfgNode
  import opened CfgJson

  // ----- Strings -----

  lemma EscapedCharReads(c: char, rest: string)
    requires c as int < 0x100
    ensures EscapeJsonChar(c) != "" && EscapeJsonChar(c)[0] != '"'
    ensures StringChar(EscapeJsonChar(c) + rest) == Ok(([c], rest))
  {
    var e := EscapeJsonChar(c);
    var s := e + rest;
    assert s[|e|..] == rest;
    if |e| == 6 {
      var hi, lo := c as int / 16, c as int % 16;
      assert e == "\\u00" + [HexChar(hi), HexChar(lo)];
      var t := s[2..];
      assert t == ['0', '0', HexChar(hi), HexChar(lo)] + rest;
      assert t[4..] == rest;
      assert Quad(t) == Some(c as int);
    }
  }

  /** A string of bytes. */
  predicate Bytes(s: string) {
    forall i :: 0 <= i < |s| ==> s[i] as int < 0x100
  }

  lemma {:induction false} EscapedStringReads(s: string, rest: string, out: string)
    requires Bytes(s)
    ensures StringRest(EscapeJson(s) + rest, out) == StringRest(rest, out + s)
    decreases |s|
  {
    hide StringChar, EscapeJsonChar, StringRest;
    if s == "" {
      assert EscapeJson(s) + rest == rest && out + s == out;
    } else {
      var init, c := s[..|s| - 1], s[|s| - 1];
      assert EscapeJson(s) + rest == EscapeJson(init) + (EscapeJsonChar(c) + rest);
      EscapedStringReads(init, EscapeJsonChar(c) + rest, out);
      EscapedCharReads(c, rest);
      StringRestStep(EscapeJsonChar(c) + rest, out + init);
      assert out + init + [c] == out + s;
    }
  }

  lemma QuotedReads(s: string, rest: string)
    requires Bytes(s)
    ensures StringLiteral(Quoted(s) + rest) == Ok((s, rest))
  {
    hide StringRest, EscapeJson;
    var t := Quoted(s) + rest;
    var tail := "\"" + rest;
    assert t[1..] == EscapeJson(s) + tail;
    EscapedStringReads(s, tail, "");
    StringRestStep(tail, "" + s);
    assert "" + s == s && tail[1..] == rest;
  }

  // ----- Numbers -----

  /** The printed value ends here: no character continues a number. */
  predicate Terminated(rest: string) {
    rest == "" || !NumberChar(rest[0])
  }

  lemma NumberRunOf(token: string, rest: string)
    requires forall i :: 0 <= i < |token| ==> NumberChar(token[i])
    requires Terminated(rest)
    ensures NumberRun(token + rest) == |token|
  {
    var s := token + rest;
    assert forall i :: 0 <= i < |token| ==> s[i] == token[i];
    assert rest != "" ==> s[|token|] == rest[0];
  }

  lemma SignedIsNumber(v: int)
    ensures IsJsonNumber(Signed(v)) && IsIntegral(Signed(v)) && IntegerValue(Signed(v)) == Some(v)
    ensures forall i :: 0 <= i < |Signed(v)| ==> NumberChar(Signed(v)[i])
    ensures Signed(v) != "" && (IsDigit(Signed(v)[0]) || Signed(v)[0] == '-')
  {
    var m: nat := if v < 0 then -v else v;
    var digits := Decimal(m);
    DecimalRoundTrip(m);
    DigitRunOfNumeral(digits, "");
    assert digits + "" == digits && digits[|digits|..] == "";
    hide Decimal, DigitRun, DecimalFrom;
    if v < 0 {
      assert Signed(v)[1..] == digits;
    }
    assert AfterInteger(Signed(v)) == Some("");
  }

  lemma NumberReads(token: string, node: Node, rest: string)
    requires NumberNode(token) == Ok(node) && Terminated(rest)
    requires forall i :: 0 <= i < |token| ==> NumberChar(token[i])
    ensures Number(token + rest) == Ok((node, rest))
  {
    NumberRunOf(token, rest);
    assert (token + rest)[..|token|] == token && (token + rest)[|token|..] == rest;
  }

  /** `rest` is what remains of `s` after characters that belong to numbers. */
  ghost predicate NumberPrefix(s: string, rest: string) {
    |rest| <= |s| && rest == s[|s| - |rest|..] && forall i :: 0 <= i < |s| - |rest| ==> NumberChar(s[i])
  }

  lemma AfterDigitsPrefix(s: string)
    requires AfterDigits(s).Some?
    ensures NumberPrefix(s, AfterDigits(s).value)
  {
    var n := DigitRun(s);
    forall i | 0 <= i < n
      ensures NumberChar(s[i])
    {
      assert s[..n][i] == s[i];
    }
  }

  lemma OneMore(s: string, rest: string)
    requires s != "" && NumberChar(s[0]) && NumberPrefix(s[1..], rest)
    ensures NumberPrefix(s, rest)
  {
    forall i | 0 <= i < |s| - |rest|
      ensures NumberChar(s[i])
    {
      if i > 0 {
        assert s[i] == s[1..][i - 1];
      }
    }
  }

  lemma PrefixTransitive(a: string, b: string, c: string)
    requires NumberPrefix(a, b) && NumberPrefix(b, c)
    ensures NumberPrefix(a, c)
  {
    forall i | 0 <= i < |a| - |c|
      ensures NumberChar(a[i])
    {
      if i >= |a| - |b| {
        assert a[i] == b[i - (|a| - |b|)];
      }
    }
  }

  lemma AfterIntegerPrefix(s: string)
    requires AfterInteger(s).Some?
    ensures NumberPrefix(s, AfterInteger(s).value)
  {
    hide AfterDigits;
    var body := if s[0] == '-' then s[1..] else s;
    if body[0] != '0' {
      AfterDigitsPrefix(body);
    }
    if s[0] == '-' {
      OneMore(s, AfterInteger(s).value);
    }
  }

  lemma AfterFractionPrefix(s: string)
    requires AfterFraction(s).Some?
    ensures NumberPrefix(s, AfterFraction(s).value)
  {
    hide AfterDigits;
    if s != "" && s[0] == '.' {
      AfterDigitsPrefix(s[1..]);
      OneMore(s, AfterFraction(s).value);
    }
  }

  lemma AfterExponentPrefix(s: string)
    requires AfterExponent(s).Some?
    ensures NumberPrefix(s, AfterExponent(s).value)
  {
    hide AfterDigits;
    if s != "" && (s[0] == 'e' || s[0] == 'E') {
      if |s| > 1 && (s[1] == '+' || s[1] == '-') {
        AfterDigitsPrefix(s[2..]);
        assert s[1..][1..] == s[2..];
        OneMore(s[1..], AfterExponent(s).value);
      } else {
        AfterDigitsPrefix(s[1..]);
      }
      OneMore(s, AfterExponent(s).value);
    }
  }

  lemma JsonNumberChars(token: string)
    requires IsJsonNumber(token)
    ensures forall i :: 0 <= i < |token| ==> NumberChar(token[i])
    ensures token != "" && (IsDigit(token[0]) || token[0] == '-')
  {
    var a := AfterInteger(token).value;
    var b := AfterFraction(a).value;
    AfterIntegerPrefix(token);
    AfterFractionPrefix(a);
    AfterExponentPrefix(b);
    PrefixTransitive(token, a, b);
    PrefixTransitive(token, b, "");
  }

  // ----- White space and first characters -----

  lemma {:induction false} SkipSpaces(n: nat, rest: string)
    requires rest != "" && !IsSpace(rest[0])
    ensures SkipSpace(seq(n, _ => ' ') + rest) == rest
    decreases n
  {
    var s := seq(n, _ => ' ') + rest;
    if n == 0 {
      assert s == rest;
    } else {
      assert s[0] == ' ' && s[1..] == seq(n - 1, _ => ' ') + rest;
      SkipSpaces(n - 1, rest);
    }
  }

  lemma SkipBreak(indent: nat, depth: nat, rest: string)
    requires rest != "" && !IsSpace(rest[0])
    ensures SkipSpace(Break(indent, depth) + rest) == rest
  {
    if indent == 0 {
      assert Break(indent, depth) + rest == rest;
    } else {
      var spaces := seq(depth * indent, _ => ' ');
      assert (Break(indent, depth) + rest)[1..] == spaces + rest;
      SkipSpaces(depth * indent, rest);
    }
  }

  /** Nodes whose strings are byte strings and whose doubles are JSON number tokens that do not
      look like integers. */
  predicate Printable(node: Node)
    decreases node
  {
    match node
    case Double(token) => IsJsonNumber(token) && !IsIntegral(token)
    case Str(text) => Bytes(text)
    case Array(items) => forall i :: 0 <= i < |items| ==> Printable(items[i])
    case Object(entries) => forall i :: 0 <= i < |entries| ==> Bytes(entries[i].0) && Printable(entries[i].1)
    case _ => true
  }

  predicate StartsValue(s: string) {
    s != "" && !IsSpace(s[0]) && s[0] != ']' && s[0] != '}' && s[0] != ','
  }

  lemma JsonStarts(node: Node, indent: nat, depth: nat)
    requires Printable(node)
    ensures StartsValue(Json(node, indent, depth))
  {
    hide Break, ItemsJson, EntriesJson, EscapeJson;
    match node
    case Integer(value) => SignedIsNumber(value);
    case Double(token) => JsonNumberChars(token);
    case _ =>
  }

  // ----- Values -----

  lemma ScalarReads(node: Node, indent: nat, depth: nat, rest: string)
    requires Printable(node) && !node.Array? && !node.Object? && Terminated(rest)
    ensures Value(Json(node, indent, depth) + rest) == Ok((node, rest))
  {
    hide Value, Quoted, Signed, StringLiteral, Number, NumberNode, IsJsonNumber;
    match node
    case Null => WordReads("null", Null, rest);
    case Boolean(flag) => WordReads(if flag then "true" else "false", node, rest);
    case Str(text) => StrReads(text, rest);
    case Integer(value) =>
      SignedIsNumber(value);
      IntegerNode(value);
      TokenReads(Signed(value), node, rest);
    case Double(token) =>
      JsonNumberChars(token);
      DoubleNode(token);
      TokenReads(token, node, rest);
  }

  lemma WordReads(word: string, node: Node, rest: string)
    requires (word == "null" && node == Null) || (word == "true" && node == Boolean(true)) ||
             (word == "false" && node == Boolean(false))
    ensures Value(word + rest) == Ok((node, rest))
  {
    hide Items, Entries, StringLiteral, Number, SkipSpace;
    var s := word + rest;
    NoSpace(s);
    assert s[..|word|] == word && s[|word|..] == rest;
  }

  lemma StrReads(text: string, rest: string)
    requires Bytes(text)
    ensures Value(Quoted(text) + rest) == Ok((Str(text), rest))
  {
    hide Items, Entries, StringLiteral, Number, SkipSpace, EscapeJson, Bytes;
    NoSpace(Quoted(text) + rest);
    QuotedReads(text, rest);
  }

  lemma IntegerNode(value: Int64)
    ensures NumberNode(Signed(value)) == Ok(Integer(value))
  {
    hide IsJsonNumber, IsIntegral, IntegerValue, Signed;
    SignedIsNumber(value);
  }

  lemma DoubleNode(token: string)
    requires Printable(Double(token))
    ensures NumberNode(token) == Ok(Double(token))
  {
    hide IsJsonNumber, IsIntegral;
  }

  lemma TokenReads(token: string, node: Node, rest: string)
    requires NumberNode(token) == Ok(node) && Terminated(rest)
    requires token != "" && (IsDigit(token[0]) || token[0] == '-')
    requires forall i :: 0 <= i < |token| ==> NumberChar(token[i])
    ensures Value(token + rest) == Ok((node, rest))
  {
    hide Items, Entries, StringLiteral, Number, NumberNode, NumberChar, SkipSpace;
    NoSpace(token + rest);
    NumberReads(token, node, rest);
  }

  function Closing(indent: nat, depth: nat, bracket: string, rest: string): string {
    Break(indent, depth) + bracket + rest
  }

  lemma ClosingTerminated(indent: nat, depth: nat, bracket: string, rest: string)
    requires bracket == "]" || bracket == "}"
    ensures Terminated(Closing(indent, depth, bracket, rest))
    ensures SkipSpace(Closing(indent, depth, bracket, rest)) == bracket + rest
  {
    hide SkipSpace;
    SkipBreak(indent, depth, bracket + rest);
    assert Closing(indent, depth, bracket, rest) == Break(indent, depth) + (bracket + rest);
  }

  lemma {:induction false} ValueReads(node: Node, indent: nat, depth: nat, rest: string)
    requires Printable(node) && Terminated(rest)
    ensures Value(Json(node, indent, depth) + rest) == Ok((node, rest))
    decreases node, 1
  {
    hide Value, Items, Entries, Break, ItemsJson, EntriesJson, SkipSpace, Json;
    var s := Json(node, indent, depth) + rest;
    if node.Array? {
      ArrayJson(node, indent, depth);
      ArrayValue(s);
      if node.items == [] {
        assert s[1..] == "]" + rest;
        NoSpace("]" + rest);
        assert ("]" + rest)[1..] == rest;
      } else {
        var body := ItemsJson(node, 0, indent, depth) + Closing(indent, depth, "]", rest);
        assert s[1..] == body;
        ItemsRead(node, 0, indent, depth, rest);
        ItemsStart(node, 0, indent, depth, Closing(indent, depth, "]", rest));
        assert node.items[..0] == [];
        ItemsSkipSpace(body, []);
      }
    } else if node.Object? {
      ObjectJson(node, indent, depth);
      ObjectValue(s);
      if node.entries == [] {
        assert s[1..] == "}" + rest;
        NoSpace("}" + rest);
        assert ("}" + rest)[1..] == rest;
      } else {
        var body := EntriesJson(node, 0, indent, depth) + Closing(indent, depth, "}", rest);
        assert s[1..] == body;
        EntriesRead(node, 0, indent, depth, rest);
        EntriesStart(node, 0, indent, depth, Closing(indent, depth, "}", rest));
        assert node.entries[..0] == [];
        EntriesSkipSpace(body, []);
      }
    } else {
      ScalarReads(node, indent, depth, rest);
    }
  }

  lemma NoSpace(s: string)
    requires s != "" && !IsSpace(s[0])
    ensures SkipSpace(s) == s
  {
  }

  // ----- Arrays -----

  lemma ItemsSkipSpace(s: string, items: seq<Node>)
    requires SkipSpace(s) != "" && s != ""
    ensures Items(SkipSpace(s), items) == Items(s, items)
  {
    hide Value, Items, SkipSpace;
    ItemsStep(s, items);
    ItemsStep(SkipSpace(s), items);
    ValueSkipsSpace(s);
  }

  /** Where an item starts: after the line break, with the value's first character. */
  lemma ItemsStart(node: Node, i: nat, indent: nat, depth: nat, tail: string)
    requires node.Array? && i < |node.items| && Printable(node)
    ensures var s := ItemsJson(node, i, indent, depth) + tail;
            s != "" && StartsValue(SkipSpace(s))
  {
    hide Break, Json, ItemsJson, SkipSpace;
    var printed := Json(node.items[i], indent, depth + 1);
    var after := Comma(i + 1 < |node.items|) + ItemsJson(node, i + 1, indent, depth) + tail;
    JsonStarts(node.items[i], indent, depth + 1);
    ItemsJsonStep(node, i, indent, depth);
    SkipBreak(indent, depth + 1, printed + after);
    assert ItemsJson(node, i, indent, depth) + tail == Break(indent, depth + 1) + (printed + after);
  }

  lemma {:induction false} ItemsRead(node: Node, i: nat, indent: nat, depth: nat, rest: string)
    requires node.Array? && i < |node.items| && Printable(node)
    ensures Items(ItemsJson(node, i, indent, depth) + Closing(indent, depth, "]", rest), node.items[..i]) ==
      Ok((node, rest))
    decreases node, 0, |node.items| - i
  {
    hide Value, Items, Break, ItemsJson, SkipSpace, Json, Closing;
    var item := node.items[i];
    var closing := Closing(indent, depth, "]", rest);
    var more := i + 1 < |node.items|;
    var tail := Comma(more) + ItemsJson(node, i + 1, indent, depth) + closing;
    var s := ItemsJson(node, i, indent, depth) + closing;
    var printed := Json(item, indent, depth + 1);
    ItemsJsonStep(node, i, indent, depth);
    assert s == Break(indent, depth + 1) + (printed + tail);
    ClosingTerminated(indent, depth, "]", rest);
    if more {
      assert tail == "," + (ItemsJson(node, i + 1, indent, depth) + closing);
    } else {
      ItemsJsonEnd(node, indent, depth);
      assert tail == closing;
    }
    JsonStarts(item, indent, depth + 1);
    SkipBreak(indent, depth + 1, printed + tail);
    ValueSkipsSpace(s);
    ValueReads(item, indent, depth + 1, tail);
    ItemsStep(s, node.items[..i]);
    assert node.items[..i] + [item] == node.items[..i + 1];
    if more {
      NoSpace(tail);
      assert tail[1..] == ItemsJson(node, i + 1, indent, depth) + closing;
      ItemsRead(node, i + 1, indent, depth, rest);
    } else {
      assert node.items[..i + 1] == node.items;
      assert ("]" + rest)[1..] == rest;
    }
  }

  // ----- Objects -----

  lemma EntriesSkipSpace(s: string, entries: seq<(string, Node)>)
    requires SkipSpace(s) != "" && s != ""
    ensures Entries(SkipSpace(s), entries) == Entries(s, entries)
  {
    hide Value, Entries;
    EntriesStep(s, entries);
    EntriesStep(SkipSpace(s), entries);
    SkipSpaceTwice(s);
  }

  lemma EntriesStart(node: Node, i: nat, indent: nat, depth: nat, tail: string)
    requires node.Object? && i < |node.entries|
    ensures var s := EntriesJson(node, i, indent, depth) + tail;
            s != "" && StartsValue(SkipSpace(s))
  {
    hide Break, Json, EntriesJson, SkipSpace, EscapeJson;
    var member := Member(node.entries[i].0, indent);
    var after := Json(node.entries[i].1, indent, depth + 1) + Comma(i + 1 < |node.entries|) +
                 EntriesJson(node, i + 1, indent, depth) + tail;
    EntriesJsonStep(node, i, indent, depth);
    assert member[0] == '"';
    hide Member;
    SkipBreak(indent, depth + 1, member + after);
    assert EntriesJson(node, i, indent, depth) + tail == Break(indent, depth + 1) + (member + after);
  }

  lemma EntryReads(key: string, value: Node, indent: nat, depth: nat, tail: string)
    requires Bytes(key) && Printable(value)
    requires Value(Json(value, indent, depth + 1) + tail) == Ok((value, tail))
    ensures Entry(Break(indent, depth + 1) + (Member(key, indent) + Json(value, indent, depth + 1) + tail)) ==
      Ok(((key, value), tail))
  {
    hide Value, Break, Json, EscapeJson, StringLiteral, SkipSpace;
    var printed := Json(value, indent, depth + 1);
    var body := Member(key, indent) + printed + tail;
    var gap := if indent == 0 then "" else " ";
    var afterKey := ":" + (gap + (printed + tail));
    assert body == Quoted(key) + afterKey;
    assert body[0] == '"';
    SkipBreak(indent, depth + 1, body);
    hide Quoted, Member;
    QuotedReads(key, afterKey);
    NoSpace(afterKey);
    assert afterKey[1..] == gap + (printed + tail);
    JsonStarts(value, indent, depth + 1);
    var spaces := seq(|gap|, _ => ' ');
    assert gap == spaces;
    SkipSpaces(|gap|, printed + tail);
    ValueSkipsSpace(gap + (printed + tail));
  }

  lemma {:induction false} EntriesRead(node: Node, i: nat, indent: nat, depth: nat, rest: string)
    requires node.Object? && i < |node.entries| && Printable(node)
    ensures Entries(EntriesJson(node, i, indent, depth) + Closing(indent, depth, "}", rest), node.entries[..i]) ==
      Ok((node, rest))
    decreases node, 0, |node.entries| - i
  {
    hide Value, Entry, Entries, Break, EntriesJson, SkipSpace, Json, Closing, Member;
    var (key, value) := node.entries[i];
    var closing := Closing(indent, depth, "}", rest);
    var more := i + 1 < |node.entries|;
    var tail := Comma(more) + EntriesJson(node, i + 1, indent, depth) + closing;
    var s := EntriesJson(node, i, indent, depth) + closing;
    EntriesJsonStep(node, i, indent, depth);
    assert s == Break(indent, depth + 1) + (Member(key, indent) + Json(value, indent, depth + 1) + tail);
    ClosingTerminated(indent, depth, "}", rest);
    if more {
      assert tail == "," + (EntriesJson(node, i + 1, indent, depth) + closing);
    } else {
      EntriesJsonEnd(node, indent, depth);
      assert tail == closing;
    }
    ValueReads(node.entries[i].1, indent, depth + 1, tail);
    EntryReads(key, value, indent, depth, tail);
    EntriesStep(s, node.entries[..i]);
    assert node.entries[..i] + [(key, value)] == node.entries[..i + 1];
    if more {
      NoSpace(tail);
      assert tail[1..] == EntriesJson(node, i + 1, indent, depth) + closing;
      EntriesRead(node, i + 1, indent, depth, rest);
    } else {
      assert node.entries[..i + 1] == node.entries;
      assert ("}" + rest)[1..] == rest;
    }
  }

  // ----- Documents -----

  /** Parsing a printed document gives the document back: every control and high byte in keys and
      strings, both ends of the 64-bit range, empty containers, any nesting, any indentation. */
  lemma JsonRoundTrip(node: Node, indent: nat)
    requires Printable(node)
    ensures WholeText(Json(node, indent, 0)) == Ok(node)
  {
    hide Value, SkipSpace, Json, Printable;
    ValueReads(node, indent, 0, "");
    var s := Json(node, indent, 0);
    assert s + "" == s;
    ValueSkipsSpace(s);
    NothingLeft();
  }

  lemma NothingLeft()
    ensures SkipSpace("") == ""
  {
  }

  /** Different trees print differently. */
  lemma JsonInjective(a: Node, b: Node, indent: nat)
    requires Printable(a) && Printable(b) && Json(a, indent, 0) == Json(b, indent, 0)
    ensures a == b
  {
    JsonRoundTrip(a, indent);
    JsonRoundTrip(b, indent);
  }
}
