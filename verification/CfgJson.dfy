/** The JSON printer and the recursive-descent parser (RFC 8259).  A character stands for a byte;
    a double is an opaque token. */
module CfgJson {
  import opened Text
  import opened CfgNode

  datatype JsonError =
    | TrailingContent
    | ExpectedString
    | ControlCharacter
    | UnterminatedEscape
    | BadUnicodeEscape
    | MissingLowSurrogate
    | BadLowSurrogate
    | UnexpectedLowSurrogate
    | UnsupportedEscape
    | UnterminatedString
    | InvalidNumber
    | InvalidInteger
    | ExpectedCommaOrBracket
    | UnterminatedArray
    | ExpectedColon
    | ExpectedCommaOrBrace
    | UnterminatedObject
    | UnexpectedEnd
    | BadLiteral

  type Parsed<+T> = Result<(T, string), JsonError>

  // ----- Printing -----

  function EscapeJsonChar(c: char): string {
    if c == '"' then "\\\""
    else if c == '\\' then "\\\\"
    else if c == '\n' then "\\n"
    else if c == '\r' then "\\r"
    else if c == '\t' then "\\t"
    else if c == '\U{0008}' then "\\b"
    else if c == '\U{000C}' then "\\f"
    else if c as int < 0x20 then "\\u00" + [HexChar(c as int / 16), HexChar(c as int % 16)]
    else [c]
  }

  function EscapeJson(s: string): string {
    if s == "" then "" else EscapeJson(s[..|s| - 1]) + EscapeJsonChar(s[|s| - 1])
  }

  method EscapeJsonString(text: string) returns (out: string)
    ensures out == EscapeJson(text)
  {
    out := "";
    for i := 0 to |text|
      invariant out == EscapeJson(text[..i])
    {
      assert text[..i + 1][..i] == text[..i];
      out := out + EscapeJsonChar(text[i]);
    }
    assert text[..|text|] == text;
  }

  function Quoted(s: string): string {
    "\"" + EscapeJson(s) + "\""
  }

  function Signed(n: int): string {
    if n < 0 then "-" + Decimal(-n) else Decimal(n)
  }

  /** The line break and indentation in front of a nested element, when indenting at all. */
  function Break(indent: nat, depth: nat): string {
    if indent == 0 then "" else "\n" + seq(depth * indent, _ => ' ')
  }

  function Comma(more: bool): string {
    if more then "," else ""
  }

  function Json(node: Node, indent: nat, depth: nat): string
    decreases node, 1
  {
    match node
    case Null => "null"
    case Boolean(flag) => if flag then "true" else "false"
    case Integer(value) => Signed(value)
    case Double(token) => token
    case Str(text) => Quoted(text)
    case Array(items) =>
      if items == [] then "[]" else "[" + ItemsJson(node, 0, indent, depth) + Break(indent, depth) + "]"
    case Object(entries) =>
      if entries == [] then "{}" else "{" + EntriesJson(node, 0, indent, depth) + Break(indent, depth) + "}"
  }

  /** The items from position `i` on. */
  function ItemsJson(node: Node, i: nat, indent: nat, depth: nat): string
    requires node.Array? && i <= |node.items|
    decreases node, 0, |node.items| - i
  {
    if i == |node.items| then ""
    else Break(indent, depth + 1) + Json(node.items[i], indent, depth + 1) + Comma(i + 1 < |node.items|) +
         ItemsJson(node, i + 1, indent, depth)
  }

  function Member(key: string, indent: nat): string {
    Quoted(key) + ":" + (if indent == 0 then "" else " ")
  }

  function EntriesJson(node: Node, i: nat, indent: nat, depth: nat): string
    requires node.Object? && i <= |node.entries|
    decreases node, 0, |node.entries| - i
  {
    if i == |node.entries| then ""
    else Break(indent, depth + 1) + Member(node.entries[i].0, indent) + Json(node.entries[i].1, indent, depth + 1) +
         Comma(i + 1 < |node.entries|) + EntriesJson(node, i + 1, indent, depth)
  }

  method Pad(oss: string, count: nat) returns (out: string)
    ensures out == oss + seq(count, _ => ' ')
  {
    out := oss;
    for i := 0 to count
      invariant out == oss + seq(i, _ => ' ')
    {
      out := out + " ";
    }
  }

  method BreakLine(oss: string, indent: nat, depth: nat) returns (out: string)
    ensures out == oss + Break(indent, depth)
  {
    out := oss;
    if indent > 0 {
      out := Pad(out + "\n", depth * indent);
      assert out == oss + Break(indent, depth);
    }
  }

  /** Appends the printed node to the output stream. */
  method AppendJson(node: Node, oss: string, indent: nat, depth: nat) returns (out: string)
    ensures out == oss + Json(node, indent, depth)
    decreases node, 1
  {
    match node
    case Null => out := oss + "null";
    case Boolean(flag) => out := oss + if flag then "true" else "false";
    case Integer(value) => out := oss + Signed(value);
    case Double(token) => out := oss + token;
    case Str(text) =>
      var escaped := EscapeJsonString(text);
      out := oss + "\"" + escaped + "\"";
      assert out == oss + Quoted(text);
    case Array(items) => out := AppendArray(node, oss, indent, depth);
    case Object(entries) => out := AppendObject(node, oss, indent, depth);
  }

  lemma CommaIs(more: bool)
    ensures Comma(more) == if more then "," else ""
  {
  }

  method AppendArray(node: Node, oss: string, indent: nat, depth: nat) returns (out: string)
    requires node.Array?
    ensures out == oss + Json(node, indent, depth)
    decreases node, 0
  {
    hide Break, Json, ItemsJson, Comma;
    var items := node.items;
    out := oss + "[";
    if items != [] {
      ghost var all := ItemsJson(node, 0, indent, depth);
      for i := 0 to |items|
        invariant out + ItemsJson(node, i, indent, depth) == oss + "[" + all
      {
        ghost var start, rest := out, ItemsJson(node, i + 1, indent, depth);
        ghost var first := Break(indent, depth + 1) + Json(items[i], indent, depth + 1) + Comma(i + 1 < |items|);
        ItemsJsonStep(node, i, indent, depth);
        out := BreakLine(out, indent, depth + 1);
        out := AppendJson(items[i], out, indent, depth + 1);
        if i + 1 < |items| {
          out := out + ",";
        }
        CommaIs(i + 1 < |items|);
        assert out == start + first;
        assert out + rest == start + (first + rest);
      }
      ItemsJsonEnd(node, indent, depth);
      assert out == oss + "[" + all;
      out := BreakLine(out, indent, depth);
    }
    out := out + "]";
    ArrayJson(node, indent, depth);
    if items == [] {
      assert out == oss + "[]";
    } else {
      assert out == oss + ("[" + ItemsJson(node, 0, indent, depth) + Break(indent, depth) + "]");
    }
  }

  lemma ItemsJsonStep(node: Node, i: nat, indent: nat, depth: nat)
    requires node.Array? && i < |node.items|
    ensures ItemsJson(node, i, indent, depth) ==
            Break(indent, depth + 1) + Json(node.items[i], indent, depth + 1) + Comma(i + 1 < |node.items|) +
            ItemsJson(node, i + 1, indent, depth)
  {
    hide Json, Break;
  }

  lemma ItemsJsonEnd(node: Node, indent: nat, depth: nat)
    requires node.Array?
    ensures ItemsJson(node, |node.items|, indent, depth) == ""
  {
  }

  lemma ArrayJson(node: Node, indent: nat, depth: nat)
    requires node.Array?
    ensures Json(node, indent, depth) ==
            if node.items == [] then "[]" else "[" + ItemsJson(node, 0, indent, depth) + Break(indent, depth) + "]"
  {
    hide ItemsJson, Break;
  }

  method AppendObject(node: Node, oss: string, indent: nat, depth: nat) returns (out: string)
    requires node.Object?
    ensures out == oss + Json(node, indent, depth)
    decreases node, 0
  {
    hide Break, Json, EntriesJson, EscapeJson, Member, Comma;
    var entries := node.entries;
    out := oss + "{";
    if entries != [] {
      ghost var all := EntriesJson(node, 0, indent, depth);
      for i := 0 to |entries|
        invariant out + EntriesJson(node, i, indent, depth) == oss + "{" + all
      {
        ghost var start, rest := out, EntriesJson(node, i + 1, indent, depth);
        ghost var first := Break(indent, depth + 1) + Member(entries[i].0, indent) +
                           Json(entries[i].1, indent, depth + 1) + Comma(i + 1 < |entries|);
        EntriesJsonStep(node, i, indent, depth);
        out := BreakLine(out, indent, depth + 1);
        out := AppendKey(out, entries[i].0, indent);
        out := AppendJson(entries[i].1, out, indent, depth + 1);
        if i + 1 < |entries| {
          out := out + ",";
        }
        CommaIs(i + 1 < |entries|);
        assert out == start + first;
        assert out + rest == start + (first + rest);
      }
      EntriesJsonEnd(node, indent, depth);
      assert out == oss + "{" + all;
      out := BreakLine(out, indent, depth);
    }
    out := out + "}";
    ObjectJson(node, indent, depth);
    if entries == [] {
      assert out == oss + "{}";
    } else {
      assert out == oss + ("{" + EntriesJson(node, 0, indent, depth) + Break(indent, depth) + "}");
    }
  }

  method AppendKey(oss: string, key: string, indent: nat) returns (out: string)
    ensures out == oss + Member(key, indent)
  {
    hide EscapeJson, Member;
    var escaped := EscapeJsonString(key);
    out := oss + "\"" + escaped + "\"" + ":";
    if indent > 0 {
      out := out + " ";
    }
    MemberIs(key, indent);
    assert out == oss + (("\"" + escaped + "\"") + ":" + (if indent == 0 then "" else " "));
  }

  lemma MemberIs(key: string, indent: nat)
    ensures Member(key, indent) == ("\"" + EscapeJson(key) + "\"") + ":" + (if indent == 0 then "" else " ")
  {
  }

  lemma EntriesJsonStep(node: Node, i: nat, indent: nat, depth: nat)
    requires node.Object? && i < |node.entries|
    ensures EntriesJson(node, i, indent, depth) ==
            Break(indent, depth + 1) + Member(node.entries[i].0, indent) + Json(node.entries[i].1, indent, depth + 1) +
            Comma(i + 1 < |node.entries|) + EntriesJson(node, i + 1, indent, depth)
  {
    hide Json, Break, Member;
  }

  lemma EntriesJsonEnd(node: Node, indent: nat, depth: nat)
    requires node.Object?
    ensures EntriesJson(node, |node.entries|, indent, depth) == ""
  {
  }

  lemma ObjectJson(node: Node, indent: nat, depth: nat)
    requires node.Object?
    ensures Json(node, indent, depth) ==
            if node.entries == [] then "{}" else "{" + EntriesJson(node, 0, indent, depth) + Break(indent, depth) + "}"
  {
    hide EntriesJson, Break;
  }

  method ToJson(node: Node, indent: int) returns (text: string)
    ensures text == Json(node, if indent < 0 then 0 else indent, 0)
  {
    var safeIndent := if indent < 0 then 0 else indent;
    text := AppendJson(node, "", safeIndent, 0);
  }

  // ----- The grammar the parser recognises -----

  function SkipSpace(s: string): (r: string)
    ensures |r| <= |s|
    ensures r != "" ==> !IsSpace(r[0])
  {
    if s == "" || !IsSpace(s[0]) then s else SkipSpace(s[1..])
  }

  /** Four hexadecimal digits. */
  function Quad(s: string): (r: Option<nat>)
    ensures r.Some? ==> |s| >= 4 && r.value < 0x10000
  {
    if |s| < 4 then None
    else
      match (HexValue(s[0]), HexValue(s[1]), HexValue(s[2]), HexValue(s[3]))
      case (Some(a), Some(b), Some(c), Some(d)) =>
        Some(((a * 16 + b) * 16 + c) * 16 + d)
      case _ => None
  }

  function Byte(n: nat): char
    requires n < 0x100
  {
    n as char
  }

  /** The UTF-8 bytes of a code point. */
  function Utf8(code: nat): string
    requires code < 0x110000
  {
    if code < 0x80 then [Byte(code)]
    else if code < 0x800 then [Byte(0xC0 + code / 0x40), Byte(0x80 + code % 0x40)]
    else if code < 0x10000 then
      [Byte(0xE0 + code / 0x1000), Byte(0x80 + code / 0x40 % 0x40), Byte(0x80 + code % 0x40)]
    else
      [Byte(0xF0 + code / 0x40000), Byte(0x80 + code / 0x1000 % 0x40), Byte(0x80 + code / 0x40 % 0x40),
        Byte(0x80 + code % 0x40)]
  }

  /** A "\u" escape, after the 'u': its bytes and what follows. */
  function UnicodeEscape(s: string): (r: Parsed<string>)
    ensures r.Ok? ==> |r.value.1| < |s|
  {
    var quad := Quad(s);
    if quad.None? then Err(BadUnicodeEscape)
    else
      var code, rest := quad.value, s[4..];
      if 0xD800 <= code <= 0xDBFF then
        if |rest| < 2 || rest[0] != '\\' || rest[1] != 'u' then Err(MissingLowSurrogate)
        else
          var low := Quad(rest[2..]);
          if low.None? || low.value < 0xDC00 || low.value > 0xDFFF then Err(BadLowSurrogate)
          else Ok((Utf8(0x10000 + (code - 0xD800) * 0x400 + (low.value - 0xDC00)), rest[6..]))
      else if 0xDC00 <= code <= 0xDFFF then Err(UnexpectedLowSurrogate)
      else Ok((Utf8(code), rest))
  }

  /** One character or escape of a string literal that has not ended: its bytes and what follows. */
  function StringChar(s: string): (r: Parsed<string>)
    requires s != ""
    ensures r.Ok? ==> |r.value.1| < |s|
  {
    if s[0] != '\\' then
      if s[0] as int < 0x20 then Err(ControlCharacter) else Ok(([s[0]], s[1..]))
    else if |s| < 2 then Err(UnterminatedEscape)
    else
      var rest := s[2..];
      match s[1]
      case '"' => Ok(("\"", rest))
      case '\\' => Ok(("\\", rest))
      case '/' => Ok(("/", rest))
      case 'b' => Ok((['\U{0008}'], rest))
      case 'f' => Ok((['\U{000C}'], rest))
      case 'n' => Ok(("\n", rest))
      case 'r' => Ok(("\r", rest))
      case 't' => Ok(("\t", rest))
      case 'u' => UnicodeEscape(rest)
      case _ => Err(UnsupportedEscape)
  }

  /** The rest of a string literal after `out` has been read. */
  function StringRest(s: string, out: string): (r: Parsed<string>)
    ensures r.Ok? ==> |r.value.1| < |s|
    decreases |s|
  {
    if s == "" then Err(UnterminatedString)
    else if s[0] == '"' then Ok((out, s[1..]))
    else
      var next := StringChar(s);
      if next.Err? then Err(next.error) else StringRest(next.value.1, out + next.value.0)
  }

  function StringLiteral(s: string): (r: Parsed<string>)
    ensures r.Ok? ==> |r.value.1| < |s|
  {
    if s == "" || s[0] != '"' then Err(ExpectedString) else StringRest(s[1..], "")
  }

  predicate NumberChar(c: char) {
    IsDigit(c) || c == '-' || c == '+' || c == '.' || c == 'e' || c == 'E'
  }

  function NumberRun(s: string): (n: nat)
    ensures n <= |s|
    ensures forall i :: 0 <= i < n ==> NumberChar(s[i])
    ensures n < |s| ==> !NumberChar(s[n])
  {
    if s == "" || !NumberChar(s[0]) then 0 else 1 + NumberRun(s[1..])
  }

  function AfterDigits(s: string): Option<string> {
    if DigitRun(s) == 0 then None else Some(s[DigitRun(s)..])
  }

  function AfterInteger(s: string): Option<string> {
    var body := if s != "" && s[0] == '-' then s[1..] else s;
    if body == "" then None
    else if body[0] == '0' then Some(body[1..])
    else AfterDigits(body)
  }

  function AfterFraction(s: string): Option<string> {
    if s != "" && s[0] == '.' then AfterDigits(s[1..]) else Some(s)
  }

  function AfterExponent(s: string): Option<string> {
    if s == "" || (s[0] != 'e' && s[0] != 'E') then Some(s)
    else if |s| > 1 && (s[1] == '+' || s[1] == '-') then AfterDigits(s[2..])
    else AfterDigits(s[1..])
  }

  /** The JSON number grammar: integer part, optional fraction, optional exponent, nothing else. */
  predicate IsJsonNumber(token: string) {
    match AfterInteger(token)
    case None => false
    case Some(a) =>
      match AfterFraction(a)
      case None => false
      case Some(b) => AfterExponent(b) == Some("")
  }

  predicate IsIntegral(token: string) {
    forall i :: 0 <= i < |token| ==> token[i] != '.' && token[i] != 'e' && token[i] != 'E'
  }

  /** The value of a token of digits with an optional sign, as `std::from_chars` reads it. */
  function IntegerValue(token: string): Option<int> {
    var negative := token != "" && token[0] == '-';
    var digits := if negative then token[1..] else token;
    if digits == "" || !AllDigits(digits) then None
    else
      var magnitude: int := DecimalFrom(digits, 0);
      Some(if negative then -magnitude else magnitude)
  }

  function NumberNode(token: string): Result<Node, JsonError> {
    if !IsJsonNumber(token) then Err(InvalidNumber)
    else if IsIntegral(token) then
      match IntegerValue(token)
      case Some(v) =>
        if -0x8000_0000_0000_0000 <= v < 0x8000_0000_0000_0000 then Ok(Integer(v)) else Err(InvalidInteger)
      case None => Err(InvalidInteger)
    else Ok(Double(token))
  }

  function Number(s: string): (r: Parsed<Node>)
    ensures r.Ok? ==> |r.value.1| < |s|
  {
    var n := NumberRun(s);
    var node := NumberNode(s[..n]);
    if node.Err? then Err(node.error) else Ok((node.value, s[n..]))
  }

  function Literal(s: string, word: string, node: Node): Parsed<Node>
    requires word != ""
  {
    if StartsWith(s, word) then Ok((node, s[|word|..])) else Err(BadLiteral)
  }

  function Value(s: string): (r: Parsed<Node>)
    ensures r.Ok? ==> |r.value.1| < |s|
    decreases |s|, 2
  {
    var t := SkipSpace(s);
    if t == "" then Err(UnexpectedEnd)
    else if t[0] == '{' then
      var u := SkipSpace(t[1..]);
      if u != "" && u[0] == '}' then Ok((Object([]), u[1..])) else Entries(u, [])
    else if t[0] == '[' then
      var u := SkipSpace(t[1..]);
      if u != "" && u[0] == ']' then Ok((Array([]), u[1..])) else Items(u, [])
    else if t[0] == '"' then
      var str := StringLiteral(t);
      if str.Err? then Err(str.error) else Ok((Str(str.value.0), str.value.1))
    else if t[0] == 't' then Literal(t, "true", Boolean(true))
    else if t[0] == 'f' then Literal(t, "false", Boolean(false))
    else if t[0] == 'n' then Literal(t, "null", Null)
    else Number(t)
  }

  /** The rest of an array after `items`. */
  function Items(s: string, items: seq<Node>): (r: Parsed<Node>)
    ensures r.Ok? ==> |r.value.1| < |s|
    decreases |s|, 3
  {
    if s == "" then Err(UnterminatedArray)
    else
      var value := Value(s);
      if value.Err? then value
      else
        var items', t := items + [value.value.0], SkipSpace(value.value.1);
        if t != "" && t[0] == ',' then Items(t[1..], items')
        else if t != "" && t[0] == ']' then Ok((Array(items'), t[1..]))
        else Err(ExpectedCommaOrBracket)
  }

  /** A key and the value after it. */
  function Entry(s: string): (r: Parsed<(string, Node)>)
    ensures r.Ok? ==> |r.value.1| < |s|
    decreases |s|, 3
  {
    var key := StringLiteral(SkipSpace(s));
    if key.Err? then Err(key.error)
    else
      var t := SkipSpace(key.value.1);
      if t == "" || t[0] != ':' then Err(ExpectedColon)
      else
        var value := Value(t[1..]);
        if value.Err? then Err(value.error) else Ok(((key.value.0, value.value.0), value.value.1))
  }

  /** The rest of an object after `entries`. */
  function Entries(s: string, entries: seq<(string, Node)>): (r: Parsed<Node>)
    ensures r.Ok? ==> |r.value.1| < |s|
    decreases |s|, 4
  {
    if s == "" then Err(UnterminatedObject)
    else
      var entry := Entry(s);
      if entry.Err? then Err(entry.error)
      else
        var entries', t := entries + [entry.value.0], SkipSpace(entry.value.1);
        if t != "" && t[0] == ',' then Entries(t[1..], entries')
        else if t != "" && t[0] == '}' then Ok((Object(entries'), t[1..]))
        else Err(ExpectedCommaOrBrace)
  }

  /** A whole document. */
  function WholeText(text: string): Result<Node, JsonError> {
    var value := Value(SkipSpace(text));
    if value.Err? then Err(value.error)
    else if SkipSpace(value.value.1) != "" then Err(TrailingContent)
    else Ok(value.value.0)
  }

  // ----- The parser -----

  /** The parser's outcome is the specified one: the value with the input left behind it, or the error. */
  ghost predicate Outcome<T>(expected: Parsed<T>, r: Result<T, JsonError>, rest: string) {
    match expected
    case Ok(p) => r == Ok(p.0) && rest == p.1
    case Err(error) => r == Err(error)
  }

  class JsonParser {
    const text: string
    var pos: nat

    ghost predicate Valid()
      reads this
    {
      pos <= |text|
    }

    /** The input that has not been read. */
    ghost function Rest(): string
      requires Valid()
      reads this
    {
      text[pos..]
    }

    constructor (text: string)
      ensures this.text == text && pos == 0 && Valid() && Rest() == text
    {
      this.text := text;
      pos := 0;
    }

    method Peek() returns (c: char)
      requires Valid()
      ensures c == if Rest() == "" then '\0' else Rest()[0]
    {
      c := if pos >= |text| then '\0' else text[pos];
    }

    method AtEnd() returns (end: bool)
      requires Valid()
      ensures end <==> Rest() == ""
    {
      end := pos >= |text|;
    }

    method Advance()
      requires Valid() && Rest() != ""
      modifies this
      ensures Valid() && pos == old(pos) + 1 && Rest() == old(Rest())[1..]
    {
      assert Rest()[1..] == text[pos + 1..];
      pos := pos + 1;
    }

    method SkipWhitespace()
      requires Valid()
      modifies this
      ensures Valid() && old(pos) <= pos && Rest() == SkipSpace(old(Rest()))
    {
      while pos < |text| && IsSpace(text[pos])
        invariant Valid() && old(pos) <= pos
        invariant SkipSpace(Rest()) == SkipSpace(old(Rest()))
      {
        assert Rest()[1..] == text[pos + 1..];
        pos := pos + 1;
      }
    }

    method ReadUnicodeQuad() returns (code: Option<nat>)
      requires Valid()
      modifies this
      ensures Valid() && old(pos) <= pos
      ensures code == Quad(old(Rest()))
      ensures code.Some? ==> Rest() == old(Rest())[4..]
    {
      if |text| - pos < 4 {
        return None;
      }
      ghost var s := Rest();
      var value: nat := 0;
      for i := 0 to 4
        invariant Valid() && pos == old(pos) + i
        invariant forall j :: 0 <= j < i ==> HexValue(s[j]).Some?
        invariant i == 0 ==> value == 0
        invariant i == 1 ==> value == HexValue(s[0]).value
        invariant i == 2 ==> value == HexValue(s[0]).value * 16 + HexValue(s[1]).value
        invariant i == 3 ==> value == (HexValue(s[0]).value * 16 + HexValue(s[1]).value) * 16 + HexValue(s[2]).value
        invariant i == 4 ==> Quad(s) == Some(value)
      {
        var digit := HexValue(text[pos]);
        assert text[pos] == s[i];
        pos := pos + 1;
        if digit.None? {
          return None;
        }
        value := value * 16 + digit.value;
      }
      return Some(value);
    }

    /** The escape after "\u". */
    method ReadUnicodeEscape() returns (r: Result<string, JsonError>)
      requires Valid()
      modifies this
      ensures Valid() && old(pos) <= pos
      ensures Outcome(UnicodeEscape(old(Rest())), r, Rest())
    {
      ghost var s := Rest();
      var quad := ReadUnicodeQuad();
      if quad.None? {
        return Err(BadUnicodeEscape);
      }
      var code := quad.value;
      if 0xD800 <= code <= 0xDBFF {
        if |text| - pos < 2 || text[pos] != '\\' || text[pos + 1] != 'u' {
          return Err(MissingLowSurrogate);
        }
        assert Rest()[2..] == text[pos + 2..];
        pos := pos + 2;
        assert s[4..][2..] == Rest();
        var low := ReadUnicodeQuad();
        if low.None? || low.value < 0xDC00 || low.value > 0xDFFF {
          return Err(BadLowSurrogate);
        }
        assert s[4..][6..] == Rest();
        code := 0x10000 + (code - 0xD800) * 0x400 + (low.value - 0xDC00);
      } else if 0xDC00 <= code <= 0xDFFF {
        return Err(UnexpectedLowSurrogate);
      }
      return Ok(Utf8(code));
    }

    /** What follows the backslash. */
    method ReadEscape() returns (r: Result<string, JsonError>)
      requires Valid() && pos < |text|
      modifies this
      ensures Valid() && old(pos) < pos
      ensures Outcome(StringChar("\\" + old(Rest())), r, Rest())
    {
      ghost var s := "\\" + Rest();
      var esc := text[pos];
      pos := pos + 1;
      assert s[2..] == Rest() && s[1] == esc;
      match esc
      case '"' => r := Ok("\"");
      case '\\' => r := Ok("\\");
      case '/' => r := Ok("/");
      case 'b' => r := Ok(['\U{0008}']);
      case 'f' => r := Ok(['\U{000C}']);
      case 'n' => r := Ok("\n");
      case 'r' => r := Ok("\r");
      case 't' => r := Ok("\t");
      case 'u' => r := ReadUnicodeEscape();
      case _ => r := Err(UnsupportedEscape);
    }

    method ParseStringLiteral() returns (r: Result<string, JsonError>)
      requires Valid()
      modifies this
      ensures Valid() && old(pos) <= pos
      ensures Outcome(StringLiteral(old(Rest())), r, Rest())
    {
      hide StringRest, StringChar;
      ghost var s := Rest();
      if pos >= |text| || text[pos] != '"' {
        return Err(ExpectedString);
      }
      assert s[1..] == text[pos + 1..];
      pos := pos + 1;
      var out := "";
      while pos < |text|
        invariant Valid() && old(pos) <= pos
        invariant StringRest(Rest(), out) == StringLiteral(s)
        decreases |text| - pos
      {
        var ch := text[pos];
        ghost var before := Rest();
        assert before[0] == ch && before[1..] == text[pos + 1..];
        StringRestStep(before, out);
        pos := pos + 1;
        if ch == '"' {
          return Ok(out);
        }
        if ch != '\\' {
          if ch as int < 0x20 {
            return Err(ControlCharacter);
          }
          out := out + [ch];
          continue;
        }
        if pos >= |text| {
          return Err(UnterminatedEscape);
        }
        assert before == "\\" + Rest();
        var escaped := ReadEscape();
        if escaped.Err? {
          return Err(escaped.error);
        }
        out := out + escaped.value;
      }
      StringRestStep(Rest(), out);
      return Err(UnterminatedString);
    }

    method ParseNumber() returns (r: Result<Node, JsonError>)
      requires Valid()
      modifies this
      ensures Valid() && old(pos) <= pos
      ensures Outcome(Number(old(Rest())), r, Rest())
    {
      ghost var s := Rest();
      var start := pos;
      while pos < |text| && NumberChar(text[pos])
        invariant Valid() && start <= pos
        invariant pos - start <= NumberRun(s)
      {
        NumberRunPasses(s, pos - start);
        pos := pos + 1;
      }
      NumberRunPasses(s, pos - start);
      var token := text[start..pos];
      assert token == s[..NumberRun(s)] && Rest() == s[NumberRun(s)..];
      if token == "" {
        return Err(InvalidNumber);
      }
      var wellFormed := CheckNumber(token);
      if !wellFormed {
        return Err(InvalidNumber);
      }
      return NumberNode(token);
    }

    method ParseArray() returns (r: Result<Node, JsonError>)
      requires Valid() && Rest() != "" && Rest()[0] == '['
      modifies this
      ensures Valid() && old(pos) < pos
      ensures Outcome(Value(old(Rest())), r, Rest())
      decreases |text| - pos, 1
    {
      hide Value, Items, SkipSpace, Rest;
      ghost var s := Rest();
      ArrayValue(s);
      Advance();
      var items: seq<Node> := [];
      SkipWhitespace();
      var ch := Peek();
      if ch == ']' {
        Advance();
        return Ok(Array(items));
      }
      var end := AtEnd();
      while !end
        invariant Valid() && old(pos) < pos && (end <==> Rest() == "")
        invariant Items(Rest(), items) == Value(s)
        decreases |text| - pos
      {
        ghost var before := Rest();
        ItemsStep(before, items);
        SkipWhitespace();
        ValueSkipsSpace(before);
        var value := ParseValue();
        if value.Err? {
          return value;
        }
        items := items + [value.value];
        SkipWhitespace();
        ch := Peek();
        if ch == ',' {
          Advance();
          end := AtEnd();
          continue;
        }
        if ch == ']' {
          Advance();
          return Ok(Array(items));
        }
        return Err(ExpectedCommaOrBracket);
      }
      ItemsStep(Rest(), items);
      return Err(UnterminatedArray);
    }

    method ParseEntry() returns (r: Result<(string, Node), JsonError>)
      requires Valid()
      modifies this
      ensures Valid() && old(pos) <= pos
      ensures Outcome(Entry(old(Rest())), r, Rest())
      decreases |text| - pos, 3
    {
      hide Value, Entry, SkipSpace, StringLiteral, Rest;
      EntryStep(Rest());
      SkipWhitespace();
      var key := ParseStringLiteral();
      if key.Err? {
        return Err(key.error);
      }
      SkipWhitespace();
      var ch := Peek();
      if ch != ':' {
        return Err(ExpectedColon);
      }
      Advance();
      ghost var before := Rest();
      SkipWhitespace();
      ValueSkipsSpace(before);
      var value := ParseValue();
      if value.Err? {
        return Err(value.error);
      }
      return Ok((key.value, value.value));
    }

    method ParseObject() returns (r: Result<Node, JsonError>)
      requires Valid() && Rest() != "" && Rest()[0] == '{'
      modifies this
      ensures Valid() && old(pos) < pos
      ensures Outcome(Value(old(Rest())), r, Rest())
      decreases |text| - pos, 1
    {
      hide Value, Entries, Entry, SkipSpace, Rest;
      ghost var s := Rest();
      ObjectValue(s);
      Advance();
      var entries: seq<(string, Node)> := [];
      SkipWhitespace();
      var ch := Peek();
      if ch == '}' {
        Advance();
        return Ok(Object(entries));
      }
      var end := AtEnd();
      while !end
        invariant Valid() && old(pos) < pos && (end <==> Rest() == "")
        invariant Entries(Rest(), entries) == Value(s)
        decreases |text| - pos
      {
        EntriesStep(Rest(), entries);
        var entry := ParseEntry();
        if entry.Err? {
          return Err(entry.error);
        }
        entries := entries + [entry.value];
        SkipWhitespace();
        ch := Peek();
        if ch == ',' {
          Advance();
          end := AtEnd();
          continue;
        }
        if ch == '}' {
          Advance();
          return Ok(Object(entries));
        }
        return Err(ExpectedCommaOrBrace);
      }
      EntriesStep(Rest(), entries);
      return Err(UnterminatedObject);
    }

    method ParseWord(word: string, node: Node) returns (r: Result<Node, JsonError>)
      requires Valid() && word != ""
      modifies this
      ensures Valid() && old(pos) <= pos
      ensures Outcome(Literal(old(Rest()), word, node), r, Rest())
    {
      if |word| <= |text| - pos && text[pos..pos + |word|] == word {
        assert Rest()[..|word|] == word && Rest()[|word|..] == text[pos + |word|..];
        pos := pos + |word|;
        return Ok(node);
      }
      assert |word| <= |Rest()| ==> Rest()[..|word|] == text[pos..pos + |word|];
      return Err(BadLiteral);
    }

    method ParseValue() returns (r: Result<Node, JsonError>)
      requires Valid()
      modifies this
      ensures Valid() && old(pos) <= pos
      ensures Outcome(Value(old(Rest())), r, Rest())
      decreases |text| - pos, 2
    {
      ghost var s := Rest();
      SkipWhitespace();
      ValueSkipsSpace(s);
      if pos >= |text| {
        return Err(UnexpectedEnd);
      }
      var ch := text[pos];
      assert Rest()[0] == ch;
      if ch == '{' {
        r := ParseObject();
      } else if ch == '[' {
        r := ParseArray();
      } else if ch == '"' {
        var str := ParseStringLiteral();
        if str.Err? {
          return Err(str.error);
        }
        return Ok(Str(str.value));
      } else if ch == 't' {
        r := ParseWord("true", Boolean(true));
      } else if ch == 'f' {
        r := ParseWord("false", Boolean(false));
      } else if ch == 'n' {
        r := ParseWord("null", Null);
      } else {
        r := ParseNumber();
      }
    }

    method Parse() returns (r: Result<Node, JsonError>)
      requires Valid() && pos == 0
      modifies this
      ensures r == WholeText(text)
    {
      assert Rest() == text;
      SkipWhitespace();
      r := ParseValue();
      if r.Err? {
        return;
      }
      SkipWhitespace();
      if pos < |text| {
        assert Rest() != "";
        return Err(TrailingContent);
      }
    }
  }

  method ParseJson(text: string) returns (r: Result<Node, JsonError>)
    ensures r == WholeText(text)
  {
    var parser := new JsonParser(text);
    r := parser.Parse();
  }

  lemma StringRestStep(s: string, out: string)
    ensures s == "" ==> StringRest(s, out) == Err(UnterminatedString)
    ensures s != "" && s[0] == '"' ==> StringRest(s, out) == Ok((out, s[1..]))
    ensures s != "" && s[0] != '"' ==>
              StringRest(s, out) ==
              if StringChar(s).Err? then Err(StringChar(s).error)
              else StringRest(StringChar(s).value.1, out + StringChar(s).value.0)
    ensures s != "" && s[0] != '\\' ==>
              StringChar(s) == if s[0] as int < 0x20 then Err(ControlCharacter) else Ok(([s[0]], s[1..]))
    ensures s == "\\" ==> StringChar(s) == Err(UnterminatedEscape)
  {
  }

  lemma ArrayValue(s: string)
    requires s != "" && s[0] == '['
    ensures var u := SkipSpace(s[1..]);
            Value(s) == if u != "" && u[0] == ']' then Ok((Array([]), u[1..])) else Items(u, [])
  {
    hide Items;
    assert SkipSpace(s) == s;
  }

  lemma EntryStep(s: string)
    ensures Entry(s) ==
            var key := StringLiteral(SkipSpace(s));
            if key.Err? then Err(key.error)
            else
              var t := SkipSpace(key.value.1);
              if t == "" || t[0] != ':' then Err(ExpectedColon)
              else
                var value := Value(t[1..]);
                if value.Err? then Err(value.error) else Ok(((key.value.0, value.value.0), value.value.1))
  {
    hide Value, StringLiteral, SkipSpace;
  }

  lemma ItemsStep(s: string, items: seq<Node>)
    ensures Items(s, items) ==
            if s == "" then Err(UnterminatedArray)
            else if Value(s).Err? then Value(s)
            else
              var items', t := items + [Value(s).value.0], SkipSpace(Value(s).value.1);
              if t != "" && t[0] == ',' then Items(t[1..], items')
              else if t != "" && t[0] == ']' then Ok((Array(items'), t[1..]))
              else Err(ExpectedCommaOrBracket)
  {
    hide Value;
  }

  lemma ObjectValue(s: string)
    requires s != "" && s[0] == '{'
    ensures var u := SkipSpace(s[1..]);
            Value(s) == if u != "" && u[0] == '}' then Ok((Object([]), u[1..])) else Entries(u, [])
  {
    hide Entries;
    assert SkipSpace(s) == s;
  }

  lemma EntriesStep(s: string, entries: seq<(string, Node)>)
    ensures Entries(s, entries) ==
            if s == "" then Err(UnterminatedObject)
            else if Entry(s).Err? then Err(Entry(s).error)
            else
              var entries', t := entries + [Entry(s).value.0], SkipSpace(Entry(s).value.1);
              if t != "" && t[0] == ',' then Entries(t[1..], entries')
              else if t != "" && t[0] == '}' then Ok((Object(entries'), t[1..]))
              else Err(ExpectedCommaOrBrace)
  {
    hide Entry;
  }

  lemma NumberRunPasses(s: string, k: nat)
    requires k <= NumberRun(s)
    ensures k < |s| && NumberChar(s[k]) ==> k < NumberRun(s)
    ensures !(k < |s| && NumberChar(s[k])) ==> k == NumberRun(s)
  {
  }

  lemma ValueSkipsSpace(s: string)
    ensures Value(s) == Value(SkipSpace(s))
  {
    SkipSpaceTwice(s);
  }

  lemma {:induction false} SkipSpaceTwice(s: string)
    ensures SkipSpace(SkipSpace(s)) == SkipSpace(s)
  {
    if s != "" && IsSpace(s[0]) {
      SkipSpaceTwice(s[1..]);
    }
  }

  // ----- Checking a number token -----

  method ConsumeDigits(token: string, cursor: nat) returns (consumed: bool, end: nat)
    requires cursor <= |token|
    ensures end == cursor + DigitRun(token[cursor..])
    ensures consumed <==> AfterDigits(token[cursor..]).Some?
    ensures consumed ==> AfterDigits(token[cursor..]) == Some(token[end..])
  {
    end := cursor;
    ghost var s := token[cursor..];
    while end < |token| && IsDigit(token[end])
      invariant cursor <= end <= |token| && end - cursor <= DigitRun(s)
    {
      DigitRunStops(s, end - cursor);
      end := end + 1;
    }
    DigitRunStops(s, end - cursor);
    consumed := end != cursor;
    assert s[DigitRun(s)..] == token[end..];
  }

  method CheckIntegerPart(token: string) returns (ok: bool, cursor: nat)
    requires token != ""
    ensures ok <==> AfterInteger(token).Some?
    ensures ok ==> cursor <= |token| && AfterInteger(token) == Some(token[cursor..])
  {
    cursor := if token[0] == '-' then 1 else 0;
    ghost var body := token[cursor..];
    if cursor == |token| {
      return false, cursor;
    }
    if token[cursor] == '0' {
      assert body[1..] == token[cursor + 1..];
      return true, cursor + 1;
    }
    if token[cursor] < '1' || token[cursor] > '9' {
      assert !IsDigit(body[0]);
      return false, cursor;
    }
    ok, cursor := ConsumeDigits(token, cursor);
  }

  method CheckFraction(token: string, start: nat) returns (ok: bool, cursor: nat)
    requires start <= |token|
    ensures ok <==> AfterFraction(token[start..]).Some?
    ensures ok ==> cursor <= |token| && AfterFraction(token[start..]) == Some(token[cursor..])
  {
    cursor := start;
    if cursor < |token| && token[cursor] == '.' {
      assert token[start..][1..] == token[start + 1..];
      ok, cursor := ConsumeDigits(token, cursor + 1);
      return;
    }
    return true, cursor;
  }

  method CheckExponent(token: string, start: nat) returns (ok: bool, cursor: nat)
    requires start <= |token|
    ensures ok <==> AfterExponent(token[start..]).Some?
    ensures ok ==> cursor <= |token| && AfterExponent(token[start..]) == Some(token[cursor..])
  {
    cursor := start;
    if cursor < |token| && (token[cursor] == 'e' || token[cursor] == 'E') {
      ghost var s := token[start..];
      assert s[1..] == token[start + 1..];
      assert |s| > 1 ==> s[2..] == token[start + 2..];
      cursor := cursor + 1;
      if cursor < |token| && (token[cursor] == '+' || token[cursor] == '-') {
        cursor := cursor + 1;
      }
      ok, cursor := ConsumeDigits(token, cursor);
      return;
    }
    return true, cursor;
  }

  /** Walks the token with a cursor through the number grammar. */
  method CheckNumber(token: string) returns (ok: bool)
    requires token != ""
    ensures ok == IsJsonNumber(token)
  {
    hide AfterInteger, AfterFraction, AfterExponent;
    var cursor;
    ok, cursor := CheckIntegerPart(token);
    if !ok {
      return;
    }
    ok, cursor := CheckFraction(token, cursor);
    if !ok {
      return;
    }
    ok, cursor := CheckExponent(token, cursor);
    if !ok {
      return;
    }
    assert token[cursor..] == "" <==> cursor == |token|;
    return cursor == |token|;
  }
}
