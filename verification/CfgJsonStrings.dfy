/** What a JSON string literal stands for, told without the parser: the code points of its escapes as a
    UTF-8 decoder (RFC 3629, section 3) reads them back from the string. */
module CfgJsonStrings {
  import opened Text
  import opened CfgJson

  // ----- UTF-8 -----

  predicate IsScalar(code: nat) {
    code < 0xD800 || 0xE000 <= code < 0x110000
  }

  /** The six bits of a continuation byte. */
  function Continued(c: char): Option<nat> {
    if 0x80 <= c as int <= 0xBF then Some(c as int - 0x80) else None
  }

  /** The first code point of a text and what follows.  The first byte fixes the length; a code point in
      more bytes than it needs, a surrogate and anything beyond U+10FFFF are refused. */
  function Decoded(s: string): Option<(nat, string)> {
    if s == "" then None
    else
      var lead := s[0] as int;
      if lead < 0x80 then Some((lead, s[1..]))
      else if 0xC2 <= lead <= 0xDF && |s| >= 2 then
        match Continued(s[1])
        case Some(a) => Some(((lead - 0xC0) * 64 + a, s[2..]))
        case None => None
      else if 0xE0 <= lead <= 0xEF && |s| >= 3 then
        match (Continued(s[1]), Continued(s[2]))
        case (Some(a), Some(b)) =>
          var code := (lead - 0xE0) * 4096 + a * 64 + b;
          if code < 0x800 || !IsScalar(code) then None else Some((code, s[3..]))
        case _ => None
      else if 0xF0 <= lead <= 0xF4 && |s| >= 4 then
        match (Continued(s[1]), Continued(s[2]), Continued(s[3]))
        case (Some(a), Some(b), Some(c)) =>
          var code := (lead - 0xF0) * 262144 + a * 4096 + b * 64 + c;
          if code < 0x10000 || !IsScalar(code) then None else Some((code, s[4..]))
        case _ => None
      else None
  }

  lemma Digits64(code: nat, a: nat, b: nat)
    requires b < 64
    ensures code == a * 64 + b <==> a == code / 64 && b == code % 64
  {
    assert code == 64 * (code / 64) + code % 64;
  }

  /** The six bits at each place of a code point. */
  lemma Bits(code: nat)
    ensures code == 64 * (code / 64) + code % 64 && code % 64 < 64
    ensures code / 0x1000 == code / 64 / 64 && code / 0x40000 == code / 64 / 64 / 64
    ensures code / 64 == 64 * (code / 64 / 64) + code / 64 % 64
    ensures code / 64 / 64 == 64 * (code / 64 / 64 / 64) + code / 64 / 64 % 64
  {
  }

  lemma TwoBytesDecode(code: nat, rest: string)
    requires 0x80 <= code < 0x800
    ensures Decoded(Utf8(code) + rest) == Some((code, rest))
  {
    var s := Utf8(code) + rest;
    Bits(code);
    assert s[2..] == rest;
  }

  lemma ThreeBytesDecode(code: nat, rest: string)
    requires 0x800 <= code < 0x10000 && IsScalar(code)
    ensures Decoded(Utf8(code) + rest) == Some((code, rest))
  {
    var s := Utf8(code) + rest;
    Bits(code);
    assert s[3..] == rest;
  }

  lemma FourBytesDecode(code: nat, rest: string)
    requires 0x10000 <= code < 0x110000
    ensures Decoded(Utf8(code) + rest) == Some((code, rest))
  {
    var s := Utf8(code) + rest;
    Bits(code);
    assert s[4..] == rest;
  }

  lemma Utf8Decodes(code: nat, rest: string)
    requires IsScalar(code)
    ensures Decoded(Utf8(code) + rest) == Some((code, rest))
  {
    if code < 0x80 {
      assert (Utf8(code) + rest)[1..] == rest;
    } else {
      hide Decoded, Utf8;
      if code < 0x800 {
        TwoBytesDecode(code, rest);
      } else if code < 0x10000 {
        ThreeBytesDecode(code, rest);
      } else {
        FourBytesDecode(code, rest);
      }
    }
  }

  lemma TwoBytesFound(s: string)
    requires Decoded(s).Some? && 0x80 <= s[0] as int <= 0xDF
    ensures IsScalar(Decoded(s).value.0) && s == Utf8(Decoded(s).value.0) + Decoded(s).value.1
  {
    var code, rest := Decoded(s).value.0, Decoded(s).value.1;
    Digits64(code, s[0] as int - 0xC0, Continued(s[1]).value);
    assert s == [s[0], s[1]] + rest;
  }

  lemma ThreeBytesFound(s: string)
    requires Decoded(s).Some? && 0xE0 <= s[0] as int <= 0xEF
    ensures IsScalar(Decoded(s).value.0) && s == Utf8(Decoded(s).value.0) + Decoded(s).value.1
  {
    var code, rest := Decoded(s).value.0, Decoded(s).value.1;
    var a, b := Continued(s[1]).value, Continued(s[2]).value;
    Bits(code);
    Digits64(code, (s[0] as int - 0xE0) * 64 + a, b);
    Digits64(code / 64, s[0] as int - 0xE0, a);
    assert s == [s[0], s[1], s[2]] + rest;
  }

  lemma FourBytesFound(s: string)
    requires Decoded(s).Some? && 0xF0 <= s[0] as int
    ensures IsScalar(Decoded(s).value.0) && s == Utf8(Decoded(s).value.0) + Decoded(s).value.1
  {
    var code, rest := Decoded(s).value.0, Decoded(s).value.1;
    var a, b, c := Continued(s[1]).value, Continued(s[2]).value, Continued(s[3]).value;
    Bits(code);
    Digits64(code, ((s[0] as int - 0xF0) * 64 + a) * 64 + b, c);
    Digits64(code / 64, (s[0] as int - 0xF0) * 64 + a, b);
    Digits64(code / 64 / 64, s[0] as int - 0xF0, a);
    assert s == [s[0], s[1], s[2], s[3]] + rest;
  }

  lemma DecodedIsUtf8(s: string)
    requires Decoded(s).Some?
    ensures IsScalar(Decoded(s).value.0) && s == Utf8(Decoded(s).value.0) + Decoded(s).value.1
  {
    LeadByte(s);
    if s[0] as int < 0x80 {
      assert s == [s[0]] + s[1..];
    } else {
      hide Decoded, Utf8;
      if s[0] as int <= 0xDF {
        TwoBytesFound(s);
      } else if s[0] as int <= 0xEF {
        ThreeBytesFound(s);
      } else {
        FourBytesFound(s);
      }
    }
  }

  lemma LeadByte(s: string)
    requires Decoded(s).Some?
    ensures s != "" && s[0] as int <= 0xF4
  {
  }

  /** The bytes written for a code point are the only ones that decode to it. */
  lemma DecodedIff(s: string, code: nat, rest: string)
    ensures Decoded(s) == Some((code, rest)) <==> IsScalar(code) && s == Utf8(code) + rest
  {
    hide Decoded, Utf8;
    if Decoded(s).Some? {
      DecodedIsUtf8(s);
    }
    if IsScalar(code) && s == Utf8(code) + rest {
      Utf8Decodes(code, rest);
    }
  }

  // ----- String literals -----

  /** Four hexadecimal digits, upper or lower case, of this value. */
  ghost predicate IsQuad(q: string, code: nat) {
    && |q| == 4
    && exists a: nat, b: nat, c: nat, d: nat ::
         && IsHexDigit(q[0], a) && IsHexDigit(q[1], b) && IsHexDigit(q[2], c) && IsHexDigit(q[3], d)
         && code == a * 4096 + b * 256 + c * 16 + d
  }

  lemma QuadIff(s: string, code: nat)
    ensures Quad(s) == Some(code) <==> |s| >= 4 && IsQuad(s[..4], code)
  {
    hide IsQuad, Quad;
    if Quad(s) == Some(code) {
      QuadFound(s);
    }
    if |s| >= 4 && IsQuad(s[..4], code) {
      QuadRead(s, code);
    }
  }

  lemma QuadFound(s: string)
    requires Quad(s).Some?
    ensures |s| >= 4 && IsQuad(s[..4], Quad(s).value)
  {
    hide IsHexDigit, HexValue;
    var q := s[..4];
    var a, b, c, d := HexValue(s[0]).value, HexValue(s[1]).value, HexValue(s[2]).value, HexValue(s[3]).value;
    HexValueIff(q[0], a);
    HexValueIff(q[1], b);
    HexValueIff(q[2], c);
    HexValueIff(q[3], d);
  }

  lemma QuadRead(s: string, code: nat)
    requires |s| >= 4 && IsQuad(s[..4], code)
    ensures Quad(s) == Some(code)
  {
    hide IsHexDigit, HexValue;
    var q := s[..4];
    var a: nat, b: nat, c: nat, d: nat :|
      && IsHexDigit(q[0], a) && IsHexDigit(q[1], b) && IsHexDigit(q[2], c) && IsHexDigit(q[3], d)
      && code == a * 4096 + b * 256 + c * 16 + d;
    HexValueIff(s[0], a);
    HexValueIff(s[1], b);
    HexValueIff(s[2], c);
    HexValueIff(s[3], d);
  }

  const SHORT_LETTERS := "\"\\/bfnrt"

  /** Quotation mark, backslash, slash, backspace, form feed, line feed, carriage return, tab. */
  const SHORT_CODES := [34, 92, 47, 8, 12, 10, 13, 9]

  /** One element of a string literal: a character as it stands, a short escape by its place in the list
      of letters, or an escape of one or two groups of four digits. */
  datatype Piece = Plain(c: char) | Short(i: nat) | Unit(quad: string) | Pair(high: string, low: string)

  /** The code point of a high and a low surrogate. */
  function Combined(h: nat, l: nat): (code: nat)
    requires 0xD800 <= h <= 0xDBFF && 0xDC00 <= l <= 0xDFFF
    ensures IsScalar(code)
  {
    0x10000 + (h - 0xD800) * 0x400 + (l - 0xDC00)
  }

  function PieceText(p: Piece): string {
    match p
    case Plain(c) => [c]
    case Short(i) => if i < 8 then ['\\', SHORT_LETTERS[i]] else ""
    case Unit(quad) => "\\u" + quad
    case Pair(high, low) => "\\u" + high + "\\u" + low
  }

  /** A piece stands for these bytes. */
  ghost predicate Spells(p: Piece, bytes: string) {
    match p
    case Plain(c) => c != '"' && c != '\\' && ' ' <= c && bytes == [c]
    case Short(i) => i < 8 && bytes == [SHORT_CODES[i] as char]
    case Unit(quad) => exists code: nat :: IsQuad(quad, code) && Decoded(bytes) == Some((code, ""))
    case Pair(high, low) =>
      exists h: nat, l: nat ::
        && IsQuad(high, h) && 0xD800 <= h <= 0xDBFF && IsQuad(low, l) && 0xDC00 <= l <= 0xDFFF
        && Decoded(bytes) == Some((Combined(h, l), ""))
  }

  function TextOf(pieces: seq<Piece>): string {
    if pieces == [] then "" else PieceText(pieces[0]) + TextOf(pieces[1..])
  }

  ghost predicate SpellsAll(pieces: seq<Piece>, bytes: string) {
    if pieces == [] then bytes == ""
    else exists n :: 0 <= n <= |bytes| && Spells(pieces[0], bytes[..n]) && SpellsAll(pieces[1..], bytes[n..])
  }

  lemma QuadUnique(q: string, m: nat, n: nat)
    requires IsQuad(q, m) && IsQuad(q, n)
    ensures m == n
  {
    QuadIff(q, m);
    QuadIff(q, n);
    assert q[..4] == q;
  }

  lemma QuadText(q: string, code: nat, rest: string)
    requires IsQuad(q, code)
    ensures Quad(q + rest) == Some(code) && (q + rest)[4..] == rest
  {
    assert (q + rest)[..4] == q;
    QuadIff(q + rest, code);
  }

  lemma EscapeRead(tail: string)
    ensures StringChar("\\u" + tail) == UnicodeEscape(tail)
  {
    hide UnicodeEscape;
    assert ("\\u" + tail)[2..] == tail;
  }

  lemma ShortRead(i: nat, rest: string)
    requires i < 8
    ensures StringChar(['\\', SHORT_LETTERS[i]] + rest) == Ok(([SHORT_CODES[i] as char], rest))
  {
    hide UnicodeEscape;
    assert (['\\', SHORT_LETTERS[i]] + rest)[2..] == rest;
  }

  /** A piece is read as the bytes it stands for. */
  lemma PieceReads(p: Piece, bytes: string, rest: string)
    requires Spells(p, bytes)
    ensures PieceText(p) != "" && PieceText(p)[0] != '"'
    ensures StringChar(PieceText(p) + rest) == Ok((bytes, rest))
  {
    hide IsQuad, Decoded, StringChar, Combined;
    if p.Plain? {
      PlainRead(p.c, rest);
    } else if p.Short? {
      ShortRead(p.i, rest);
    } else if p.Unit? {
      var code: nat :| IsQuad(p.quad, code) && Decoded(bytes) == Some((code, ""));
      UnitRead(p.quad, code, bytes, rest);
    } else {
      var h: nat, l: nat :| IsQuad(p.high, h) && IsQuad(p.low, l) && 0xD800 <= h <= 0xDBFF && 0xDC00 <= l <= 0xDFFF
        && Decoded(bytes) == Some((Combined(h, l), ""));
      PairRead(p.high, p.low, h, l, bytes, rest);
    }
  }

  lemma UnitRead(quad: string, code: nat, bytes: string, rest: string)
    requires IsQuad(quad, code) && Decoded(bytes) == Some((code, ""))
    ensures StringChar("\\u" + quad + rest) == Ok((bytes, rest))
  {
    hide IsQuad, Utf8, Quad, StringChar, Decoded;
    WholeUtf8(bytes, code);
    QuadText(quad, code, rest);
    EscapeRead(quad + rest);
    assert "\\u" + quad + rest == "\\u" + (quad + rest);
  }

  lemma PairRead(high: string, low: string, h: nat, l: nat, bytes: string, rest: string)
    requires IsQuad(high, h) && 0xD800 <= h <= 0xDBFF && IsQuad(low, l) && 0xDC00 <= l <= 0xDFFF
    requires Decoded(bytes) == Some((Combined(h, l), ""))
    ensures StringChar("\\u" + high + "\\u" + low + rest) == Ok((bytes, rest))
  {
    hide UnicodeEscape, StringChar, Decoded, Utf8, IsQuad;
    PairReads(high, low, h, l, rest);
    WholeUtf8(bytes, Combined(h, l));
    var tail := high + "\\u" + low + rest;
    EscapeRead(tail);
    assert "\\u" + high + "\\u" + low + rest == "\\u" + tail;
  }

  lemma PlainRead(c: char, rest: string)
    requires c != '"' && c != '\\' && ' ' <= c
    ensures StringChar([c] + rest) == Ok(([c], rest))
  {
    hide UnicodeEscape;
    assert ([c] + rest)[1..] == rest;
  }

  lemma WholeUtf8(bytes: string, code: nat)
    ensures Decoded(bytes) == Some((code, "")) <==> IsScalar(code) && bytes == Utf8(code)
  {
    hide Decoded, Utf8;
    DecodedIff(bytes, code, "");
    assert IsScalar(code) ==> Utf8(code) + "" == Utf8(code);
  }

  lemma PairReads(high: string, low: string, h: nat, l: nat, rest: string)
    requires IsQuad(high, h) && 0xD800 <= h <= 0xDBFF && IsQuad(low, l) && 0xDC00 <= l <= 0xDFFF
    ensures UnicodeEscape(high + "\\u" + low + rest)
      == Ok((Utf8(Combined(h, l)), rest))
  {
    hide IsQuad, Utf8, Quad;
    var after := "\\u" + low + rest;
    var s := high + "\\u" + low + rest;
    assert s == high + after;
    QuadText(high, h, after);
    QuadText(low, l, rest);
    assert after[2..] == low + rest;
    assert after[6..] == (low + rest)[4..];
  }

  /** Whatever is read as one character or escape is a piece that stands for what is read. */
  lemma PieceFound(s: string) returns (p: Piece)
    requires s != "" && s[0] != '"' && StringChar(s).Ok?
    ensures s == PieceText(p) + StringChar(s).value.1 && Spells(p, StringChar(s).value.0)
  {
    hide IsQuad, Decoded, Utf8, Quad;
    var bytes, rest := StringChar(s).value.0, StringChar(s).value.1;
    if s[0] != '\\' {
      p := Plain(s[0]);
    } else if s[1] != 'u' {
      var i := ShortFound(s);
      p := Short(i);
      assert s == [s[0], s[1]] + rest;
    } else {
      var code := Quad(s[2..]).value;
      QuadIff(s[2..], code);
      var quad := s[2..][..4];
      if code < 0xD800 || 0xE000 <= code {
        p := Unit(quad);
        WholeUtf8(bytes, code);
        assert s == ("\\u" + quad) + rest;
      } else {
        var after := s[2..][4..];
        var low := Quad(after[2..]).value;
        QuadIff(after[2..], low);
        p := Pair(quad, after[2..][..4]);
        WholeUtf8(bytes, Combined(code, low));
        assert s == PieceText(p) + rest;
      }
    }
  }

  lemma ShortFound(s: string) returns (i: nat)
    requires |s| >= 2 && s[0] == '\\' && s[1] != 'u' && StringChar(s).Ok?
    ensures i < 8 && s[1] == SHORT_LETTERS[i] && StringChar(s) == Ok(([SHORT_CODES[i] as char], s[2..]))
  {
    hide UnicodeEscape;
    i := match s[1]
      case '"' => 0
      case '\\' => 1
      case '/' => 2
      case 'b' => 3
      case 'f' => 4
      case 'n' => 5
      case 'r' => 6
      case _ => 7;
  }

  /** Pieces before the closing quotation mark are read as the bytes they stand for. */
  lemma {:induction false} PiecesRead(pieces: seq<Piece>, bytes: string, rest: string, out: string)
    requires SpellsAll(pieces, bytes)
    ensures StringRest(TextOf(pieces) + "\"" + rest, out) == Ok((out + bytes, rest))
    decreases |pieces|
  {
    hide Spells, PieceText, StringChar;
    var s := TextOf(pieces) + "\"" + rest;
    if pieces == [] {
      assert s[1..] == rest && out + bytes == out;
    } else {
      var n :| 0 <= n <= |bytes| && Spells(pieces[0], bytes[..n]) && SpellsAll(pieces[1..], bytes[n..]);
      var after := TextOf(pieces[1..]) + "\"" + rest;
      PieceReads(pieces[0], bytes[..n], after);
      assert s == PieceText(pieces[0]) + after;
      PiecesRead(pieces[1..], bytes[n..], rest, out + bytes[..n]);
      assert out + bytes[..n] + bytes[n..] == out + bytes;
    }
  }

  /** Whatever is read up to the closing quotation mark is a list of pieces. */
  lemma {:induction false} PiecesFound(s: string, out: string) returns (pieces: seq<Piece>, bytes: string)
    requires StringRest(s, out).Ok?
    ensures s == TextOf(pieces) + "\"" + StringRest(s, out).value.1
    ensures StringRest(s, out).value.0 == out + bytes && SpellsAll(pieces, bytes)
    decreases |s|
  {
    hide Spells, PieceText, StringChar;
    var rest := StringRest(s, out).value.1;
    if s[0] == '"' {
      pieces, bytes := [], "";
    } else {
      var next := StringChar(s);
      var p := PieceFound(s);
      var first, more := next.value.0, next.value.1;
      var others, tail := PiecesFound(more, out + first);
      pieces, bytes := [p] + others, first + tail;
      assert pieces[1..] == others;
      assert bytes[..|first|] == first && bytes[|first|..] == tail;
      assert s == PieceText(p) + (TextOf(others) + "\"" + rest);
    }
  }

  /** A string literal is read as `bytes` exactly if it is a list of pieces between quotation marks that
      stand for these bytes. */
  lemma LiteralReadsIff(s: string, bytes: string, rest: string)
    ensures StringLiteral(s) == Ok((bytes, rest)) <==>
      exists pieces :: s == "\"" + TextOf(pieces) + "\"" + rest && SpellsAll(pieces, bytes)
  {
    hide StringRest, TextOf, SpellsAll;
    if StringLiteral(s) == Ok((bytes, rest)) {
      var pieces, tail := PiecesFound(s[1..], "");
      assert "" + tail == tail;
      assert s == "\"" + TextOf(pieces) + "\"" + rest;
    }
    if pieces :| s == "\"" + TextOf(pieces) + "\"" + rest && SpellsAll(pieces, bytes) {
      assert s[1..] == TextOf(pieces) + "\"" + rest;
      PiecesRead(pieces, bytes, rest, "");
      assert "" + bytes == bytes;
    }
  }

  // ----- What the printer escapes -----

  /** A printed string holds no control characters, and only quotation marks, backslashes and control characters
      are printed as anything but themselves. */
  lemma {:induction false} PrintedPlainly(s: string)
    ensures forall i :: 0 <= i < |EscapeJson(s)| ==> ' ' <= EscapeJson(s)[i]
    ensures (forall i :: 0 <= i < |s| ==> ' ' <= s[i] && s[i] != '"' && s[i] != '\\') ==> EscapeJson(s) == s
  {
    hide EscapeJsonChar, EscapeJson;
    NothingEscaped();
    if s != "" {
      var init, last := s[..|s| - 1], s[|s| - 1];
      PrintedPlainly(init);
      CharPrintedPlainly(last);
      EscapeLast(s);
      assert s == init + [last];
    }
  }

  lemma NothingEscaped()
    ensures EscapeJson("") == ""
  {
  }

  lemma EscapeLast(s: string)
    requires s != ""
    ensures EscapeJson(s) == EscapeJson(s[..|s| - 1]) + EscapeJsonChar(s[|s| - 1])
  {
    hide EscapeJsonChar;
  }

  lemma CharPrintedPlainly(c: char)
    ensures forall i :: 0 <= i < |EscapeJsonChar(c)| ==> ' ' <= EscapeJsonChar(c)[i]
    ensures ' ' <= c && c != '"' && c != '\\' ==> EscapeJsonChar(c) == [c]
  {
  }
}
