/** The number tokens that the JSON parser accepts, in the terms of section 6 of RFC 8259, and the values
    it gives them. */
module CfgJsonNumbers {
  import opened Text
  import opened CfgNode
  import opened CfgJson
  import opened CfgJsonRoundTrip

  // ----- The grammar -----

  /** No leading zeros. */
  predicate IsWhole(s: string) {
    s != "" && AllDigits(s) && (s[0] == '0' ==> |s| == 1)
  }

  predicate IsFraction(s: string) {
    s == "" || (s[0] == '.' && |s| > 1 && AllDigits(s[1..]))
  }

  predicate IsExponent(s: string) {
    || s == ""
    || ((s[0] == 'e' || s[0] == 'E') &&
        var digits := if |s| > 1 && (s[1] == '+' || s[1] == '-') then s[2..] else s[1..];
        digits != "" && AllDigits(digits))
  }

  ghost predicate NumeralOf(token: string, sign: string, whole: string, fraction: string, exponent: string) {
    && token == sign + whole + fraction + exponent
    && (sign == "" || sign == "-") && IsWhole(whole) && IsFraction(fraction) && IsExponent(exponent)
  }

  // ----- Parts -----

  lemma AllDigitsRun(s: string)
    ensures DigitRun(s) == |s| <==> AllDigits(s)
  {
    assert s[..|s|] == s;
    if AllDigits(s) {
      DigitRunOfNumeral(s, "");
      assert s + "" == s;
    }
  }

  lemma DigitsToTheEnd(s: string)
    ensures AfterDigits(s) == Some("") <==> s != "" && AllDigits(s)
  {
    AllDigitsRun(s);
    assert s[|s|..] == "";
  }

  lemma ExponentIff(s: string)
    ensures AfterExponent(s) == Some("") <==> IsExponent(s)
  {
    hide AfterDigits;
    if s != "" {
      DigitsToTheEnd(s[1..]);
      if |s| > 1 {
        DigitsToTheEnd(s[2..]);
      }
    }
  }

  lemma FractionFound(s: string) returns (fraction: string)
    requires AfterFraction(s).Some?
    ensures s == fraction + AfterFraction(s).value && IsFraction(fraction)
  {
    if s != "" && s[0] == '.' {
      var n := DigitRun(s[1..]);
      fraction := "." + s[1..][..n];
      assert fraction[1..] == s[1..][..n];
      assert s == "." + s[1..];
    } else {
      fraction := "";
    }
  }

  lemma FractionRead(fraction: string, rest: string)
    requires IsFraction(fraction) && (rest == "" || (!IsDigit(rest[0]) && rest[0] != '.'))
    ensures AfterFraction(fraction + rest) == Some(rest)
  {
    var s := fraction + rest;
    if fraction == "" {
      assert s == rest;
    } else {
      var digits := fraction[1..];
      assert s[1..] == digits + rest;
      DigitRunOfNumeral(digits, rest);
    }
  }

  lemma WholeFound(s: string) returns (sign: string, whole: string)
    requires AfterInteger(s).Some?
    ensures s == sign + whole + AfterInteger(s).value && (sign == "" || sign == "-") && IsWhole(whole)
  {
    sign := if s[0] == '-' then "-" else "";
    var body := if s[0] == '-' then s[1..] else s;
    whole := if body[0] == '0' then "0" else body[..DigitRun(body)];
    assert body == whole + AfterInteger(s).value;
  }

  lemma WholeRead(sign: string, whole: string, rest: string)
    requires (sign == "" || sign == "-") && IsWhole(whole) && (rest == "" || !IsDigit(rest[0]))
    ensures AfterInteger(sign + whole + rest) == Some(rest)
  {
    var s := sign + whole + rest;
    var body := whole + rest;
    assert body[0] == whole[0];
    if sign == "-" {
      assert s[1..] == body;
    } else {
      assert s == body;
    }
    DigitRunOfNumeral(whole, rest);
    assert body[|whole|..] == rest;
  }

  /** The number grammar of the parser is that of the standard. */
  lemma NumeralIff(token: string)
    ensures IsJsonNumber(token) <==>
      exists sign, whole, fraction, exponent :: NumeralOf(token, sign, whole, fraction, exponent)
  {
    hide AfterInteger, AfterFraction, AfterExponent;
    if IsJsonNumber(token) {
      var sign, whole, fraction, exponent := NumeralFound(token);
    }
    if sign, whole, fraction, exponent :| NumeralOf(token, sign, whole, fraction, exponent) {
      NumeralRead(token, sign, whole, fraction, exponent);
    }
  }

  lemma NumeralFound(token: string) returns (sign: string, whole: string, fraction: string, exponent: string)
    requires IsJsonNumber(token)
    ensures NumeralOf(token, sign, whole, fraction, exponent)
  {
    hide AfterInteger, AfterFraction, AfterExponent, IsWhole, IsFraction, IsExponent;
    sign, whole := WholeFound(token);
    var a := AfterInteger(token).value;
    fraction := FractionFound(a);
    exponent := AfterFraction(a).value;
    ExponentIff(exponent);
  }

  lemma NumeralRead(token: string, sign: string, whole: string, fraction: string, exponent: string)
    requires NumeralOf(token, sign, whole, fraction, exponent)
    ensures IsJsonNumber(token)
  {
    hide AfterInteger, AfterFraction, AfterExponent;
    assert token == sign + whole + (fraction + exponent);
    WholeRead(sign, whole, fraction + exponent);
    FractionRead(fraction, exponent);
    ExponentIff(exponent);
  }

  // ----- Values -----

  lemma {:induction false} NumeralPositive(s: string)
    requires IsWhole(s) && s[0] != '0'
    ensures DecimalFrom(s, 0) > 0
  {
    DecimalFromGrows(s[1..], DigitValue(s[0]));
  }

  /** A numeral without leading zeros is the one that is printed for its value. */
  lemma {:induction false} DecimalOfNumeral(s: string)
    requires IsWhole(s)
    ensures Decimal(DecimalFrom(s, 0)) == s
    decreases |s|
  {
    hide Decimal, DecimalFrom;
    if |s| == 1 {
      DigitPrinted(s[0]);
      assert s == [s[0]];
    } else {
      var init := s[..|s| - 1];
      DecimalOfNumeral(init);
      NumeralPositive(init);
      DigitAppended(init, s[|s| - 1]);
      assert s == init + [s[|s| - 1]];
    }
  }

  lemma DigitPrinted(c: char)
    requires IsDigit(c)
    ensures Decimal(DecimalFrom([c], 0)) == [c]
  {
    assert [c][1..] == "";
  }

  lemma DigitAppended(s: string, c: char)
    requires AllDigits(s) && IsDigit(c) && DecimalFrom(s, 0) > 0 && Decimal(DecimalFrom(s, 0)) == s
    ensures Decimal(DecimalFrom(s + [c], 0)) == s + [c]
  {
    var n := DecimalFrom(s, 0);
    DecimalFromAppend(s, [c], 0);
    assert [c][1..] == "";
    assert DecimalFrom(s + [c], 0) == n * 10 + DigitValue(c);
  }

  /** What a number token stands for: an integer is printed like this (or as a negative zero), and any
      other number keeps its text. */
  ghost predicate IsNumberText(token: string, node: Node) {
    match node
    case Integer(v) => token == Signed(v) || (v == 0 && token == "-0")
    case Double(text) =>
      text == token &&
      exists sign, whole, fraction, exponent ::
        NumeralOf(token, sign, whole, fraction, exponent) && fraction + exponent != ""
    case _ => false
  }

  lemma IntegralIff(token: string, sign: string, whole: string, fraction: string, exponent: string)
    requires NumeralOf(token, sign, whole, fraction, exponent)
    ensures IsIntegral(token) <==> fraction + exponent == ""
  {
    if fraction != "" {
      assert token[|sign + whole|] == '.';
    } else if exponent != "" {
      assert token[|sign + whole|] == exponent[0];
    }
  }

  lemma IntegralValue(sign: string, whole: string)
    requires (sign == "" || sign == "-") && IsWhole(whole)
    ensures IntegerValue(sign + whole).Some?
    ensures var v := IntegerValue(sign + whole).value; sign + whole == Signed(v) || (v == 0 && sign + whole == "-0")
  {
    hide Decimal, DecimalFrom;
    var token := sign + whole;
    DecimalOfNumeral(whole);
    if sign == "-" {
      assert token[1..] == whole;
      if whole[0] == '0' {
        assert whole == "0";
        ZeroValue();
      } else {
        NumeralPositive(whole);
      }
    } else {
      assert token == whole;
    }
  }

  lemma ZeroValue()
    ensures DecimalFrom("0", 0) == 0
  {
    assert "0"[1..] == "";
  }

  lemma NegativeZero()
    ensures NumberNode("-0") == Ok(Integer(0))
  {
    var token := "-0";
    assert NumeralOf(token, "-", "0", "", "");
    NumeralRead(token, "-", "0", "", "");
    assert token[1..] == "0";
    ZeroValue();
  }

  /** The parser takes a number token for this node exactly if the token is a text of the node. */
  lemma NumberNodeIff(token: string, node: Node)
    ensures NumberNode(token) == Ok(node) <==> IsNumberText(token, node)
  {
    hide IsJsonNumber, IsIntegral, IntegerValue, Signed, NumeralOf;
    if NumberNode(token) == Ok(node) {
      var sign, whole, fraction, exponent := NumeralFound(token);
      IntegralIff(token, sign, whole, fraction, exponent);
      if IsIntegral(token) {
        NumeralParts(token, sign, whole, fraction, exponent);
        IntegralValue(sign, whole);
      }
    }
    if IsNumberText(token, node) {
      if node.Integer? {
        IntegerNode(node.value);
        NegativeZero();
      } else {
        var sign, whole, fraction, exponent :|
          NumeralOf(token, sign, whole, fraction, exponent) && fraction + exponent != "";
        NumeralRead(token, sign, whole, fraction, exponent);
        IntegralIff(token, sign, whole, fraction, exponent);
      }
    }
  }

  lemma NumeralParts(token: string, sign: string, whole: string, fraction: string, exponent: string)
    requires NumeralOf(token, sign, whole, fraction, exponent) && fraction + exponent == ""
    ensures token == sign + whole && (sign == "" || sign == "-") && IsWhole(whole)
  {
    assert token == sign + whole + (fraction + exponent);
  }
}
