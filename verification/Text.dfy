/** Strings, results and decimal numerals shared by the models of all four components. */
module Text {

  datatype Option<+T> = None | Some(value: T)

  datatype Result<+T, +E> = Ok(value: T) | Err(error: E)

  /** The largest `std::size_t` on the 64-bit platforms the library targets. */
  const SIZE_MAX: nat := 0xFFFF_FFFF_FFFF_FFFF

  predicate StartsWith(s: string, prefix: string) {
    |prefix| <= |s| && s[..|prefix|] == prefix
  }

  predicate IsDigit(c: char) {
    '0' <= c <= '9'
  }

  predicate AllDigits(s: string) {
    forall i :: 0 <= i < |s| ==> IsDigit(s[i])
  }

  function DigitValue(c: char): (v: nat)
    requires IsDigit(c)
    ensures v < 10
  {
    c as int - '0' as int
  }

  function DigitChar(d: nat): (c: char)
    requires d < 10
    ensures IsDigit(c) && DigitValue(c) == d
  {
    ('0' as int + d) as char
  }

  /** The decimal numeral `std::to_string` prints. */
  function Decimal(n: nat): (s: string)
    ensures s != [] && AllDigits(s)
    ensures s[0] == '0' ==> n == 0 && |s| == 1
  {
    if n < 10 then [DigitChar(n)] else Decimal(n / 10) + [DigitChar(n % 10)]
  }

  /** The value of a digit string read from the left, starting from `acc`. */
  function DecimalFrom(s: string, acc: nat): nat
    requires AllDigits(s)
  {
    if s == [] then acc else DecimalFrom(s[1..], acc * 10 + DigitValue(s[0]))
  }

  lemma {:induction false} DecimalFromAppend(a: string, b: string, acc: nat)
    requires AllDigits(a) && AllDigits(b)
    ensures AllDigits(a + b)
    ensures DecimalFrom(a + b, acc) == DecimalFrom(b, DecimalFrom(a, acc))
  {
    if a == [] {
      assert a + b == b;
    } else {
      assert (a + b)[1..] == a[1..] + b;
      DecimalFromAppend(a[1..], b, acc * 10 + DigitValue(a[0]));
    }
  }

  /** Reading a printed numeral gives the number back. */
  lemma {:induction false} DecimalRoundTrip(n: nat)
    ensures DecimalFrom(Decimal(n), 0) == n
  {
    if n < 10 {
      assert Decimal(n)[1..] == [];
    } else {
      DecimalRoundTrip(n / 10);
      var last := [DigitChar(n % 10)];
      DecimalFromAppend(Decimal(n / 10), last, 0);
      assert last[1..] == [];
    }
  }

  lemma {:induction false} DecimalFromGrows(s: string, acc: nat)
    requires AllDigits(s)
    ensures acc <= DecimalFrom(s, acc)
  {
    if s != [] {
      DecimalFromGrows(s[1..], acc * 10 + DigitValue(s[0]));
    }
  }

  lemma DecimalInjective(m: nat, n: nat)
    requires Decimal(m) == Decimal(n)
    ensures m == n
  {
    DecimalRoundTrip(m);
    DecimalRoundTrip(n);
  }

  function Pow10(k: nat): nat {
    if k == 0 then 1 else 10 * Pow10(k - 1)
  }

  lemma {:induction false} DecimalShort(n: nat, k: nat)
    requires 0 < k && n < Pow10(k)
    ensures |Decimal(n)| <= k
  {
    if 10 <= n {
      DecimalShort(n / 10, k - 1);
    }
  }

  /** The length of the leading run of digits. */
  function DigitRun(s: string): (n: nat)
    ensures n <= |s| && AllDigits(s[..n])
    ensures n < |s| ==> !IsDigit(s[n])
  {
    if s == "" || !IsDigit(s[0]) then 0 else
      var n := DigitRun(s[1..]);
      assert s[..n + 1] == [s[0]] + s[1..][..n];
      n + 1
  }

  /** A digit inside the leading run cannot be where the run ends. */
  lemma {:induction false} DigitRunStops(s: string, k: nat)
    requires k <= DigitRun(s)
    ensures k < |s| && IsDigit(s[k]) ==> k < DigitRun(s)
    ensures !(k < |s| && IsDigit(s[k])) ==> k == DigitRun(s)
  {
    if k < DigitRun(s) {
      assert IsDigit(s[..DigitRun(s)][k]);
    }
  }

  lemma {:induction false} DigitRunOfNumeral(s: string, rest: string)
    requires AllDigits(s) && (rest == "" || !IsDigit(rest[0]))
    ensures DigitRun(s + rest) == |s|
  {
    if s == "" {
      assert s + rest == rest;
    } else {
      assert (s + rest)[1..] == s[1..] + rest;
      DigitRunOfNumeral(s[1..], rest);
    }
  }

  // ----- Characters -----

  /** What `isspace` accepts in the "C" locale. */
  predicate IsSpace(c: char) {
    c == ' ' || '\t' <= c <= '\r'
  }

  predicate AllBlank(s: string) {
    forall i :: 0 <= i < |s| ==> s[i] in [' ', '\t', '\n', '\U{000B}', '\U{000C}', '\r']
  }

  /** The value of a hexadecimal digit of either case. */
  function HexValue(c: char): (v: Option<nat>)
    ensures v.Some? ==> v.value < 16
  {
    if '0' <= c <= '9' then Some(c as int - '0' as int)
    else if 'a' <= c <= 'f' then Some(10 + (c as int - 'a' as int))
    else if 'A' <= c <= 'F' then Some(10 + (c as int - 'A' as int))
    else None
  }

  /** The value of a hexadecimal digit by its place in the alphabet. */
  predicate IsHexDigit(c: char, v: nat) {
    v < 16 && (c == "0123456789abcdef"[v] || c == "0123456789ABCDEF"[v])
  }

  lemma HexValueIff(c: char, v: nat)
    ensures HexValue(c) == Some(v) <==> IsHexDigit(c, v)
  {
  }

  /** The lower-case hexadecimal digit of a value. */
  function HexChar(d: nat): (c: char)
    requires d < 16
    ensures HexValue(c) == Some(d) && ('0' <= c <= '9' || 'a' <= c <= 'f')
  {
    if d < 10 then ('0' as int + d) as char else ('a' as int + (d - 10)) as char
  }

  // ----- Separators -----

  /** The parts of a text between separators; there is one part more than separators. */
  function Split(s: string, sep: char): (parts: seq<string>)
    ensures parts != []
  {
    if s == "" then [""]
    else
      var rest := Split(s[1..], sep);
      if s[0] == sep then [""] + rest else [[s[0]] + rest[0]] + rest[1..]
  }

  lemma {:induction false} SplitPlain(a: string, b: string, sep: char)
    requires sep !in a
    ensures Split(a + b, sep) == [a + Split(b, sep)[0]] + Split(b, sep)[1..]
  {
    if a == "" {
      assert a + b == b;
      assert a + Split(b, sep)[0] == Split(b, sep)[0];
    } else {
      assert (a + b)[1..] == a[1..] + b;
      SplitPlain(a[1..], b, sep);
      assert [a[0]] + (a[1..] + Split(b, sep)[0]) == a + Split(b, sep)[0];
    }
  }

  lemma SplitField(a: string, b: string, sep: char)
    requires sep !in a
    ensures Split(a + [sep] + b, sep) == [a] + Split(b, sep)
    ensures Split(a, sep) == [a]
  {
    assert a + [sep] + b == a + ([sep] + b);
    SplitPlain(a, [sep] + b, sep);
    assert ([sep] + b)[1..] == b;
    SplitPlain(a, "", sep);
    assert a + "" == a;
  }
}
