/** The texts that the path parser accepts, written as a grammar: names and brackets, with dots between. */
module CfgPathGrammar {
  import opened Text
  import opened CfgPath

  // ----- The grammar -----

  /** A character of a name, with a backslash in front of it or without. */
  datatype Letter = Letter(escaped: bool, c: char)

  /** A name, or digits (possibly none) in brackets. */
  datatype Part = Name(letters: seq<Letter>) | Bracket(digits: string)

  /** The characters that would end a name have a backslash in front. */
  predicate IsLetter(letter: Letter) {
    letter.c in ['\\', '.', '['] ==> letter.escaped
  }

  function LettersText(letters: seq<Letter>): string {
    if letters == [] then ""
    else (if letters[0].escaped then ['\\', letters[0].c] else [letters[0].c]) + LettersText(letters[1..])
  }

  function Plain(letters: seq<Letter>): (key: string)
    ensures |key| == |letters| && forall i :: 0 <= i < |key| ==> key[i] == letters[i].c
  {
    seq(|letters|, i requires 0 <= i < |letters| => letters[i].c)
  }

  function PartText(part: Part): string {
    match part
    case Name(letters) => LettersText(letters)
    case Bracket(digits) => "[" + digits + "]"
  }

  /** A name is not empty; an index fits its type. */
  predicate IsPart(part: Part, limit: nat) {
    match part
    case Name(letters) =>
      letters != [] && forall i :: 0 <= i < |letters| ==> IsLetter(letters[i])
    case Bracket(digits) => AllDigits(digits) && DecimalFrom(digits, 0) <= limit
  }

  /** Empty brackets stand for the empty key. */
  function TokenOf(part: Part): Token
    requires part.Bracket? ==> AllDigits(part.digits)
  {
    match part
    case Name(letters) => Key(Plain(letters))
    case Bracket(digits) => if digits == "" then Key("") else Index(DecimalFrom(digits, 0))
  }

  datatype Place = Start | AfterName | AfterBracket

  /** How many dots may be in front of a part: none at the start, one at most behind a name, any number
      behind a bracket; a name that is not at the start needs one. */
  predicate Allowed(place: Place, dots: nat, part: Part) {
    match place
    case Start => dots == 0
    case AfterName => dots <= 1 && (part.Name? ==> dots == 1)
    case AfterBracket => part.Name? ==> dots >= 1
  }

  function Behind(part: Part): Place {
    if part.Name? then AfterName else AfterBracket
  }

  function Dots(n: nat): string {
    seq(n, _ => '.')
  }

  /** The text spells these tokens at this place, where there are already some dots in front of it. */
  ghost predicate Spells(s: string, tokens: seq<Token>, place: Place, before: nat, limit: nat)
    decreases |tokens|
  {
    if tokens == [] then s == ""
    else
      exists dots: nat, part, rest ::
        SpellsFirst(s, tokens[0], place, before, limit, dots, part, rest) &&
        Spells(rest, tokens[1..], Behind(part), 0, limit)
  }

  ghost predicate SpellsFirst(s: string, t: Token, place: Place, before: nat, limit: nat, dots: nat, part: Part,
      rest: string)
  {
    && s == Dots(dots) + PartText(part) + rest
    && IsPart(part, limit) && Allowed(place, before + dots, part) && t == TokenOf(part)
  }

  // ----- Names -----

  lemma LetterParses(first: Letter, tail: string, current: string, out: seq<Token>, limit: nat)
    requires IsLetter(first)
    ensures ParseTokens(LettersText([first]) + tail, current, out, limit)
      == ParseTokens(tail, current + [first.c], out, limit)
  {
    hide ParseTokens;
    LetterIsText(first);
    var s := LettersText([first]) + tail;
    if first.escaped {
      assert s[2..] == tail;
    } else {
      assert s[1..] == tail;
    }
    StepParses(s, current, out, limit);
  }

  lemma {:induction false} NameParses(letters: seq<Letter>, rest: string, current: string, out: seq<Token>, limit: nat)
    requires forall i :: 0 <= i < |letters| ==> IsLetter(letters[i])
    ensures ParseTokens(LettersText(letters) + rest, current, out, limit)
      == ParseTokens(rest, current + Plain(letters), out, limit)
    decreases |letters|
  {
    hide ParseTokens, LettersText, IsLetter;
    if letters == [] {
      NoLetters(rest);
      assert current + Plain(letters) == current;
    } else {
      var first, more := letters[0], letters[1..];
      assert letters == [first] + more;
      LettersConcat(first, more);
      var tail := LettersText(more) + rest;
      assert LettersText(letters) + rest == LettersText([first]) + tail;
      LetterParses(first, tail, current, out, limit);
      NameParses(more, rest, current + [first.c], out, limit);
      assert current + [first.c] + Plain(more) == current + Plain(letters);
    }
  }

  lemma LetterFound(s: string, current: string, out: seq<Token>, limit: nat) returns (first: Letter, tail: string)
    requires !AtBoundary(s) && ParseTokens(s, current, out, limit).Ok?
    ensures s == LettersText([first]) + tail && IsLetter(first)
    ensures ParseTokens(s, current, out, limit) == ParseTokens(tail, current + [first.c], out, limit)
  {
    hide ParseTokens;
    StepParses(s, current, out, limit);
    if s[0] == '\\' {
      first, tail := Letter(true, s[1]), s[2..];
      assert s == ['\\', s[1]] + tail;
    } else {
      first, tail := Letter(false, s[0]), s[1..];
      assert s == [s[0]] + tail;
    }
    assert [first][1..] == [];
    assert LettersText([first]) == if first.escaped then ['\\', first.c] else [first.c];
  }

  lemma LettersConcat(first: Letter, more: seq<Letter>)
    ensures LettersText([first] + more) == LettersText([first]) + LettersText(more)
  {
    assert ([first] + more)[1..] == more && [first][1..] == [];
    var text := if first.escaped then ['\\', first.c] else [first.c];
    assert text + "" == text;
  }

  /** The name at the front of an accepted text. */
  lemma {:induction false} NameFound(s: string, current: string, out: seq<Token>, limit: nat)
    returns (letters: seq<Letter>, rest: string)
    requires ParseTokens(s, current, out, limit).Ok?
    ensures s == LettersText(letters) + rest && AtBoundary(rest) && (letters == [] ==> AtBoundary(s))
    ensures forall i :: 0 <= i < |letters| ==> IsLetter(letters[i])
    ensures ParseTokens(s, current, out, limit) == ParseTokens(rest, current + Plain(letters), out, limit)
    decreases |s|
  {
    hide ParseTokens, LettersText, IsLetter;
    if AtBoundary(s) {
      letters, rest := [], s;
      NoLetters(s);
      assert current + Plain([]) == current;
    } else {
      var first, tail := LetterFound(s, current, out, limit);
      LetterIsText(first);
      var more;
      more, rest := NameFound(tail, current + [first.c], out, limit);
      letters := [first] + more;
      LettersConcat(first, more);
      assert current + [first.c] + Plain(more) == current + Plain(letters);
    }
  }

  lemma NoLetters(s: string)
    ensures s == LettersText([]) + s
  {
  }

  lemma LetterIsText(first: Letter)
    ensures LettersText([first]) == if first.escaped then ['\\', first.c] else [first.c]
  {
    assert [first][1..] == [];
  }

  // ----- Brackets -----

  lemma BracketParses(digits: string, rest: string, current: string, out: seq<Token>, limit: nat)
    requires AllDigits(digits) && DecimalFrom(digits, 0) <= limit && AtBoundary(rest)
    ensures ParseTokens("[" + digits + "]" + rest, current, out, limit)
      == ParseTokens(rest, "", Flush(current, out) + [TokenOf(Bracket(digits))], limit)
  {
    hide ParseTokens;
    if digits == "" {
      EmptyKeyParses(rest, current, out, limit);
      assert "[" + digits + "]" == "[]";
    } else {
      IndexDigitsParse(digits, DecimalFrom(digits, 0), rest, current, out, limit);
    }
  }

  lemma BracketFound(s: string, current: string, out: seq<Token>, limit: nat) returns (digits: string, rest: string)
    requires s != "" && s[0] == '[' && Step(s, current, out, limit).Go?
    ensures s == "[" + digits + "]" + rest && AtBoundary(rest)
    ensures AllDigits(digits) && DecimalFrom(digits, 0) <= limit
  {
    var inside := s[1..];
    var n := DigitRun(inside);
    digits := inside[..n];
    rest := inside[n + 1..];
    if inside[0] == ']' {
      assert n == 0;
    }
    assert inside == digits + "]" + rest;
  }

  // ----- Accepted texts are spelled -----

  /** The parser between two parts: what it has read last, and how many dots it has passed since. */
  ghost predicate Between(s: string, current: string, out: seq<Token>, place: Place, before: nat) {
    match place
    case Start => current == "" && out == [] && before == 0
    case AfterBracket => current == "" && MayFollow(out) && (before == 0 ==> AtBoundary(s))
    case AfterName =>
      if before == 0 then current != "" && AtBoundary(s)
      else before == 1 && current == "" && out != [] && !MayFollow(out)
  }

  /** Behind a dot there is more to come. */
  ghost predicate Unfinished(s: string, before: nat) {
    before > 0 ==> s != ""
  }

  lemma SpellsPart(s: string, part: Part, dots: nat, rest: string, more: seq<Token>, place: Place, before: nat,
      limit: nat)
    requires IsPart(part, limit) && Allowed(place, before + dots, part) && s == Dots(dots) + PartText(part) + rest
    requires Spells(rest, more, Behind(part), 0, limit)
    ensures Spells(s, [TokenOf(part)] + more, place, before, limit)
  {
    var tokens := [TokenOf(part)] + more;
    assert tokens[1..] == more;
    assert SpellsFirst(s, tokens[0], place, before, limit, dots, part, rest);
  }

  lemma FirstPart(s: string, tokens: seq<Token>, place: Place, before: nat, limit: nat)
    returns (dots: nat, part: Part, rest: string)
    requires tokens != [] && Spells(s, tokens, place, before, limit)
    ensures IsPart(part, limit) && Allowed(place, before + dots, part) && tokens[0] == TokenOf(part)
    ensures s == Dots(dots) + PartText(part) + rest && Spells(rest, tokens[1..], Behind(part), 0, limit)
  {
    dots, part, rest :| SpellsFirst(s, tokens[0], place, before, limit, dots, part, rest) &&
      Spells(rest, tokens[1..], Behind(part), 0, limit);
  }

  /** A dot in front of the text counts like one that has been passed. */
  lemma DotAdded(s: string, tokens: seq<Token>, place: Place, before: nat, limit: nat)
    requires s != "" && s[0] == '.' && tokens != [] && Spells(s[1..], tokens, place, before + 1, limit)
    ensures Spells(s, tokens, place, before, limit)
  {
    hide Spells, IsPart, PartText, TokenOf;
    var dots, part, rest := FirstPart(s[1..], tokens, place, before + 1, limit);
    assert Dots(dots + 1) == "." + Dots(dots);
    assert s == "." + s[1..];
    assert s == "." + (Dots(dots) + PartText(part) + rest) == Dots(dots + 1) + PartText(part) + rest;
    assert tokens == [TokenOf(part)] + tokens[1..];
    SpellsPart(s, part, dots + 1, rest, tokens[1..], place, before, limit);
  }

  lemma DotTaken(s: string, part: Part, dots: nat, rest: string, tokens: seq<Token>, place: Place, before: nat,
      limit: nat)
    requires IsPart(part, limit) && Allowed(place, before + dots, part) && tokens != [] && tokens[0] == TokenOf(part)
    requires s == Dots(dots) + PartText(part) + rest && Spells(rest, tokens[1..], Behind(part), 0, limit) && dots > 0
    ensures s[0] == '.' && Spells(s[1..], tokens, place, before + 1, limit)
    ensures !place.Start? && !(place.AfterName? && before == 1)
  {
    hide Spells, PartText, TokenOf;
    assert Dots(dots) == "." + Dots(dots - 1);
    assert s == "." + (Dots(dots - 1) + PartText(part) + rest);
    assert tokens == [TokenOf(part)] + tokens[1..];
    SpellsPart(s[1..], part, dots - 1, rest, tokens[1..], place, before + 1, limit);
  }

  lemma PartHead(part: Part, limit: nat)
    requires IsPart(part, limit)
    ensures PartText(part) != "" && PartText(part)[0] != '.'
    ensures part.Bracket? <==> PartText(part)[0] == '['
  {
    if part.Name? {
      assert IsLetter(part.letters[0]);
    }
  }

  lemma BoundaryBehind(s: string, tokens: seq<Token>, place: Place, limit: nat)
    requires Spells(s, tokens, place, 0, limit) && !place.Start?
    ensures AtBoundary(s)
  {
    hide Spells, IsPart, PartText, Dots;
    if tokens == [] {
      NothingSpelled(s, place, 0, limit);
    } else {
      var dots, part, rest := FirstPart(s, tokens, place, 0, limit);
      PartHead(part, limit);
      FirstOfPart(dots, PartText(part), rest);
    }
  }

  lemma FirstOfPart(dots: nat, text: string, rest: string)
    requires text != ""
    ensures (Dots(dots) + text + rest)[0] == if dots > 0 then '.' else text[0]
  {
  }

  lemma NothingSpelled(s: string, place: Place, before: nat, limit: nat)
    ensures Spells(s, [], place, before, limit) <==> s == ""
  {
  }

  lemma DotPasses(s: string, current: string, out: seq<Token>, place: Place, before: nat, limit: nat)
    requires s != "" && s[0] == '.' && Between(s, current, out, place, before)
    ensures (ParseTokens(s, current, out, limit).Ok? ==>
        |s| > 1 && !place.Start? && !(place.AfterName? && before == 1))
    ensures |s| > 1 && !place.Start? && !(place.AfterName? && before == 1) ==>
      && ParseTokens(s, current, out, limit) == ParseTokens(s[1..], "", Flush(current, out), limit)
      && Between(s[1..], "", Flush(current, out), place, before + 1)
  {
    hide ParseTokens;
    StepParses(s, current, out, limit);
  }

  /** What is spelled is parsed. */
  lemma {:induction false} SpelledParses(s: string, tokens: seq<Token>, current: string, out: seq<Token>, place: Place,
      before: nat, limit: nat)
    requires Spells(s, tokens, place, before, limit) && Between(s, current, out, place, before)
    requires place.Start? || before > 0 ==> tokens != []
    ensures ParseTokens(s, current, out, limit) == Ok(Flush(current, out) + tokens)
    decreases |s|
  {
    hide ParseTokens, Spells, IsPart, PartText;
    if tokens == [] {
      NothingSpelled(s, place, before, limit);
      StepParses(s, current, out, limit);
      assert Flush(current, out) + tokens == Flush(current, out);
      return;
    }
    var dots, part, rest := FirstPart(s, tokens, place, before, limit);
    PartHead(part, limit);
    if dots > 0 {
      DotTaken(s, part, dots, rest, tokens, place, before, limit);
      DotPasses(s, current, out, place, before, limit);
      SpelledParses(s[1..], tokens, "", Flush(current, out), place, before + 1, limit);
    } else {
      assert s == PartText(part) + rest;
      BoundaryBehind(rest, tokens[1..], Behind(part), limit);
      PartPasses(part, rest, current, out, place, before, limit);
      var current', out' := if part.Name? then Plain(part.letters) else "",
        if part.Name? then out else Flush(current, out) + [TokenOf(part)];
      SpelledParses(rest, tokens[1..], current', out', Behind(part), 0, limit);
      assert Flush(current', out') + tokens[1..] == Flush(current, out) + tokens;
    }
  }

  lemma PartPasses(part: Part, rest: string, current: string, out: seq<Token>, place: Place, before: nat, limit: nat)
    requires IsPart(part, limit) && Allowed(place, before, part) && AtBoundary(rest)
    requires Between(PartText(part) + rest, current, out, place, before)
    ensures part.Name? ==>
      && current == "" && Plain(part.letters) != ""
      && ParseTokens(PartText(part) + rest, current, out, limit) == ParseTokens(rest, Plain(part.letters), out, limit)
    ensures part.Bracket? ==>
      && ParseTokens(PartText(part) + rest, current, out, limit)
        == ParseTokens(rest, "", Flush(current, out) + [TokenOf(part)], limit)
      && MayFollow(Flush(current, out) + [TokenOf(part)])
  {
    hide ParseTokens;
    match part
    case Name(letters) =>
      NameParses(letters, rest, "", out, limit);
      assert "" + Plain(letters) == Plain(letters);
    case Bracket(digits) => BracketParses(digits, rest, current, out, limit);
  }

  lemma GoesOn(s: string, current: string, out: seq<Token>, limit: nat)
    requires s != "" && ParseTokens(s, current, out, limit).Ok?
    ensures Step(s, current, out, limit).Go?
  {
    hide ParseTokens;
    StepParses(s, current, out, limit);
  }

  /** What is parsed is spelled. */
  lemma {:induction false} ParsedSpells(s: string, current: string, out: seq<Token>, place: Place, before: nat,
      limit: nat) returns (tokens: seq<Token>)
    requires ParseTokens(s, current, out, limit).Ok? && Between(s, current, out, place, before)
    requires Unfinished(s, before)
    ensures ParseTokens(s, current, out, limit) == Ok(Flush(current, out) + tokens)
    ensures Spells(s, tokens, place, before, limit)
    decreases |s|
  {
    hide ParseTokens, Spells, Step, PartText, IsPart;
    if s == "" {
      tokens := [];
      NothingSpelled(s, place, before, limit);
      EndParses(current, out, limit);
      assert Flush(current, out) + tokens == Flush(current, out);
    } else if s[0] == '.' {
      DotPasses(s, current, out, place, before, limit);
      tokens := ParsedSpells(s[1..], "", Flush(current, out), place, before + 1, limit);
      if tokens == [] {
        NothingSpelled(s[1..], place, before + 1, limit);
      }
      DotAdded(s, tokens, place, before, limit);
    } else {
      var part, rest := PartFound(s, current, out, place, before, limit);
      PartPasses(part, rest, current, out, place, before, limit);
      PartHead(part, limit);
      var current', out' := if part.Name? then Plain(part.letters) else "",
        if part.Name? then out else Flush(current, out) + [TokenOf(part)];
      var more := ParsedSpells(rest, current', out', Behind(part), 0, limit);
      tokens := [TokenOf(part)] + more;
      assert s == Dots(0) + PartText(part) + rest;
      SpellsPart(s, part, 0, rest, more, place, before, limit);
      assert Flush(current', out') + more == Flush(current, out) + tokens;
    }
  }

  lemma PartFound(s: string, current: string, out: seq<Token>, place: Place, before: nat, limit: nat)
    returns (part: Part, rest: string)
    requires ParseTokens(s, current, out, limit).Ok? && Between(s, current, out, place, before)
    requires s != "" && s[0] != '.'
    ensures s == PartText(part) + rest && AtBoundary(rest)
    ensures IsPart(part, limit) && Allowed(place, before, part) && (part.Bracket? ==> AllDigits(part.digits))
  {
    hide ParseTokens, Step, LettersText;
    if s[0] == '[' {
      GoesOn(s, current, out, limit);
      var digits;
      digits, rest := BracketFound(s, current, out, limit);
      part := Bracket(digits);
    } else {
      var letters;
      letters, rest := NameFound(s, current, out, limit);
      part := Name(letters);
    }
  }

  lemma EndParses(current: string, out: seq<Token>, limit: nat)
    ensures ParseTokens("", current, out, limit) ==
      if Flush(current, out) == [] then Err(NoTokens) else Ok(Flush(current, out))
  {
  }

  /** The parser accepts exactly the paths of the grammar, and reads the tokens they spell. */
  lemma ParseIff(path: string, tokens: seq<Token>)
    ensures Parse(path) == Ok(tokens) <==> tokens != [] && Spells(path, tokens, Start, 0, SIZE_MAX)
  {
    hide ParseTokens, Spells;
    if Parse(path).Ok? {
      var found := ParsedSpells(path, "", [], Start, 0, SIZE_MAX);
      if found == [] {
        NothingSpelled(path, Start, 0, SIZE_MAX);
      }
      assert Flush("", []) + found == found;
    }
    if tokens != [] && Spells(path, tokens, Start, 0, SIZE_MAX) {
      StartsWithPart(path, tokens, SIZE_MAX);
      SpelledParses(path, tokens, "", [], Start, 0, SIZE_MAX);
      assert Flush("", []) + tokens == tokens;
    }
  }

  lemma StartsWithPart(path: string, tokens: seq<Token>, limit: nat)
    requires tokens != [] && Spells(path, tokens, Start, 0, limit)
    ensures path != ""
  {
    hide Spells, IsPart;
    var dots, part, rest := FirstPart(path, tokens, Start, 0, limit);
    PartHead(part, limit);
  }
}
