/** The journal file: how records are written as lines, and how the parser reads them back. */
module FsxJournal {
  import opened FsxNames
  import opened FsxReplay
  import opened FsxSound
  import opened FsxStore
  import opened FsxUndo
  import opened Text

  // ----- Fields -----

  const HEX_DIGITS := "0123456789ABCDEF"

  predicate NeedsEscape(c: char) {
    c == '%' || c == '|' || c == '\n' || c == '\r'
  }

  function EscapeChar(c: char): string {
    if NeedsEscape(c) then ['%', HEX_DIGITS[c as int / 16], HEX_DIGITS[c as int % 16]] else [c]
  }

  function Escaped(s: string): string {
    if s == "" then "" else Escaped(s[..|s| - 1]) + EscapeChar(s[|s| - 1])
  }

  /** `escape_field` */
  method EscapeField(s: string) returns (out: string)
    ensures out == Escaped(s)
  {
    out := "";
    var i := 0;
    assert s[..0] == "";
    while i < |s|
      invariant 0 <= i <= |s| && out == Escaped(s[..i])
    {
      assert s[..i + 1][..i] == s[..i];
      out := out + EscapeChar(s[i]);
      i := i + 1;
    }
    assert s[..|s|] == s;
  }

  /** The value of a hexadecimal digit of either case, or -1. */
  predicate StartsEscape(s: string) {
    2 < |s| && s[0] == '%' && HexValue(s[1]).Some? && HexValue(s[2]).Some?
  }

  function Unescaped(s: string): string {
    if s == "" then ""
    else if StartsEscape(s) then [(HexValue(s[1]).value * 16 + HexValue(s[2]).value) as char] + Unescaped(s[3..])
    else [s[0]] + Unescaped(s[1..])
  }

  lemma UnescapeStep(s: string, i: nat)
    requires i < |s|
    ensures i + 2 < |s| && s[i] == '%' && HexValue(s[i + 1]).Some? && HexValue(s[i + 2]).Some? ==>
      Unescaped(s[i..]) == [(HexValue(s[i + 1]).value * 16 + HexValue(s[i + 2]).value) as char] + Unescaped(s[i + 3..])
    ensures !(i + 2 < |s| && s[i] == '%' && HexValue(s[i + 1]).Some? && HexValue(s[i + 2]).Some?) ==>
      Unescaped(s[i..]) == [s[i]] + Unescaped(s[i + 1..])
  {
    assert s[i..][1..] == s[i + 1..];
    if i + 3 <= |s| {
      assert s[i..][3..] == s[i + 3..];
    }
  }

  lemma UnescapeEnd(s: string)
    ensures Unescaped(s[|s|..]) == ""
  {
  }

  /** `unescape_field` */
  method UnescapeField(s: string) returns (out: string)
    ensures out == Unescaped(s)
  {
    hide Unescaped;
    out := "";
    var i := 0;
    assert s[0..] == s;
    while i < |s|
      invariant 0 <= i <= |s| && Unescaped(s) == out + Unescaped(s[i..])
    {
      UnescapeStep(s, i);
      if s[i] == '%' && i + 2 < |s| {
        var hi, lo := HexValue(s[i + 1]), HexValue(s[i + 2]);
        if hi.Some? && lo.Some? {
          out := out + [(hi.value * 16 + lo.value) as char];
          i := i + 3;
          continue;
        }
      }
      out := out + [s[i]];
      i := i + 1;
    }
    UnescapeEnd(s);
  }

  /** A field is not empty and every percent sign starts an escape. */
  predicate ValidRest(s: string) {
    s == "" || (if s[0] == '%' then StartsEscape(s) && ValidRest(s[3..]) else ValidRest(s[1..]))
  }

  predicate ValidField(s: string) {
    s != "" && ValidRest(s)
  }

  method IsValidField(s: string) returns (valid: bool)
    ensures valid <==> ValidField(s)
  {
    if s == "" {
      return false;
    }
    var i := 0;
    while i < |s|
      invariant 0 <= i <= |s| && (ValidRest(s[i..]) <==> ValidRest(s))
    {
      if s[i] == '%' {
        if i + 2 >= |s| || HexValue(s[i + 1]).None? || HexValue(s[i + 2]).None? {
          assert !StartsEscape(s[i..]);
          return false;
        }
        assert StartsEscape(s[i..]) && s[i..][3..] == s[i + 3..];
        i := i + 3;
      } else {
        assert s[i..][1..] == s[i + 1..];
        i := i + 1;
      }
    }
    assert s[|s|..] == "";
    valid := true;
  }

  lemma EscapeCharReads(c: char, rest: string)
    ensures Unescaped(EscapeChar(c) + rest) == [c] + Unescaped(rest)
    ensures ValidRest(EscapeChar(c) + rest) <==> ValidRest(rest)
    ensures '|' !in EscapeChar(c) && '\n' !in EscapeChar(c)
  {
    hide Unescaped, ValidRest;
    var s := EscapeChar(c) + rest;
    UnescapedStep(s);
    if NeedsEscape(c) {
      EscapedHex(c);
      assert s[3..] == rest;
    } else {
      assert s[1..] == rest;
    }
  }

  lemma UnescapedStep(s: string)
    requires s != ""
    ensures StartsEscape(s) ==>
      Unescaped(s) == [(HexValue(s[1]).value * 16 + HexValue(s[2]).value) as char] + Unescaped(s[3..])
    ensures !StartsEscape(s) ==> Unescaped(s) == [s[0]] + Unescaped(s[1..])
    ensures ValidRest(s) <==> if s[0] == '%' then StartsEscape(s) && ValidRest(s[3..]) else ValidRest(s[1..])
  {
  }

  /** The two digits of an escape stand for its character. */
  lemma EscapedHex(c: char)
    requires NeedsEscape(c)
    ensures var hi, lo := HexValue(HEX_DIGITS[c as int / 16]), HexValue(HEX_DIGITS[c as int % 16]);
      hi.Some? && lo.Some? && (hi.value * 16 + lo.value) as char == c
  {
  }

  /** Reading an escaped field gives the field back, and it contains no separator. */
  lemma {:induction false} EscapedReads(s: string, rest: string)
    ensures Unescaped(Escaped(s) + rest) == s + Unescaped(rest)
    ensures ValidRest(Escaped(s) + rest) <==> ValidRest(rest)
    ensures '|' !in Escaped(s) && '\n' !in Escaped(s)
    ensures s != "" ==> Escaped(s) != ""
  {
    hide EscapeChar, Unescaped, ValidRest;
    EscapedSteps(s, rest);
    if s != "" {
      var front, c := s[..|s| - 1], s[|s| - 1];
      EscapedReads(front, EscapeChar(c) + rest);
      EscapeCharReads(c, rest);
      assert s + Unescaped(rest) == front + ([c] + Unescaped(rest));
    }
  }

  lemma EscapedSteps(s: string, rest: string)
    ensures s == "" ==> Escaped(s) == "" && Escaped(s) + rest == rest && s + Unescaped(rest) == Unescaped(rest)
    ensures s != "" ==>
      Escaped(s) == Escaped(s[..|s| - 1]) + EscapeChar(s[|s| - 1]) && EscapeChar(s[|s| - 1]) != "" &&
      Escaped(s) + rest == Escaped(s[..|s| - 1]) + (EscapeChar(s[|s| - 1]) + rest)
  {
  }

  lemma FieldRoundTrip(s: string)
    ensures Unescaped(Escaped(s)) == s
    ensures s != "" ==> ValidField(Escaped(s))
    ensures '|' !in Escaped(s) && '\n' !in Escaped(s)
  {
    EscapedReads(s, "");
    assert Escaped(s) + "" == Escaped(s);
  }

  // ----- Separators -----

  /** `split_pipe` */
  method SplitPipe(line: string) returns (parts: seq<string>)
    ensures parts == Split(line, '|')
  {
    hide Split;
    parts := [];
    var start, i := 0, 0;
    assert line[0..] == line;
    while i < |line|
      invariant 0 <= start <= i <= |line| && '|' !in line[start..i]
      invariant Split(line, '|') == parts + Split(line[start..], '|')
    {
      if line[i] == '|' {
        assert line[start..] == line[start..i] + ['|'] + line[i + 1..];
        SplitField(line[start..i], line[i + 1..], '|');
        assert parts + ([line[start..i]] + Split(line[i + 1..], '|')) ==
          parts + [line[start..i]] + Split(line[i + 1..], '|');
        parts := parts + [line[start..i]];
        start := i + 1;
      } else {
        assert line[start..i + 1] == line[start..i] + [line[i]];
      }
      i := i + 1;
    }
    assert line[start..] == line[start..i];
    SplitField(line[start..i], "", '|');
    parts := parts + [line[start..i]];
  }

  // ----- The parser -----

  /** The number of the header line, and the records and commit flag read so far. */
  datatype Parsed = Parsed(version: nat, undos: seq<Marked>, committed: bool)

  datatype JournalError =
    | EmptyJournal | BadHeader | AfterCommit | BadField | BadMarker | BadWitness | BadRecord | NotAbsolute

  function Version(header: string): Option<nat> {
    if header == "FSXJ1" then Some(1)
    else if header == "FSXJ2" then Some(2)
    else if header == "FSXJ3" then Some(3)
    else if header == "FSXJ4" then Some(4)
    else None
  }

  function ReadRecord(version: nat, undos: seq<Marked>, parts: seq<string>): Result<seq<Marked>, JournalError> {
    if exists i :: 0 <= i < |parts| && !ValidField(parts[i]) then Err(BadField)
    else if version == 4 && |parts| == 2 && parts[0] == "RESTORED" then
      var found := FindReplacement(undos, Unescaped(parts[1]));
      if found.None? || undos[found.value].restored then Err(BadMarker)
      else Ok(undos[found.value := undos[found.value].(restored := true)])
    else if |parts| == 3 && parts[0] == "UNDO" && parts[1] == "REMOVE" then
      Ok(undos + [Marked(RemovePath(Unescaped(parts[2])))])
    else if |parts| == 4 && parts[0] == "UNDO" && parts[1] == "MOVE" then
      Ok(undos + [Marked(MovePath(Unescaped(parts[2]), Unescaped(parts[3])))])
    else if version == 4 && |parts| == 8 && parts[0] == "UNDO" && parts[1] == "REPLACE" then
      var u := ReplaceFile(Unescaped(parts[2]), Unescaped(parts[3]), Unescaped(parts[4]), Unescaped(parts[5]), parts[6],
        parts[7]);
      if WitnessReferences(undos, u) then Ok(undos + [Marked(u)]) else Err(BadWitness)
    else Err(BadRecord)
  }

  function ReadLine(p: Parsed, line: string): Result<Parsed, JournalError> {
    if line == "" then Ok(p)
    else if p.version != 1 && line == "COMMIT" && !p.committed then Ok(p.(committed := true))
    else if p.committed then Err(AfterCommit)
    else
      match ReadRecord(p.version, p.undos, Split(line, '|'))
      case Ok(undos) => Ok(p.(undos := undos))
      case Err(e) => Err(e)
  }

  function ReadLines(p: Parsed, lines: seq<string>): Result<Parsed, JournalError> {
    if lines == [] then Ok(p)
    else
      var before := ReadLines(p, lines[..|lines| - 1]);
      if before.Err? then before else ReadLine(before.value, lines[|lines| - 1])
  }

  predicate AllPathsAbsolute(undos: seq<Marked>) {
    forall i :: 0 <= i < |undos| ==> AllAbsolute(undos[i].undo)
  }

  /** What `std::getline` yields: a last part without a newline counts only if it is not empty. */
  function Lines(text: string): seq<string> {
    var parts := Split(text, '\n');
    if parts[|parts| - 1] == "" then parts[..|parts| - 1] else parts
  }

  function ReadText(text: string): Result<Parsed, JournalError> {
    var lines := Lines(text);
    if lines == [] then Err(EmptyJournal)
    else
      var version := Version(lines[0]);
      if version.None? then Err(BadHeader)
      else
        var r := ReadLines(Parsed(version.value, [], false), lines[1..]);
        if r.Ok? && version.value == 4 && !AllPathsAbsolute(r.value.undos) then Err(NotAbsolute) else r
  }

  /** One line of the parser: splitting, checking and unescaping its fields. */
  method ParseLine(p: Parsed, line: string) returns (r: Result<Parsed, JournalError>)
    ensures r == ReadLine(p, line)
  {
    hide Split, Unescaped, ValidField, WitnessReferences;
    if line == "" {
      return Ok(p);
    }
    if p.version != 1 && line == "COMMIT" && !p.committed {
      return Ok(p.(committed := true));
    }
    var parts := SplitPipe(line);
    if p.committed {
      return Err(AfterCommit);
    }
    var i := 0;
    while i < |parts|
      invariant 0 <= i <= |parts| && forall k :: 0 <= k < i ==> ValidField(parts[k])
    {
      var valid := IsValidField(parts[i]);
      if !valid {
        return Err(BadField);
      }
      i := i + 1;
    }
    if p.version == 4 && |parts| == 2 && parts[0] == "RESTORED" {
      var source := UnescapeField(parts[1]);
      var found := FindReplacement(p.undos, source);
      if found.None? || p.undos[found.value].restored {
        return Err(BadMarker);
      }
      return Ok(p.(undos := p.undos[found.value := p.undos[found.value].(restored := true)]));
    }
    if |parts| == 3 && parts[0] == "UNDO" && parts[1] == "REMOVE" {
      var from := UnescapeField(parts[2]);
      return Ok(p.(undos := p.undos + [Marked(RemovePath(from))]));
    }
    if |parts| == 4 && parts[0] == "UNDO" && parts[1] == "MOVE" {
      var from := UnescapeField(parts[2]);
      var to := UnescapeField(parts[3]);
      return Ok(p.(undos := p.undos + [Marked(MovePath(from, to))]));
    }
    if p.version == 4 && |parts| == 8 && parts[0] == "UNDO" && parts[1] == "REPLACE" {
      var from := UnescapeField(parts[2]);
      var to := UnescapeField(parts[3]);
      var newWitness := UnescapeField(parts[4]);
      var staging := UnescapeField(parts[5]);
      var u := ReplaceFile(from, to, newWitness, staging, parts[6], parts[7]);
      if !WitnessReferences(p.undos, u) {
        return Err(BadWitness);
      }
      return Ok(p.(undos := p.undos + [Marked(u)]));
    }
    r := Err(BadRecord);
  }

  /** `std::getline` from position `pos`: the text up to the next newline or the end, and where the
      next call goes on. */
  method GetLine(text: string, pos: nat) returns (line: string, next: nat)
    requires pos < |text|
    ensures pos < next <= |text|
    ensures Lines(text[pos..]) == [line] + Lines(text[next..])
  {
    hide Lines;
    next := pos;
    while next < |text| && text[next] != '\n'
      invariant pos <= next <= |text| && '\n' !in text[pos..next]
    {
      assert text[pos..next + 1] == text[pos..next] + [text[next]];
      next := next + 1;
    }
    line := text[pos..next];
    if next < |text| {
      assert text[pos..] == line + ['\n'] + text[next + 1..];
      FirstLine(line, text[next + 1..]);
      next := next + 1;
    } else {
      assert text[pos..] == line;
      LastLine(line);
      assert text[next..] == "";
    }
  }

  lemma FirstLine(line: string, rest: string)
    requires '\n' !in line
    ensures Lines(line + ['\n'] + rest) == [line] + Lines(rest)
  {
    hide Split;
    SplitField(line, rest, '\n');
    var parts := Split(rest, '\n');
    assert ([line] + parts)[..|parts|] == [line] + parts[..|parts| - 1];
  }

  lemma LastLine(line: string)
    requires '\n' !in line && line != ""
    ensures Lines(line) == [line] && Lines("") == []
  {
    SplitField(line, "", '\n');
  }

  lemma ReadLinesStep(p: Parsed, lines: seq<string>, line: string)
    ensures ReadLines(p, lines + [line]) ==
      if ReadLines(p, lines).Err? then ReadLines(p, lines) else ReadLine(ReadLines(p, lines).value, line)
  {
    assert (lines + [line])[..|lines|] == lines;
  }

  lemma {:induction false} ReadLinesFails(p: Parsed, lines: seq<string>, more: seq<string>)
    requires ReadLines(p, lines).Err?
    ensures ReadLines(p, lines + more) == ReadLines(p, lines)
    decreases |more|
  {
    hide ReadLine;
    if more == [] {
      assert lines + more == lines;
    } else {
      ReadLinesFails(p, lines, more[..|more| - 1]);
      assert (lines + more)[..|lines + more| - 1] == lines + more[..|more| - 1];
    }
  }

  /** `read_journal` */
  method ReadJournal(text: string) returns (r: Result<Parsed, JournalError>)
    ensures r == ReadText(text)
  {
    hide Lines, ReadLine, ReadLines, AllPathsAbsolute, Version;
    if text == "" {
      NoLines();
      return Err(EmptyJournal);
    }
    assert text[0..] == text;
    var header, pos := GetLine(text, 0);
    assert ([header] + Lines(text[pos..]))[1..] == Lines(text[pos..]);
    var version := Version(header);
    if version.None? {
      return Err(BadHeader);
    }
    var p := Parsed(version.value, [], false);
    ghost var start, rest := p, Lines(text[pos..]);
    ghost var lines: seq<string> := [];
    NothingRead(p);
    while pos < |text|
      invariant pos <= |text|
      invariant rest == lines + Lines(text[pos..])
      invariant ReadLines(start, lines) == Ok(p)
    {
      var line;
      line, pos := GetLine(text, pos);
      ReadLinesStep(start, lines, line);
      lines := lines + [line];
      assert rest == lines + Lines(text[pos..]);
      var next := ParseLine(p, line);
      if next.Err? {
        ReadLinesFails(start, lines, Lines(text[pos..]));
        return next;
      }
      p := next.value;
    }
    NoLines();
    assert text[|text|..] == "";
    assert rest == lines;
    if version.value == 4 && !AllPathsAbsolute(p.undos) {
      return Err(NotAbsolute);
    }
    r := Ok(p);
  }

  lemma NoLines()
    ensures Lines("") == []
  {
  }

  lemma NothingRead(p: Parsed)
    ensures ReadLines(p, []) == Ok(p)
  {
  }

  /** Whatever text is accepted as a version 4 journal, its records refer to each other properly. */
  lemma {:induction false} AcceptedLines(p: Parsed, lines: seq<string>)
    requires ReferencesHold(p.undos) && p.version == 4 && ReadLines(p, lines).Ok?
    ensures ReferencesHold(ReadLines(p, lines).value.undos) && ReadLines(p, lines).value.version == 4
  {
    hide ReadLine, ReferencesHold;
    if lines != [] {
      AcceptedLines(p, lines[..|lines| - 1]);
      AcceptedLine(ReadLines(p, lines[..|lines| - 1]).value, lines[|lines| - 1]);
    }
  }

  ghost predicate ReferencesHold(undos: seq<Marked>) {
    forall i :: 0 <= i < |undos| && undos[i].undo.ReplaceFile? ==> WitnessReferences(undos[..i], undos[i].undo)
  }

  lemma AcceptedLine(p: Parsed, line: string)
    requires ReferencesHold(p.undos) && p.version == 4 && ReadLine(p, line).Ok?
    ensures ReferencesHold(ReadLine(p, line).value.undos) && ReadLine(p, line).value.version == 4
  {
    hide WitnessReferences, Split, Unescaped, ValidField;
    var undos, after := p.undos, ReadLine(p, line).value.undos;
    if |after| == |undos| {
      assert SameUndos(undos, after);
      forall i | 0 <= i < |after| && after[i].undo.ReplaceFile? ensures WitnessReferences(after[..i], after[i].undo) {
        assert WitnessReferences(undos[..i], undos[i].undo);
        SamePrior(undos[..i], after[..i], undos[i].undo);
      }
    } else {
      assert after[..|undos|] == undos;
      forall i | 0 <= i < |after| && after[i].undo.ReplaceFile? ensures WitnessReferences(after[..i], after[i].undo) {
        assert after[..i] == undos[..i];
      }
    }
  }

  lemma AcceptedText(text: string)
    requires ReadText(text).Ok? && ReadText(text).value.version == 4
    ensures Acceptable(ReadText(text).value.undos)
  {
    hide Lines, ReadLines, WitnessReferences, AllAbsolute;
    var lines := Lines(text);
    var p := Parsed(4, [], false);
    VersionKept(Parsed(Version(lines[0]).value, [], false), lines[1..]);
    AcceptedLines(p, lines[1..]);
  }

  lemma {:induction false} VersionKept(p: Parsed, lines: seq<string>)
    ensures ReadLines(p, lines).Ok? ==> ReadLines(p, lines).value.version == p.version
  {
    hide ReadRecord, Split;
    if lines != [] {
      VersionKept(p, lines[..|lines| - 1]);
    }
  }

  // ----- The writer -----

  /** What the engine appends to its journal, one line each. */
  datatype Event = Recorded(undo: Undo) | Restored(from: Path) | Committed

  function Joined(fields: seq<string>): string
    requires fields != []
  {
    if |fields| == 1 then fields[0] else fields[0] + "|" + Joined(fields[1..])
  }

  /** The fields of `journal_write_undo`, `journal_write_restored` and `journal_write_commit`. */
  function FieldsOf(e: Event): (fields: seq<string>)
    ensures fields != []
  {
    match e
    case Recorded(RemovePath(from)) => ["UNDO", "REMOVE", Escaped(from)]
    case Recorded(MovePath(from, to)) => ["UNDO", "MOVE", Escaped(from), Escaped(to)]
    case Recorded(ReplaceFile(from, to, newWitness, staging, oldStamp, newStamp)) =>
      ["UNDO", "REPLACE", Escaped(from), Escaped(to), Escaped(newWitness), Escaped(staging), oldStamp, newStamp]
    case Restored(from) => ["RESTORED", Escaped(from)]
    case Committed => ["COMMIT"]
  }

  function LineOf(e: Event): string {
    Joined(FieldsOf(e))
  }

  /** The bytes of a version 4 journal to which these events have been appended. */
  function JournalText(events: seq<Event>): string {
    if events == [] then "FSXJ4\n" else JournalText(events[..|events| - 1]) + LineOf(events[|events| - 1]) + "\n"
  }

  /** The event may follow in a journal that reads as p. */
  predicate MayFollow(p: Parsed, e: Event) {
    !p.committed &&
    match e
    case Recorded(u) => AcceptableNext(p.undos, u)
    case Restored(from) =>
      from != "" && FindReplacement(p.undos, from).Some? && !p.undos[FindReplacement(p.undos, from).value].restored
    case Committed => true
  }

  /** What the journal means after the event. */
  function After(p: Parsed, e: Event): Parsed
    requires MayFollow(p, e)
  {
    match e
    case Recorded(u) => p.(undos := p.undos + [Marked(u)])
    case Restored(from) =>
      var i := FindReplacement(p.undos, from).value;
      p.(undos := p.undos[i := p.undos[i].(restored := true)])
    case Committed => p.(committed := true)
  }

  /** What a sequence of events means, if each may follow those before it. */
  function Meaning(events: seq<Event>): Option<Parsed> {
    if events == [] then Some(Parsed(4, [], false))
    else
      var before := Meaning(events[..|events| - 1]);
      if before.None? || !MayFollow(before.value, events[|events| - 1]) then None
      else Some(After(before.value, events[|events| - 1]))
  }

  lemma {:induction false} SplitJoined(fields: seq<string>)
    requires fields != [] && forall i :: 0 <= i < |fields| ==> '|' !in fields[i]
    ensures Split(Joined(fields), '|') == fields
  {
    if |fields| == 1 {
      SplitField(fields[0], "", '|');
    } else {
      SplitField(fields[0], Joined(fields[1..]), '|');
      assert forall i :: 0 <= i < |fields| - 1 ==> fields[1..][i] == fields[i + 1];
      SplitJoined(fields[1..]);
      assert Joined(fields) == fields[0] + ['|'] + Joined(fields[1..]);
    }
  }

  lemma {:induction false} JoinedPlain(fields: seq<string>)
    requires fields != [] && forall i :: 0 <= i < |fields| ==> '\n' !in fields[i]
    ensures '\n' !in Joined(fields)
  {
    if 1 < |fields| {
      assert forall i :: 0 <= i < |fields| - 1 ==> fields[1..][i] == fields[i + 1];
      JoinedPlain(fields[1..]);
    }
  }

  lemma {:induction false} StampIsPlain(stamp: string, fields: nat, digit: bool, start: bool)
    requires StampFields(stamp, fields, digit, start).Some?
    ensures '|' !in stamp && '\n' !in stamp && ValidRest(stamp)
  {
    if stamp != "" {
      if stamp[0] == ':' {
        StampIsPlain(stamp[1..], fields + 1, false, true);
      } else if IsDigit(stamp[0]) {
        StampIsPlain(stamp[1..], fields, true, false);
      } else {
        StampIsPlain(stamp[1..], fields, digit, false);
      }
      assert stamp == [stamp[0]] + stamp[1..];
    }
  }

  lemma {:induction false} PlainIsField(s: string)
    requires '%' !in s
    ensures ValidRest(s)
  {
    if s != "" {
      PlainIsField(s[1..]);
    }
  }

  /** A field the parser accepts and keeps apart from its neighbours. */
  predicate Plain(field: string) {
    '|' !in field && '\n' !in field && ValidField(field)
  }

  lemma PlainWord(word: string)
    requires word != "" && forall i :: 0 <= i < |word| ==> 'A' <= word[i] <= 'Z'
    ensures Plain(word)
  {
    PlainIsField(word);
  }

  lemma PlainPath(u: Undo, p: Path)
    requires AllAbsolute(u) && p in PathsOf(u)
    ensures Plain(Escaped(p)) && p != ""
  {
    FieldRoundTrip(p);
  }

  lemma PlainStamp(stamp: string)
    requires ValidStamp(stamp)
    ensures Plain(stamp)
  {
    StampIsPlain(stamp, 1, false, true);
  }

  /** Every field the writer produces is plain. */
  lemma FieldsArePlain(p: Parsed, e: Event)
    requires MayFollow(p, e)
    ensures forall i :: 0 <= i < |FieldsOf(e)| ==> Plain(FieldsOf(e)[i])
  {
    hide Escaped, Plain, HasRemoval, IsStagingName, AllAbsolute;
    match e
    case Recorded(RemovePath(from)) =>
      PlainWord("UNDO"); PlainWord("REMOVE");
      PlainPath(e.undo, from);
    case Recorded(MovePath(from, to)) =>
      PlainWord("UNDO"); PlainWord("MOVE");
      PlainPath(e.undo, from); PlainPath(e.undo, to);
    case Recorded(ReplaceFile(from, to, newWitness, staging, oldStamp, newStamp)) =>
      PlainWord("UNDO"); PlainWord("REPLACE");
      PlainPath(e.undo, from); PlainPath(e.undo, to); PlainPath(e.undo, newWitness); PlainPath(e.undo, staging);
      PlainStamp(oldStamp); PlainStamp(newStamp);
    case Restored(from) =>
      PlainWord("RESTORED");
      PlainRestored(from);
    case Committed => PlainWord("COMMIT");
  }

  lemma PlainRestored(from: Path)
    requires from != ""
    ensures Plain(Escaped(from))
  {
    FieldRoundTrip(from);
  }

  /** Reading the fields of a record or marker has the effect of the event. */
  lemma FieldsRead(p: Parsed, e: Event)
    requires p.version == 4 && MayFollow(p, e) && !e.Committed?
    ensures ReadRecord(4, p.undos, FieldsOf(e)) == Ok(After(p, e).undos)
  {
    hide Escaped, Unescaped, ValidField, AllAbsolute;
    FieldsArePlain(p, e);
    match e
    case Recorded(RemovePath(from)) => FieldRoundTrip(from);
    case Recorded(MovePath(from, to)) => FieldRoundTrip(from); FieldRoundTrip(to);
    case Recorded(ReplaceFile(from, to, newWitness, staging, _, _)) =>
      FieldRoundTrip(from); FieldRoundTrip(to); FieldRoundTrip(newWitness); FieldRoundTrip(staging);
    case Restored(from) => FieldRoundTrip(from);
  }

  /** Reading the line of an event has the effect of the event. */
  lemma LineReads(p: Parsed, e: Event)
    requires p.version == 4 && MayFollow(p, e)
    ensures ReadLine(p, LineOf(e)) == Ok(After(p, e))
    ensures '\n' !in LineOf(e) && LineOf(e) != ""
  {
    hide Escaped, Unescaped, ValidField, AcceptableNext, ReadRecord, MayFollow;
    var fields := FieldsOf(e);
    FieldsArePlain(p, e);
    FirstFieldNotEmpty(p, e);
    SplitJoined(fields);
    JoinedPlain(fields);
    SplitField("COMMIT", "", '|');
    if !e.Committed? {
      FieldsRead(p, e);
    }
    StillOpen(p, e);
  }

  lemma StillOpen(p: Parsed, e: Event)
    requires MayFollow(p, e)
    ensures !p.committed
  {
  }

  lemma FirstFieldNotEmpty(p: Parsed, e: Event)
    ensures FieldsOf(e)[0] != "" && Split("", '|') == [""]
    ensures !e.Committed? ==> |FieldsOf(e)| > 1
    ensures e.Committed? ==> LineOf(e) == "COMMIT"
  {
  }

  // ----- Appending lines -----

  /** Two lists of parts where the last part of the first runs on into the first of the second. */
  function Glued(x: seq<string>, y: seq<string>): seq<string>
    requires x != [] && y != []
  {
    x[..|x| - 1] + [x[|x| - 1] + y[0]] + y[1..]
  }

  lemma GluedAfterSeparator(x: seq<string>, y: seq<string>)
    requires x != [] && y != []
    ensures Glued([""] + x, y) == [""] + Glued(x, y)
  {
    assert ([""] + x)[..|x|] == [""] + x[..|x| - 1];
  }

  lemma GluedAfterChar(c: char, x: seq<string>, y: seq<string>)
    requires x != [] && y != []
    ensures Glued([[c] + x[0]] + x[1..], y) == [[c] + Glued(x, y)[0]] + Glued(x, y)[1..]
  {
    var longer := [[c] + x[0]] + x[1..];
    if |x| == 1 {
      assert [c] + (x[0] + y[0]) == [c] + x[0] + y[0];
    } else {
      assert longer[..|x| - 1] == [[c] + x[0]] + x[1..|x| - 1];
      assert Glued(x, y)[1..] == x[1..|x| - 1] + [x[|x| - 1] + y[0]] + y[1..];
    }
  }

  lemma {:induction false} SplitConcat(a: string, b: string, sep: char)
    ensures Split(a + b, sep) == Glued(Split(a, sep), Split(b, sep))
  {
    var y := Split(b, sep);
    if a == "" {
      assert a + b == b;
      assert "" + y[0] == y[0];
    } else {
      assert (a + b)[1..] == a[1..] + b;
      SplitConcat(a[1..], b, sep);
      GluedAfterSeparator(Split(a[1..], sep), y);
      GluedAfterChar(a[0], Split(a[1..], sep), y);
    }
  }

  /** Appending one line to a text that ends with a newline. */
  lemma LinesAppend(text: string, line: string)
    requires Split(text, '\n')[|Split(text, '\n')| - 1] == "" && '\n' !in line
    ensures Lines(text + line + "\n") == Lines(text) + [line]
    ensures var parts := Split(text + line + "\n", '\n'); parts[|parts| - 1] == ""
  {
    hide Split;
    SplitField(line, "", '\n');
    assert Split("", '\n') == [""] by { SplitNothing('\n'); }
    SplitConcat(text, line + "\n", '\n');
    assert text + (line + "\n") == text + line + "\n";
    assert line + ['\n'] + "" == line + "\n";
    assert "" + line == line;
  }

  lemma SplitNothing(sep: char)
    ensures Split("", sep) == [""]
  {
  }

  function LinesOf(events: seq<Event>): seq<string> {
    if events == [] then [] else LinesOf(events[..|events| - 1]) + [LineOf(events[|events| - 1])]
  }

  lemma {:induction false} TextLines(events: seq<Event>)
    requires Meaning(events).Some?
    ensures Lines(JournalText(events)) == ["FSXJ4"] + LinesOf(events)
    ensures var parts := Split(JournalText(events), '\n'); parts[|parts| - 1] == ""
    ensures ReadLines(Parsed(4, [], false), LinesOf(events)) == Ok(Meaning(events).value)
    ensures Meaning(events).value.version == 4
  {
    hide Split, LineOf, MayFollow, ReadLine, Lines;
    if events == [] {
      HeaderLine();
    } else {
      var front, last := events[..|events| - 1], events[|events| - 1];
      TextLines(front);
      LineReads(Meaning(front).value, last);
      LinesAppend(JournalText(front), LineOf(last));
      assert ["FSXJ4"] + LinesOf(events) == ["FSXJ4"] + LinesOf(front) + [LineOf(last)];
      assert LinesOf(events)[..|LinesOf(events)| - 1] == LinesOf(front);
    }
  }

  lemma HeaderLine()
    ensures Lines("FSXJ4\n") == ["FSXJ4"]
    ensures var parts := Split("FSXJ4\n", '\n'); parts[|parts| - 1] == ""
  {
    SplitField("FSXJ4", "", '\n');
    assert "FSXJ4" + ['\n'] + "" == "FSXJ4\n";
  }

  lemma {:induction false} MeaningAbsolute(events: seq<Event>)
    requires Meaning(events).Some?
    ensures AllPathsAbsolute(Meaning(events).value.undos)
  {
    hide WitnessReferences, AllAbsolute;
    if events != [] {
      MeaningAbsolute(events[..|events| - 1]);
      var before, after := Meaning(events[..|events| - 1]).value.undos, Meaning(events).value.undos;
      forall i | 0 <= i < |after| ensures AllAbsolute(after[i].undo) {
        if i < |before| {
          assert AllAbsolute(before[i].undo);
        }
      }
    }
  }

  /** Reading back a journal gives exactly what was appended to it. */
  lemma JournalReads(events: seq<Event>)
    requires Meaning(events).Some?
    ensures ReadText(JournalText(events)) == Ok(Meaning(events).value)
  {
    hide Lines, ReadLines, LinesOf, JournalText, AllPathsAbsolute, Meaning;
    TextLines(events);
    MeaningAbsolute(events);
    assert (["FSXJ4"] + LinesOf(events))[1..] == LinesOf(events);
  }

  function RecordsOf(log: seq<Marked>): (events: seq<Event>)
    ensures |events| == |log|
  {
    seq(|log|, i requires 0 <= i < |log| => Recorded(log[i].undo))
  }

  /** The log as the journal keeps it: steps and marks are not recorded. */
  function Unmarked(log: seq<Marked>): (bare: seq<Marked>)
    ensures |bare| == |log| && SameUndos(bare, log)
  {
    seq(|log|, i requires 0 <= i < |log| => Marked(log[i].undo))
  }

  lemma {:induction false} RecordsMean(log: seq<Marked>)
    requires Acceptable(log)
    ensures Meaning(RecordsOf(log)) == Some(Parsed(4, Unmarked(log), false))
  {
    hide AcceptableNext;
    if log != [] {
      var front := log[..|log| - 1];
      forall i | 0 <= i < |front| ensures AcceptableNext(front[..i], front[i].undo) {
        assert AcceptableNext(log[..i], log[i].undo);
        assert front[..i] == log[..i];
      }
      RecordsMean(front);
      assert RecordsOf(log)[..|log| - 1] == RecordsOf(front);
      assert AcceptableNext(log[..|log| - 1], log[|log| - 1].undo);
      SameUndosNext(front, Unmarked(front), log[|log| - 1].undo);
      assert Unmarked(log) == Unmarked(front) + [Marked(log[|log| - 1].undo)];
    }
  }

  /** For every log a run can leave behind, with or without the final COMMIT, reading the journal
      written for it yields that record list and that commit flag. */
  lemma RunJournalReads(log: seq<Marked>, committed: bool)
    requires Acceptable(log)
    ensures ReadText(JournalText(if committed then RecordsOf(log) + [Committed] else RecordsOf(log)))
      == Ok(Parsed(4, Unmarked(log), committed))
  {
    hide JournalText, ReadText, Acceptable, Meaning, RecordsOf, Unmarked;
    RecordsMean(log);
    var events := RecordsOf(log);
    if committed {
      MeaningCommitted(events);
      JournalReads(events + [Committed]);
    } else {
      JournalReads(events);
    }
  }

  lemma MeaningCommitted(events: seq<Event>)
    requires Meaning(events).Some? && !Meaning(events).value.committed
    ensures Meaning(events + [Committed]) == Some(Meaning(events).value.(committed := true))
  {
    assert (events + [Committed])[..|events|] == events;
  }

  /** A marker appended to a journal marks the record it was written for. */
  lemma MarkerReads(events: seq<Event>, i: nat)
    requires Meaning(events).Some? && !Meaning(events).value.committed
    requires var undos := Meaning(events).value.undos;
      Acceptable(undos) && i < |undos| && undos[i].undo.ReplaceFile? && !undos[i].restored
    ensures var undos := Meaning(events).value.undos;
      ReadText(JournalText(events + [Restored(undos[i].undo.from)]))
        == Ok(Parsed(4, undos[i := undos[i].(restored := true)], false))
  {
    hide JournalText, ReadText, Acceptable, FindReplacement, AcceptableNext;
    var p := Meaning(events).value;
    var from := p.undos[i].undo.from;
    MarkerFindsItsRecord(p.undos, i);
    AbsoluteNotEmpty(p.undos, i);
    TextLines(events);
    var more := events + [Restored(from)];
    assert more[..|events|] == events;
    assert MayFollow(p, Restored(from));
    JournalReads(more);
  }

  lemma AbsoluteNotEmpty(log: seq<Marked>, i: nat)
    requires Acceptable(log) && i < |log| && log[i].undo.ReplaceFile?
    ensures log[i].undo.from != ""
  {
    assert AcceptableNext(log[..i], log[i].undo);
    assert log[i].undo.from in PathsOf(log[i].undo);
  }
}
