/** The journal texts that the parser accepts, in all versions, as a grammar: fields, lines and the events
    they stand for. */
module FsxJournalGrammar {
  import opened FsxJournal
  import opened FsxNames
  import opened FsxReplay
  import opened FsxSound
  import opened FsxStore
  import opened FsxUndo
  import opened Text

  // ----- Fields -----

  /** A character as it stands, or two hexadecimal digits behind a percent sign. */
  datatype Piece = Bare(c: char) | Hex(high: char, low: char)

  function PieceText(p: Piece): string {
    match p
    case Bare(c) => [c]
    case Hex(high, low) => ['%', high, low]
  }

  ghost predicate Spells(p: Piece, c: char) {
    match p
    case Bare(b) => b != '%' && c == b
    case Hex(high, low) =>
      exists h: nat, l: nat :: IsHexDigit(high, h) && IsHexDigit(low, l) && c == (h * 16 + l) as char
  }

  function TextOf(pieces: seq<Piece>): string {
    if pieces == [] then "" else PieceText(pieces[0]) + TextOf(pieces[1..])
  }

  /** The field stands for this text. */
  ghost predicate FieldSays(field: string, s: string) {
    exists pieces :: PiecesSay(pieces, field, s)
  }

  ghost predicate PiecesSay(pieces: seq<Piece>, field: string, s: string) {
    && field == TextOf(pieces) && |s| == |pieces|
    && forall i :: 0 <= i < |s| ==> Spells(pieces[i], s[i])
  }

  lemma HexSays(high: char, low: char, c: char)
    ensures Spells(Hex(high, low), c) <==>
      HexValue(high).Some? && HexValue(low).Some? && c == (HexValue(high).value * 16 + HexValue(low).value) as char
  {
    hide HexValue;
    if HexValue(high).Some? && HexValue(low).Some? {
      HexValueIff(high, HexValue(high).value);
      HexValueIff(low, HexValue(low).value);
    }
    if Spells(Hex(high, low), c) {
      var h: nat, l: nat :| IsHexDigit(high, h) && IsHexDigit(low, l) && c == (h * 16 + l) as char;
      HexValueIff(high, h);
      HexValueIff(low, l);
    }
  }

  lemma {:induction false} PiecesFound(field: string) returns (pieces: seq<Piece>)
    requires ValidRest(field)
    ensures PiecesSay(pieces, field, Unescaped(field))
    decreases |field|
  {
    hide HexValue, Unescaped, ValidRest, Spells;
    if field == "" {
      pieces := [];
      UnescapeEnd("");
    } else {
      UnescapedStep(field);
      var first := if field[0] == '%' then Hex(field[1], field[2]) else Bare(field[0]);
      var rest := field[|PieceText(first)|..];
      var more := PiecesFound(rest);
      pieces := [first] + more;
      PieceSays(field, first);
      assert pieces[1..] == more;
      assert field == PieceText(first) + rest;
    }
  }

  lemma PieceSays(field: string, first: Piece)
    requires field != "" && ValidRest(field)
    requires first == if field[0] == '%' then Hex(field[1], field[2]) else Bare(field[0])
    ensures |PieceText(first)| <= |field| && field[..|PieceText(first)|] == PieceText(first)
    ensures Unescaped(field) != "" && Spells(first, Unescaped(field)[0])
    ensures Unescaped(field)[1..] == Unescaped(field[|PieceText(first)|..])
  {
    hide HexValue, Unescaped, ValidRest, Spells;
    UnescapedStep(field);
    if field[0] == '%' {
      HexSays(field[1], field[2], Unescaped(field)[0]);
    } else {
      BareSays(field[0]);
    }
  }

  lemma BareSays(c: char)
    ensures Spells(Bare(c), c) <==> c != '%'
  {
  }

  lemma {:induction false} PiecesRead(pieces: seq<Piece>, field: string, s: string)
    requires PiecesSay(pieces, field, s)
    ensures ValidRest(field) && Unescaped(field) == s
    decreases |pieces|
  {
    hide HexValue, Unescaped, ValidRest, Spells;
    if pieces == [] {
      UnescapeEnd("");
      NoRest();
    } else {
      var first, rest := pieces[0], TextOf(pieces[1..]);
      assert field == PieceText(first) + rest;
      assert field[|PieceText(first)|..] == rest;
      PiecesRead(pieces[1..], rest, s[1..]);
      PieceReads(first, rest, s[0]);
      assert s == [s[0]] + s[1..];
    }
  }

  lemma NoRest()
    ensures ValidRest("")
  {
  }

  lemma PieceReads(first: Piece, rest: string, c: char)
    requires Spells(first, c) && ValidRest(rest)
    ensures ValidRest(PieceText(first) + rest) && Unescaped(PieceText(first) + rest) == [c] + Unescaped(rest)
  {
    hide HexValue, Unescaped, ValidRest;
    var field := PieceText(first) + rest;
    assert field[|PieceText(first)|..] == rest;
    UnescapedStep(field);
    if first.Hex? {
      HexSays(first.high, first.low, c);
    }
  }

  /** A field is valid and read as this text exactly if it says it. */
  lemma FieldIff(field: string, s: string)
    ensures ValidField(field) && Unescaped(field) == s <==> s != "" && FieldSays(field, s)
  {
    hide Unescaped, ValidRest, PiecesSay;
    if ValidField(field) {
      var pieces := PiecesFound(field);
      SameEmptiness(pieces, field, Unescaped(field));
    }
    if s != "" && FieldSays(field, s) {
      var pieces :| PiecesSay(pieces, field, s);
      PiecesRead(pieces, field, s);
      SameEmptiness(pieces, field, s);
    }
  }

  lemma SameEmptiness(pieces: seq<Piece>, field: string, s: string)
    requires PiecesSay(pieces, field, s)
    ensures field == "" <==> s == ""
  {
  }

  // ----- Stamps -----

  /** Digits, possibly with a minus sign in front. */
  predicate IsSigned(s: string) {
    var digits := if s != "" && s[0] == '-' then s[1..] else s;
    digits != "" && AllDigits(digits)
  }

  /** What is left of a field of which `digit` and `start` tell how far it has been read. */
  predicate Completes(s: string, digit: bool, start: bool) {
    if digit then AllDigits(s)
    else if start then IsSigned(s)
    else s != "" && AllDigits(s)
  }

  ghost predicate AllSigned(parts: seq<string>) {
    forall i :: 0 <= i < |parts| ==> IsSigned(parts[i])
  }

  lemma {:induction false} StampFieldsIff(s: string, fields: nat, digit: bool, start: bool, total: nat)
    requires digit ==> !start
    ensures StampFields(s, fields, digit, start) == Some(total) <==>
      var parts := Split(s, ':');
      total + 1 == fields + |parts| && Completes(parts[0], digit, start) && AllSigned(parts[1..])
    decreases |s|
  {
    var parts := Split(s, ':');
    if s != "" {
      var rest := Split(s[1..], ':');
      if s[0] == ':' {
        StampFieldsIff(s[1..], fields + 1, false, true, total);
        assert parts[1..] == rest;
        assert AllSigned(rest) <==> IsSigned(rest[0]) && AllSigned(rest[1..]) by {
          AllSignedStep(rest);
        }
      } else {
        assert parts[0] == [s[0]] + rest[0] && parts[1..] == rest[1..];
        assert parts[0][1..] == rest[0];
        DigitsStep(s[0], rest[0]);
        if IsDigit(s[0]) {
          StampFieldsIff(s[1..], fields, true, false, total);
        } else if s[0] == '-' && start {
          StampFieldsIff(s[1..], fields, digit, false, total);
        }
      }
    } else {
      assert parts == [""];
    }
  }

  lemma AllSignedStep(parts: seq<string>)
    requires parts != []
    ensures AllSigned(parts) <==> IsSigned(parts[0]) && AllSigned(parts[1..])
  {
    hide IsSigned;
    var rest := parts[1..];
    assert parts == [parts[0]] + rest;
  }

  lemma DigitsStep(c: char, s: string)
    ensures AllDigits([c] + s) <==> IsDigit(c) && AllDigits(s)
  {
    assert ([c] + s)[0] == c;
    assert forall i :: 0 <= i < |s| ==> ([c] + s)[i + 1] == s[i];
  }

  /** A stamp is seven numbers with colons between, and at most 256 characters long. */
  lemma StampIff(stamp: string)
    ensures ValidStamp(stamp) <==>
      |stamp| <= 256 && |Split(stamp, ':')| == 7 && forall i :: 0 <= i < 7 ==> IsSigned(Split(stamp, ':')[i])
  {
    hide Split, IsSigned, StampFields;
    StampFieldsIff(stamp, 1, false, true, 7);
    AllSignedStep(Split(stamp, ':'));
    StartCompletes(Split(stamp, ':')[0]);
  }

  lemma StartCompletes(s: string)
    ensures Completes(s, false, true) <==> IsSigned(s)
  {
  }

  // ----- Lines -----

  lemma {:induction false} JoinedSplit(line: string)
    ensures Joined(Split(line, '|')) == line
    ensures forall i :: 0 <= i < |Split(line, '|')| ==> '|' !in Split(line, '|')[i]
  {
    var parts := Split(line, '|');
    if line != "" {
      JoinedSplit(line[1..]);
      var rest := Split(line[1..], '|');
      if line[0] == '|' {
        assert parts[1..] == rest;
        assert line == "" + "|" + line[1..];
      } else {
        assert parts[0] == [line[0]] + rest[0] && parts[1..] == rest[1..];
        assert line == [line[0]] + Joined(rest);
      }
    }
  }

  /** The fields of a line are these. */
  ghost predicate HasFields(line: string, fields: seq<string>) {
    fields != [] && line == Joined(fields) && forall i :: 0 <= i < |fields| ==> '|' !in fields[i]
  }

  lemma FieldsIff(line: string, fields: seq<string>)
    ensures Split(line, '|') == fields <==> HasFields(line, fields)
  {
    hide Split;
    JoinedSplit(line);
    if HasFields(line, fields) {
      SplitJoined(fields);
    }
  }

  ghost predicate Says(field: string, s: string) {
    s != "" && FieldSays(field, s)
  }

  /** The fields stand for this event. */
  ghost predicate FieldsSay(fields: seq<string>, e: Event) {
    match e
    case Recorded(RemovePath(from)) =>
      |fields| == 3 && fields[..2] == ["UNDO", "REMOVE"] && Says(fields[2], from)
    case Recorded(MovePath(from, to)) =>
      |fields| == 4 && fields[..2] == ["UNDO", "MOVE"] && Says(fields[2], from) && Says(fields[3], to)
    case Recorded(ReplaceFile(from, to, newWitness, staging, oldStamp, newStamp)) =>
      && |fields| == 8 && fields[..2] == ["UNDO", "REPLACE"] && fields[6..] == [oldStamp, newStamp]
      && Says(fields[2], from) && Says(fields[3], to) && Says(fields[4], newWitness) && Says(fields[5], staging)
    case Restored(from) => |fields| == 2 && fields[0] == "RESTORED" && Says(fields[1], from)
    case Committed => fields == ["COMMIT"]
  }

  ghost predicate LineSays(line: string, e: Event) {
    exists fields :: HasFields(line, fields) && FieldsSay(fields, e)
  }

  /** The event may come next in a journal of this version: after COMMIT nothing may; replacements and markers
      only in version 4, where a replacement refers to its witnesses and a marker to one open replacement;
      COMMIT not in version 1. */
  ghost predicate MayCome(p: Parsed, e: Event) {
    !p.committed &&
    match e
    case Recorded(u) => u.ReplaceFile? ==> p.version == 4 && WitnessReferences(p.undos, u)
    case Restored(from) => p.version == 4 && exists i :: OpenReplacement(p.undos, from, i)
    case Committed => p.version != 1
  }

  /** Record i is the first replacement from this path, and has not been restored. */
  ghost predicate OpenReplacement(undos: seq<Marked>, from: Path, i: nat) {
    && i < |undos| && undos[i].undo.ReplaceFile? && undos[i].undo.from == from && !undos[i].restored
    && forall j :: 0 <= j < i && undos[j].undo.ReplaceFile? ==> undos[j].undo.from != from
  }

  /** What the journal means after the event. */
  ghost predicate Leads(p: Parsed, e: Event, q: Parsed) {
    match e
    case Recorded(u) => q == p.(undos := p.undos + [Marked(u)])
    case Restored(from) =>
      exists i: nat ::
        OpenReplacement(p.undos, from, i) && q == p.(undos := p.undos[i := p.undos[i].(restored := true)])
    case Committed => q == p.(committed := true)
  }

  /** A line that may come next, and what it leads to; empty lines are passed over. */
  ghost predicate LineLeads(p: Parsed, line: string, q: Parsed) {
    if line == "" then q == p else exists e :: LineSays(line, e) && MayCome(p, e) && Leads(p, e, q)
  }

  lemma OpenIff(undos: seq<Marked>, from: Path, i: nat)
    ensures OpenReplacement(undos, from, i) <==>
      FindReplacement(undos, from) == Some(i) && !undos[i].restored
  {
    var found := FindReplacement(undos, from);
  }

  ghost predicate AllValid(fields: seq<string>) {
    forall i :: 0 <= i < |fields| ==> ValidField(fields[i])
  }

  lemma SaidFieldIsValid(field: string, s: string)
    requires Says(field, s)
    ensures ValidField(field) && Unescaped(field) == s
  {
    FieldIff(field, s);
  }

  lemma ValidFieldSays(field: string)
    requires ValidField(field)
    ensures Says(field, Unescaped(field))
  {
    hide Unescaped;
    FieldIff(field, Unescaped(field));
  }

  /** The event that fields stand for is read. */
  lemma FieldsLead(p: Parsed, fields: seq<string>, e: Event, q: Parsed)
    requires FieldsSay(fields, e) && !e.Committed? && MayCome(p, e) && Leads(p, e, q)
    ensures ReadRecord(p.version, p.undos, fields) == Ok(q.undos) && q == p.(undos := q.undos)
  {
    hide ValidField, Unescaped, WitnessReferences, FieldSays;
    WordsAreValid();
    match e
    case Recorded(RemovePath(from)) =>
      SaidFieldIsValid(fields[2], from);
    case Recorded(MovePath(from, to)) =>
      SaidFieldIsValid(fields[2], from);
      SaidFieldIsValid(fields[3], to);
    case Recorded(ReplaceFile(from, to, newWitness, staging, oldStamp, newStamp)) =>
      ReplacementLeads(p, fields, e.undo);
    case Restored(from) =>
      SaidFieldIsValid(fields[1], from);
      var i: nat :| OpenReplacement(p.undos, from, i) && q == p.(undos := p.undos[i := p.undos[i].(restored := true)]);
      OpenIff(p.undos, from, i);
  }

  lemma ReplacementLeads(p: Parsed, fields: seq<string>, u: Undo)
    requires u.ReplaceFile? && FieldsSay(fields, Recorded(u)) && p.version == 4 && WitnessReferences(p.undos, u)
    ensures ReadRecord(4, p.undos, fields) == Ok(p.undos + [Marked(u)])
  {
    hide ValidField, Unescaped, FieldSays, IsStagingName, HasRemoval, ValidStamp;
    WordsAreValid();
    SaidFieldIsValid(fields[2], u.from);
    SaidFieldIsValid(fields[3], u.to);
    SaidFieldIsValid(fields[4], u.newWitness);
    SaidFieldIsValid(fields[5], u.staging);
    assert fields[6] == fields[6..][0] && fields[7] == fields[6..][1];
    StampIsValid(u.oldStamp);
    StampIsValid(u.newStamp);
    assert fields[0] == fields[..2][0] && fields[1] == fields[..2][1];
    hide WitnessReferences;
  }

  lemma StampIsValid(stamp: string)
    requires ValidStamp(stamp)
    ensures ValidField(stamp)
  {
    PlainStamp(stamp);
  }

  lemma WordsAreValid()
    ensures ValidField("UNDO") && ValidField("REMOVE") && ValidField("MOVE") && ValidField("REPLACE")
    ensures ValidField("RESTORED") && ValidField("COMMIT")
  {
    hide ValidField, ValidRest;
    PlainWord("UNDO");
    PlainWord("REMOVE");
    PlainWord("MOVE");
    PlainWord("REPLACE");
    PlainWord("RESTORED");
    PlainWord("COMMIT");
  }

  /** The event that was read. */
  lemma EventFound(p: Parsed, fields: seq<string>) returns (e: Event)
    requires !p.committed && ReadRecord(p.version, p.undos, fields).Ok?
    ensures FieldsSay(fields, e) && MayCome(p, e) && !e.Committed?
    ensures Leads(p, e, p.(undos := ReadRecord(p.version, p.undos, fields).value))
  {
    hide ValidField, Unescaped, WitnessReferences, FieldSays, Says, OpenReplacement;
    forall i | 0 <= i < |fields| ensures Says(fields[i], Unescaped(fields[i])) {
      ValidFieldSays(fields[i]);
    }
    if |fields| == 2 {
      e := Restored(Unescaped(fields[1]));
      OpenIff(p.undos, Unescaped(fields[1]), FindReplacement(p.undos, Unescaped(fields[1])).value);
    } else if |fields| == 3 {
      e := Recorded(RemovePath(Unescaped(fields[2])));
    } else if |fields| == 4 {
      e := Recorded(MovePath(Unescaped(fields[2]), Unescaped(fields[3])));
    } else {
      e := Recorded(ReplaceFile(Unescaped(fields[2]), Unescaped(fields[3]), Unescaped(fields[4]), Unescaped(fields[5]),
        fields[6], fields[7]));
    }
  }

  lemma CommitLine(line: string)
    ensures LineSays(line, Committed) <==> line == "COMMIT"
  {
    assert Joined(["COMMIT"]) == "COMMIT";
    assert HasFields("COMMIT", ["COMMIT"]);
  }

  lemma CommitIsNoRecord(p: Parsed)
    ensures ReadRecord(p.version, p.undos, Split("COMMIT", '|')).Err?
  {
    SplitField("COMMIT", "", '|');
  }

  /** One line is accepted exactly if it says an event that may come next. */
  lemma LineIff(p: Parsed, line: string, q: Parsed)
    ensures ReadLine(p, line) == Ok(q) <==> LineLeads(p, line, q)
  {
    hide ReadRecord, Split, FieldsSay, HasFields, Leads;
    if line != "" {
      CommitLine(line);
      CommitIsNoRecord(p);
      var fields := Split(line, '|');
      FieldsIff(line, fields);
      if ReadLine(p, line) == Ok(q) {
        if line == "COMMIT" {
          assert LineSays(line, Committed) && MayCome(p, Committed) && Leads(p, Committed, q) by { CommitLeads(p, q); }
        } else {
          var e := EventFound(p, fields);
          assert LineSays(line, e);
        }
      }
      if LineLeads(p, line, q) {
        var e :| LineSays(line, e) && MayCome(p, e) && Leads(p, e, q);
        CommitLeads(p, q);
        if !e.Committed? {
          var f :| HasFields(line, f) && FieldsSay(f, e);
          FieldsIff(line, f);
          FieldsLead(p, fields, e, q);
        }
      }
    }
  }

  lemma CommitLeads(p: Parsed, q: Parsed)
    ensures Leads(p, Committed, q) <==> q == p.(committed := true)
  {
  }

  // ----- Texts -----

  /** Lines that lead, one after the other, from one state of the parser to another. */
  ghost predicate LinesLead(p: Parsed, lines: seq<string>, q: Parsed) {
    exists states :: IsRun(states, p, lines, q)
  }

  ghost predicate IsRun(states: seq<Parsed>, p: Parsed, lines: seq<string>, q: Parsed) {
    && |states| == |lines| + 1 && states[0] == p && states[|lines|] == q
    && forall i :: 0 <= i < |lines| ==> LineLeads(states[i], lines[i], states[i + 1])
  }

  lemma {:induction false} RunFound(p: Parsed, lines: seq<string>) returns (states: seq<Parsed>)
    requires ReadLines(p, lines).Ok?
    ensures IsRun(states, p, lines, ReadLines(p, lines).value)
    decreases |lines|
  {
    hide ReadLine, LineLeads;
    if lines == [] {
      states := [p];
    } else {
      var init, last := lines[..|lines| - 1], lines[|lines| - 1];
      var before := RunFound(p, init);
      var mid, q := ReadLines(p, init).value, ReadLines(p, lines).value;
      LineIff(mid, last, q);
      states := before + [q];
      forall i | 0 <= i < |lines| ensures LineLeads(states[i], lines[i], states[i + 1]) {
        assert i < |init| ==> init[i] == lines[i] && before[i + 1] == states[i + 1];
      }
    }
  }

  lemma {:induction false} RunReads(states: seq<Parsed>, p: Parsed, lines: seq<string>, q: Parsed)
    requires IsRun(states, p, lines, q)
    ensures ReadLines(p, lines) == Ok(q)
    decreases |lines|
  {
    hide ReadLine, LineLeads;
    if lines != [] {
      var n := |lines| - 1;
      assert LineLeads(states[n], lines[n], states[n + 1]);
      RunReads(states[..n + 1], p, lines[..n], states[n]);
      LineIff(states[n], lines[n], q);
    }
  }

  lemma LinesIff(p: Parsed, lines: seq<string>, q: Parsed)
    ensures ReadLines(p, lines) == Ok(q) <==> LinesLead(p, lines, q)
  {
    hide ReadLines, IsRun;
    if ReadLines(p, lines) == Ok(q) {
      var states := RunFound(p, lines);
    }
    if LinesLead(p, lines, q) {
      var states :| IsRun(states, p, lines, q);
      RunReads(states, p, lines, q);
    }
  }

  /** Lines ended by newlines; the last one, if it is not empty, may lack its own. */
  ghost predicate IsTextOf(text: string, lines: seq<string>) {
    && (forall i :: 0 <= i < |lines| ==> '\n' !in lines[i])
    && (text == Ended(lines) || (lines != [] && lines[|lines| - 1] != "" && text + "\n" == Ended(lines)))
  }

  function Ended(lines: seq<string>): string {
    if lines == [] then "" else lines[0] + "\n" + Ended(lines[1..])
  }

  /** The parts of a text between newlines, each followed by one. */
  lemma {:induction false} EndedParts(text: string)
    ensures Ended(Split(text, '\n')) == text + "\n"
    ensures forall i :: 0 <= i < |Split(text, '\n')| ==> '\n' !in Split(text, '\n')[i]
  {
    var parts := Split(text, '\n');
    if text != "" {
      EndedParts(text[1..]);
      var rest := Split(text[1..], '\n');
      if text[0] == '\n' {
        assert parts[1..] == rest;
        assert text + "\n" == "" + "\n" + (text[1..] + "\n");
      } else {
        assert parts[0] == [text[0]] + rest[0] && parts[1..] == rest[1..];
        assert text + "\n" == [text[0]] + (text[1..] + "\n");
      }
    }
  }

  lemma {:induction false} EndedSnoc(lines: seq<string>, last: string)
    ensures Ended(lines + [last]) == Ended(lines) + last + "\n"
  {
    if lines == [] {
      assert ([] + [last])[1..] == [];
      assert [] + [last] == [last];
    } else {
      assert (lines + [last])[1..] == lines[1..] + [last];
      EndedSnoc(lines[1..], last);
    }
  }

  /** The lines of a text make it up. */
  lemma LinesMakeText(text: string)
    ensures IsTextOf(text, Lines(text))
  {
    hide Split, Ended;
    EndedParts(text);
    var parts := Split(text, '\n');
    var last := parts[|parts| - 1];
    if last == "" {
      var lines := parts[..|parts| - 1];
      assert parts == lines + [""];
      EndedSnoc(lines, "");
      assert Ended(lines) + "" + "\n" == Ended(lines) + "\n";
      assert text == (text + "\n")[..|text|] == (Ended(lines) + "\n")[..|text|];
    }
  }

  const HEADERS := ["FSXJ1", "FSXJ2", "FSXJ3", "FSXJ4"]

  /** A journal text is accepted exactly if it is a header and lines that lead, one after the other, to what is
      read; in version 4 all paths are absolute. */
  lemma TextIff(text: string, q: Parsed)
    ensures ReadText(text) == Ok(q) <==>
      && Lines(text) != [] && 1 <= q.version <= 4 && Lines(text)[0] == HEADERS[q.version - 1]
      && LinesLead(Parsed(q.version, [], false), Lines(text)[1..], q)
      && (q.version == 4 ==>
            forall i, path :: 0 <= i < |q.undos| && path in PathsOf(q.undos[i].undo) ==> IsAbsolute(path))
  {
    hide Lines, ReadLines, LinesLead, AllAbsolute;
    var lines := Lines(text);
    if lines != [] {
      VersionIff(lines[0]);
      forall v: nat ensures ReadLines(Parsed(v, [], false), lines[1..]) == Ok(q) ==> q.version == v {
        VersionKept(Parsed(v, [], false), lines[1..]);
      }
      LinesIff(Parsed(q.version, [], false), lines[1..], q);
      AbsoluteIff(q.undos);
    }
  }

  lemma VersionIff(header: string)
    ensures forall v: nat :: Version(header) == Some(v) <==> 1 <= v <= 4 && header == HEADERS[v - 1]
  {
  }

  lemma AbsoluteIff(undos: seq<Marked>)
    ensures AllPathsAbsolute(undos) <==>
      forall i, path :: 0 <= i < |undos| && path in PathsOf(undos[i].undo) ==> IsAbsolute(path)
  {
    forall i | 0 <= i < |undos|
      ensures AllAbsolute(undos[i].undo) <==> forall path :: path in PathsOf(undos[i].undo) ==> IsAbsolute(path)
    {
    }
  }
}
