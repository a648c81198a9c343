/** The JSON texts that the parser accepts, as a grammar (RFC 8259) over the trees they stand for.  Blanks are
    what `isspace` accepts, and bytes above 0x7F stand for themselves. */
module CfgJsonGrammar {
  import opened Text
  import opened CfgNode
  import opened CfgJson
  import opened CfgJsonNumbers
  import opened CfgJsonRoundTrip
  import opened CfgJsonStrings

  // ----- The grammar -----

  ghost predicate IsLiteral(s: string, text: string) {
    exists pieces :: s == "\"" + TextOf(pieces) + "\"" && SpellsAll(pieces, text)
  }

  /** `s` is a text of the node, without blanks around it. */
  ghost predicate IsText(s: string, node: Node)
    decreases node, 1
  {
    match node
    case Null => s == "null"
    case Boolean(flag) => s == if flag then "true" else "false"
    case Str(text) => IsLiteral(s, text)
    case Array(items) =>
      exists inner :: s == "[" + inner + "]" && if items == [] then AllBlank(inner) else IsList(inner, node, 0)
    case Object(entries) =>
      exists inner :: s == "{" + inner + "}" && if entries == [] then AllBlank(inner) else IsEntries(inner, node, 0)
    case _ => IsNumberText(s, node)
  }

  /** An element with blanks around it, and what follows. */
  ghost predicate Splits(s: string, lead: string, core: string, tail: string, rest: string) {
    s == lead + (core + (tail + rest)) && AllBlank(lead) && AllBlank(tail)
  }

  /** The items from position i on, with commas between. */
  ghost predicate IsList(s: string, node: Node, i: nat)
    requires node.Array? && i < |node.items|
    decreases node, 0, |node.items| - i
  {
    exists lead, core, tail, rest ::
      && Splits(s, lead, core, tail, rest) && IsText(core, node.items[i])
      && if i + 1 == |node.items| then rest == "" else rest != "" && rest[0] == ',' && IsList(rest[1..], node, i + 1)
  }

  /** A key, a colon and a value. */
  ghost predicate Pairs(s: string, key: string, before: string, after: string, core: string) {
    s == key + (before + (":" + (after + core))) && AllBlank(before) && AllBlank(after)
  }

  ghost predicate IsEntry(s: string, entry: (string, Node))
    decreases entry, 2
  {
    exists key, before, after, core ::
      Pairs(s, key, before, after, core) && IsLiteral(key, entry.0) && IsText(core, entry.1)
  }

  ghost predicate IsEntries(s: string, node: Node, i: nat)
    requires node.Object? && i < |node.entries|
    decreases node, 0, |node.entries| - i
  {
    exists lead, core, tail, rest ::
      && Splits(s, lead, core, tail, rest) && IsEntry(core, node.entries[i])
      && if i + 1 == |node.entries| then rest == ""
         else rest != "" && rest[0] == ',' && IsEntries(rest[1..], node, i + 1)
  }

  /** A whole document: a text of the node with blanks around it. */
  ghost predicate IsDocument(s: string, node: Node) {
    exists lead, core, tail :: Splits(s, lead, core, tail, "") && IsText(core, node)
  }

  // ----- Blanks -----

  lemma {:induction false} BlanksSkipped(lead: string, rest: string)
    requires AllBlank(lead) && (rest == "" || !IsSpace(rest[0]))
    ensures SkipSpace(lead + rest) == rest
  {
    if lead == "" {
      assert lead + rest == rest;
    } else {
      assert (lead + rest)[1..] == lead[1..] + rest;
      BlanksSkipped(lead[1..], rest);
    }
  }

  lemma {:induction false} BlanksFound(s: string) returns (lead: string)
    ensures s == lead + SkipSpace(s) && AllBlank(lead)
  {
    if s != "" && IsSpace(s[0]) {
      var rest := BlanksFound(s[1..]);
      lead := [s[0]] + rest;
    } else {
      lead := "";
    }
  }

  /** Neither a blank nor the end of a list. */
  predicate Opens(s: string) {
    s != "" && !IsSpace(s[0]) && s[0] != ']' && s[0] != '}' && s[0] != ','
  }

  lemma TextOpens(s: string, node: Node)
    requires IsText(s, node)
    ensures Opens(s)
  {
    hide IsList, IsEntries, SpellsAll, NumeralOf;
    match node
    case Array(items) =>
    case Object(entries) =>
    case Str(text) =>
    case Null =>
    case Boolean(flag) =>
    case _ => NumberOpens(s, node);
  }

  lemma NumberOpens(s: string, node: Node)
    requires IsNumberText(s, node)
    ensures NumberNode(s) == Ok(node) && Opens(s) && (IsDigit(s[0]) || s[0] == '-')
    ensures forall i :: 0 <= i < |s| ==> NumberChar(s[i])
  {
    hide IsNumberText, IsJsonNumber, IsIntegral;
    NumberNodeIff(s, node);
    JsonNumberChars(s);
  }

  /** What may follow a value inside a container. */
  lemma BlankOrMarkTerminates(tail: string, rest: string)
    requires AllBlank(tail) && rest != "" && rest[0] in [',', ']', '}']
    ensures Terminated(tail + rest) && SkipSpace(tail + rest) == rest
  {
    BlanksSkipped(tail, rest);
    assert (tail + rest)[0] == if tail == "" then rest[0] else tail[0];
  }

  // ----- Texts are read -----

  lemma LiteralReads(s: string, text: string, rest: string)
    requires IsLiteral(s, text)
    ensures StringLiteral(s + rest) == Ok((text, rest)) && s != "" && s[0] == '"'
  {
    hide StringLiteral, SpellsAll, TextOf;
    var pieces :| s == "\"" + TextOf(pieces) + "\"" && SpellsAll(pieces, text);
    assert s + rest == "\"" + TextOf(pieces) + "\"" + rest;
    LiteralReadsIff(s + rest, text, rest);
  }

  lemma LiteralValue(s: string)
    requires s != "" && s[0] == '"'
    ensures Value(s) ==
      if StringLiteral(s).Err? then Err(StringLiteral(s).error)
      else Ok((Str(StringLiteral(s).value.0), StringLiteral(s).value.1))
  {
    hide StringLiteral, Items, Entries, Number;
    NoSpace(s);
  }

  lemma ScalarTextReads(s: string, node: Node, rest: string)
    requires IsText(s, node) && !node.Array? && !node.Object? && Terminated(rest)
    ensures Value(s + rest) == Ok((node, rest))
  {
    hide Value, StringLiteral, IsLiteral, Number, NumberNode, IsNumberText, Terminated, NumberChar;
    match node
    case Null => WordReads("null", Null, rest);
    case Boolean(flag) => WordReads(if flag then "true" else "false", node, rest);
    case Str(text) =>
      LiteralReads(s, text, rest);
      LiteralValue(s + rest);
    case _ =>
      NumberOpens(s, node);
      TokenReads(s, node, rest);
  }

  /** The parser reads a text as the node it stands for. */
  lemma {:induction false} TextReads(s: string, node: Node, rest: string)
    requires IsText(s, node) && Terminated(rest)
    ensures Value(s + rest) == Ok((node, rest))
    decreases node, 1
  {
    hide Value, Items, Entries, IsList, IsEntries, SkipSpace, Terminated, IsLiteral, IsNumberText;
    if node.Array? {
      var inner :| s == "[" + inner + "]" &&
        if node.items == [] then AllBlank(inner) else IsList(inner, node, 0);
      var body := inner + ("]" + rest);
      assert (s + rest)[1..] == body;
      ArrayValue(s + rest);
      if node.items == [] {
        BlanksSkipped(inner, "]" + rest);
        assert ("]" + rest)[1..] == rest;
      } else {
        ListOpens(inner, node, 0, "]" + rest);
        ListReads(inner, node, 0, rest);
        assert node.items[..0] == [];
        ItemsSkipSpace(body, []);
      }
    } else if node.Object? {
      var inner :| s == "{" + inner + "}" &&
        if node.entries == [] then AllBlank(inner) else IsEntries(inner, node, 0);
      var body := inner + ("}" + rest);
      assert (s + rest)[1..] == body;
      ObjectValue(s + rest);
      if node.entries == [] {
        BlanksSkipped(inner, "}" + rest);
        assert ("}" + rest)[1..] == rest;
      } else {
        EntriesOpen(inner, node, 0, "}" + rest);
        EntryListReads(inner, node, 0, rest);
        assert node.entries[..0] == [];
        EntriesSkipSpace(body, []);
      }
    } else {
      ScalarTextReads(s, node, rest);
    }
  }

  lemma SplitOpens(s: string, lead: string, core: string, tail: string, rest: string, more: string)
    requires Splits(s, lead, core, tail, rest) && Opens(core)
    ensures s + more != "" && SkipSpace(s + more) == core + (tail + (rest + more)) && Opens(SkipSpace(s + more))
  {
    assert s + more == lead + (core + (tail + (rest + more)));
    BlanksSkipped(lead, core + (tail + (rest + more)));
  }

  lemma ListOpens(s: string, node: Node, i: nat, more: string)
    requires node.Array? && i < |node.items| && IsList(s, node, i)
    ensures s + more != "" && Opens(SkipSpace(s + more))
  {
    hide SkipSpace, IsText;
    var lead, core, tail, rest :|
      && Splits(s, lead, core, tail, rest) && IsText(core, node.items[i])
      && if i + 1 == |node.items| then rest == "" else rest != "" && rest[0] == ',' && IsList(rest[1..], node, i + 1);
    TextOpens(core, node.items[i]);
    SplitOpens(s, lead, core, tail, rest, more);
  }

  lemma {:induction false} ListReads(s: string, node: Node, i: nat, rest: string)
    requires node.Array? && i < |node.items| && IsList(s, node, i)
    ensures Items(s + ("]" + rest), node.items[..i]) == Ok((node, rest))
    decreases node, 0, |node.items| - i
  {
    hide Value, Items, IsText, SkipSpace, Terminated, Opens, AllBlank;
    var item, end := node.items[i], "]" + rest;
    var lead, core, tail, more :|
      && Splits(s, lead, core, tail, more) && IsText(core, item)
      && if i + 1 == |node.items| then more == "" else more != "" && more[0] == ',' && IsList(more[1..], node, i + 1);
    var left := more + end;
    TextOpens(core, item);
    SplitOpens(s, lead, core, tail, more, end);
    BlankOrMarkTerminates(tail, left);
    ValueSkipsSpace(s + end);
    TextReads(core, item, tail + left);
    ItemsStep(s + end, node.items[..i]);
    assert node.items[..i] + [item] == node.items[..i + 1];
    if i + 1 == |node.items| {
      assert left == end && end[1..] == rest;
      assert node.items[..i + 1] == node.items;
    } else {
      assert left[1..] == more[1..] + end;
      ListReads(more[1..], node, i + 1, rest);
    }
  }

  lemma EntryOpens(s: string, entry: (string, Node))
    requires IsEntry(s, entry)
    ensures Opens(s)
  {
    hide IsText, IsLiteral;
    var key, before, after, core :|
      Pairs(s, key, before, after, core) && IsLiteral(key, entry.0) && IsText(core, entry.1);
    LiteralReads(key, entry.0, "");
    assert s[0] == key[0];
  }

  lemma EntriesOpen(s: string, node: Node, i: nat, more: string)
    requires node.Object? && i < |node.entries| && IsEntries(s, node, i)
    ensures s + more != "" && Opens(SkipSpace(s + more))
  {
    hide SkipSpace, IsEntry;
    var lead, core, tail, rest :|
      && Splits(s, lead, core, tail, rest) && IsEntry(core, node.entries[i])
      && if i + 1 == |node.entries| then rest == ""
         else rest != "" && rest[0] == ',' && IsEntries(rest[1..], node, i + 1);
    EntryOpens(core, node.entries[i]);
    SplitOpens(s, lead, core, tail, rest, more);
  }

  lemma {:induction false} EntryTextReads(s: string, entry: (string, Node), rest: string)
    requires IsEntry(s, entry) && Terminated(rest)
    ensures Entry(s + rest) == Ok((entry, rest))
    decreases entry, 2
  {
    hide Value, IsText, SkipSpace, Terminated, IsLiteral, StringLiteral, AllBlank;
    var key, before, after, core :|
      Pairs(s, key, before, after, core) && IsLiteral(key, entry.0) && IsText(core, entry.1);
    var value := core + rest;
    var colon := ":" + (after + value);
    assert s + rest == key + (before + colon);
    LiteralReads(key, entry.0, before + colon);
    NoSpace(s + rest);
    EntryStep(s + rest);
    BlanksSkipped(before, colon);
    assert colon[1..] == after + value;
    TextOpens(core, entry.1);
    BlanksSkipped(after, value);
    ValueSkipsSpace(after + value);
    TextReads(core, entry.1, rest);
  }

  lemma {:induction false} EntryListReads(s: string, node: Node, i: nat, rest: string)
    requires node.Object? && i < |node.entries| && IsEntries(s, node, i)
    ensures Entries(s + ("}" + rest), node.entries[..i]) == Ok((node, rest))
    decreases node, 0, |node.entries| - i
  {
    hide Value, Entries, Entry, IsEntry, SkipSpace, Terminated, Opens, AllBlank;
    var entry, end := node.entries[i], "}" + rest;
    var lead, core, tail, more :|
      && Splits(s, lead, core, tail, more) && IsEntry(core, entry)
      && if i + 1 == |node.entries| then more == ""
         else more != "" && more[0] == ',' && IsEntries(more[1..], node, i + 1);
    var left := more + end;
    EntryOpens(core, entry);
    SplitOpens(s, lead, core, tail, more, end);
    BlankOrMarkTerminates(tail, left);
    EntrySkipsSpace(s + end);
    EntryTextReads(core, entry, tail + left);
    EntriesStep(s + end, node.entries[..i]);
    assert node.entries[..i] + [entry] == node.entries[..i + 1];
    if i + 1 == |node.entries| {
      assert left == end && end[1..] == rest;
      assert node.entries[..i + 1] == node.entries;
    } else {
      assert left[1..] == more[1..] + end;
      EntryListReads(more[1..], node, i + 1, rest);
    }
  }

  lemma EntrySkipsSpace(s: string)
    ensures Entry(s) == Entry(SkipSpace(s))
  {
    hide Value, StringLiteral, SkipSpace;
    SkipSpaceTwice(s);
  }

  // ----- What is read is a text -----

  lemma WordValue(t: string)
    requires t != "" && t[0] in ['t', 'f', 'n'] && Value(t).Ok?
    ensures IsText(t[..|t| - |Value(t).value.1|], Value(t).value.0) && t[|t| - |Value(t).value.1|..] == Value(t).value.1
  {
    hide Items, Entries, StringLiteral, Number, IsList, IsEntries, IsLiteral, IsNumberText;
    NoSpace(t);
  }

  lemma NumberValue(t: string)
    requires t != "" && !IsSpace(t[0]) && t[0] !in ['{', '[', '"', 't', 'f', 'n'] && Value(t).Ok?
    ensures IsText(t[..|t| - |Value(t).value.1|], Value(t).value.0) && t[|t| - |Value(t).value.1|..] == Value(t).value.1
  {
    hide Items, Entries, StringLiteral, IsList, IsEntries, IsLiteral, IsNumberText, NumberNode;
    NoSpace(t);
    NumberNodeIff(t[..NumberRun(t)], Value(t).value.0);
    NumberIsScalar(t[..NumberRun(t)]);
  }

  lemma NumberIsScalar(token: string)
    ensures NumberNode(token).Ok? ==> NumberNode(token).value.Integer? || NumberNode(token).value.Double?
  {
    hide IsJsonNumber, IsIntegral, IntegerValue;
  }

  lemma LiteralFound(t: string)
    requires StringLiteral(t).Ok?
    ensures var (text, rest) := StringLiteral(t).value;
      IsLiteral(t[..|t| - |rest|], text) && t[|t| - |rest|..] == rest
  {
    hide StringLiteral, SpellsAll, TextOf;
    var (text, rest) := StringLiteral(t).value;
    LiteralReadsIff(t, text, rest);
    var pieces :| t == "\"" + TextOf(pieces) + "\"" + rest && SpellsAll(pieces, text);
    assert t[..|t| - |rest|] == "\"" + TextOf(pieces) + "\"";
  }

  /** Whatever is read as a value is a text of that value. */
  lemma {:induction false} ValueFound(s: string) returns (lead: string, core: string)
    requires Value(s).Ok?
    ensures s == lead + (core + Value(s).value.1) && AllBlank(lead) && IsText(core, Value(s).value.0)
    decreases |s|, 1
  {
    hide Value, Items, Entries, SkipSpace, IsText, AllBlank, IsSpace;
    var (node, rest) := Value(s).value;
    lead := BlanksFound(s);
    ValueSkipsSpace(s);
    var t := SkipSpace(s);
    SkipSpaceTwice(s);
    ValueOpens(t);
    if t[0] == '[' {
      core := ArrayFound(t);
    } else if t[0] == '{' {
      core := ObjectFound(t);
    } else {
      core := t[..|t| - |rest|];
      if t[0] == '"' {
        LiteralValue(t);
        LiteralFound(t);
        LiteralIsText(core, node.text);
      } else if t[0] in ['t', 'f', 'n'] {
        WordValue(t);
      } else {
        NumberValue(t);
      }
      assert t == core + rest;
    }
  }

  lemma ValueOpens(t: string)
    requires Value(t).Ok? && SkipSpace(t) == t
    ensures t != "" && !IsSpace(t[0])
  {
  }

  lemma LiteralIsText(s: string, text: string)
    requires IsLiteral(s, text)
    ensures IsText(s, Str(text))
  {
  }

  lemma {:induction false} ArrayFound(t: string) returns (core: string)
    requires t != "" && t[0] == '[' && Value(t).Ok?
    ensures t == core + Value(t).value.1 && IsText(core, Value(t).value.0)
    decreases |t|, 0
  {
    hide Value, Items, SkipSpace, AllBlank, IsList;
    var (node, rest) := Value(t).value;
    ArrayValue(t);
    var inner := BlanksFound(t[1..]);
    var u := SkipSpace(t[1..]);
    if u == "" || u[0] != ']' {
      ItemsNonempty(u, []);
      ItemsSkipSpace(t[1..], []);
      inner := ItemsFound(t[1..], []);
      core := "[" + inner + "]";
      assert t == "[" + (inner + ("]" + rest));
      ListIsText(core, inner, node);
    } else {
      core := "[" + inner + "]";
      assert u == "]" + rest;
      assert t == "[" + (inner + ("]" + rest));
      EmptyIsText(core, inner, node);
    }
  }

  lemma ItemsNonempty(s: string, items: seq<Node>)
    requires Items(s, items).Ok?
    ensures s != ""
  {
    hide Value;
  }

  lemma ListIsText(s: string, inner: string, node: Node)
    requires node.Array? && node.items != [] && s == "[" + inner + "]" && IsList(inner, node, 0)
    ensures IsText(s, node)
  {
    hide IsList;
  }

  lemma EmptyIsText(s: string, inner: string, node: Node)
    requires (node == Array([]) && s == "[" + inner + "]") || (node == Object([]) && s == "{" + inner + "}")
    requires AllBlank(inner)
    ensures IsText(s, node)
  {
    hide AllBlank;
  }

  lemma {:induction false} ItemsFound(s: string, items: seq<Node>) returns (inner: string)
    requires Items(s, items).Ok?
    ensures var (node, rest) := Items(s, items).value;
      && node.Array? && |items| < |node.items| && node.items[..|items|] == items
      && s == inner + ("]" + rest) && IsList(inner, node, |items|)
    decreases |s|, 2
  {
    hide Value, Items, SkipSpace, AllBlank, IsText;
    var (node, rest) := Items(s, items).value;
    ItemsStep(s, items);
    var lead, core := ValueFound(s);
    var (v, r) := Value(s).value;
    var tail := BlanksFound(r);
    var t := SkipSpace(r);
    if t[0] == ',' {
      var more := ItemsFound(t[1..], items + [v]);
      assert node.items[..|items|] == node.items[..|items| + 1][..|items|] == items;
      assert node.items[|items|] == v;
      inner := lead + (core + (tail + ("," + more)));
      assert ("," + more)[1..] == more;
      assert t == "," + (more + ("]" + rest));
      assert s == inner + ("]" + rest);
      assert Splits(inner, lead, core, tail, "," + more);
    } else {
      inner := lead + (core + (tail + ""));
      assert t == "]" + rest;
      assert tail + "" == tail;
      assert s == inner + ("]" + rest);
      assert Splits(inner, lead, core, tail, "");
    }
  }

  lemma {:induction false} ObjectFound(t: string) returns (core: string)
    requires t != "" && t[0] == '{' && Value(t).Ok?
    ensures t == core + Value(t).value.1 && IsText(core, Value(t).value.0)
    decreases |t|, 0
  {
    hide Value, Entries, SkipSpace, AllBlank, IsEntries;
    var (node, rest) := Value(t).value;
    ObjectValue(t);
    var inner := BlanksFound(t[1..]);
    var u := SkipSpace(t[1..]);
    if u == "" || u[0] != '}' {
      EntriesNonempty(u, []);
      EntriesSkipSpace(t[1..], []);
      inner := EntriesFound(t[1..], []);
      core := "{" + inner + "}";
      assert t == "{" + (inner + ("}" + rest));
      EntriesAreText(core, inner, node);
    } else {
      core := "{" + inner + "}";
      assert u == "}" + rest;
      assert t == "{" + (inner + ("}" + rest));
      EmptyIsText(core, inner, node);
    }
  }

  lemma EntriesNonempty(s: string, entries: seq<(string, Node)>)
    requires Entries(s, entries).Ok?
    ensures s != ""
  {
    hide Entry;
  }

  lemma EntriesAreText(s: string, inner: string, node: Node)
    requires node.Object? && node.entries != [] && s == "{" + inner + "}" && IsEntries(inner, node, 0)
    ensures IsText(s, node)
  {
    hide IsEntries;
  }

  lemma {:induction false} EntryFound(s: string) returns (lead: string, core: string)
    requires Entry(s).Ok?
    ensures s == lead + (core + Entry(s).value.1) && AllBlank(lead) && IsEntry(core, Entry(s).value.0)
    decreases |s|, 2
  {
    hide Value, SkipSpace, AllBlank, IsText, IsLiteral, StringLiteral;
    var (entry, rest) := Entry(s).value;
    EntryStep(s);
    lead := BlanksFound(s);
    var t := SkipSpace(s);
    var (key, r) := StringLiteral(t).value;
    LiteralFound(t);
    var keyText := t[..|t| - |r|];
    assert t == keyText + r;
    var before := BlanksFound(r);
    var u := SkipSpace(r);
    var after, value := ValueFound(u[1..]);
    core := keyText + (before + (":" + (after + value)));
    assert u == ":" + u[1..];
    assert Pairs(core, keyText, before, after, value);
    assert s == lead + (core + rest);
  }

  lemma {:induction false} EntriesFound(s: string, entries: seq<(string, Node)>) returns (inner: string)
    requires Entries(s, entries).Ok?
    ensures var (node, rest) := Entries(s, entries).value;
      && node.Object? && |entries| < |node.entries| && node.entries[..|entries|] == entries
      && s == inner + ("}" + rest) && IsEntries(inner, node, |entries|)
    decreases |s|, 3
  {
    hide Value, Entry, Entries, SkipSpace, AllBlank, IsEntry;
    var (node, rest) := Entries(s, entries).value;
    EntriesStep(s, entries);
    var lead, core := EntryFound(s);
    var (e, r) := Entry(s).value;
    var tail := BlanksFound(r);
    var t := SkipSpace(r);
    if t[0] == ',' {
      var more := EntriesFound(t[1..], entries + [e]);
      assert node.entries[..|entries|] == node.entries[..|entries| + 1][..|entries|] == entries;
      assert node.entries[|entries|] == e;
      inner := lead + (core + (tail + ("," + more)));
      assert ("," + more)[1..] == more;
      assert t == "," + (more + ("}" + rest));
      assert s == inner + ("}" + rest);
      assert Splits(inner, lead, core, tail, "," + more);
    } else {
      inner := lead + (core + (tail + ""));
      assert t == "}" + rest;
      assert tail + "" == tail;
      assert s == inner + ("}" + rest);
      assert Splits(inner, lead, core, tail, "");
    }
  }

  // ----- Documents -----

  /** The parser accepts exactly the documents of the grammar, and reads the tree they stand for. */
  lemma DocumentIff(s: string, node: Node)
    ensures WholeText(s) == Ok(node) <==> IsDocument(s, node)
  {
    hide Value, SkipSpace, IsText, AllBlank, Terminated;
    if WholeText(s) == Ok(node) {
      ValueSkipsSpace(s);
      var lead, core := ValueFound(s);
      var rest := Value(s).value.1;
      var tail := BlanksFound(rest);
      assert tail + "" == tail == rest;
      assert Splits(s, lead, core, tail, "");
    }
    if IsDocument(s, node) {
      var lead, core, tail :| Splits(s, lead, core, tail, "") && IsText(core, node);
      DocumentReads(s, lead, core, tail, node);
    }
  }

  lemma DocumentReads(s: string, lead: string, core: string, tail: string, node: Node)
    requires Splits(s, lead, core, tail, "") && IsText(core, node)
    ensures WholeText(s) == Ok(node)
  {
    hide Value, SkipSpace, IsText, AllBlank, Terminated, Opens;
    TextOpens(core, node);
    SplitOpens(s, lead, core, tail, "", "");
    assert s + "" == s && "" + "" == "" && tail + "" == tail;
    BlanksTerminate(tail);
    TextReads(core, node, tail);
    BlanksSkipped(tail, "");
  }

  lemma BlanksTerminate(tail: string)
    requires AllBlank(tail)
    ensures Terminated(tail)
  {
  }
}
