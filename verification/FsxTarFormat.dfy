/** The tar format as such: where each header field is, and which byte sequences the reader takes for
    which entries. */
module FsxTarFormat {
  import opened Text
  import opened FsxTar

  // ----- Header fields -----

  lemma Fields(a: string, b: string, rest: string)
    ensures (a + b + rest)[|a|..|a| + |b|] == b
  {
  }

  lemma FrontFields(e: Entry)
    ensures HeaderFront(e)[100..108] == OctalField(8, 420)
    ensures HeaderFront(e)[108..116] == OctalField(8, 0) && HeaderFront(e)[116..124] == OctalField(8, 0)
    ensures HeaderFront(e)[136..148] == OctalField(12, 0)
  {
    hide OctalField;
    var h := HeaderFront(e);
    var a, m, z, s, t := NameField(e), OctalField(8, 420), OctalField(8, 0), OctalField(12, PayloadSize(e)),
      OctalField(12, 0);
    assert h == a + m + (z + z + s + t) == a + m + z + (z + s + t) == a + m + z + z + (s + t);
    assert h == a + m + z + z + s + t + "";
    Fields(a, m, z + z + s + t);
    Fields(a + m, z, z + s + t);
    Fields(a + m + z, z, s + t);
    Fields(a + m + z + z + s, t, "");
  }

  lemma ConstantFields()
    ensures OctalField(8, 420) == "0000644\0" && OctalField(8, 0) == "0000000\0"
    ensures OctalField(12, 0) == "00000000000\0"
  {
    assert OctalDigits(0) == "0";
    assert OctalDigits(6) == "6";
    assert OctalDigits(52) == "64";
    assert OctalDigits(420) == "644";
  }

  lemma BackFields(e: Entry)
    ensures HeaderBack(e)[0] == (if e.directory then '5' else '0') && AllZero(HeaderBack(e)[1..101])
    ensures HeaderBack(e)[101..107] == "ustar\0" && HeaderBack(e)[107..109] == "00"
    ensures AllZero(HeaderBack(e)[109..])
  {
  }

  /** A written header, field by field: name, mode 0644, owner and group 0, size, time 0, checksum, kind, no link
      name, and the ustar magic and version. */
  lemma HeaderLayout(e: Entry)
    ensures var h := Header(e);
      && |h| == 512
      && h[100..108] == "0000644\0" && h[108..116] == "0000000\0" && h[116..124] == "0000000\0"
      && h[136..148] == "00000000000\0"
      && h[156] == (if e.directory then '5' else '0') && AllZero(h[157..257])
      && h[257..263] == "ustar\0" && h[263..265] == "00" && AllZero(h[265..])
  {
    hide HeaderFront, HeaderBack, ChecksumField, OctalField, AllZero;
    FrontFields(e);
    BackFields(e);
    ConstantFields();
    var front, sum, back := HeaderFront(e), ChecksumField(e), HeaderBack(e);
    assert Header(e) == front + sum + back;
    assert Header(e)[100..108] == front[100..108] && Header(e)[108..116] == front[108..116];
    assert Header(e)[116..124] == front[116..124] && Header(e)[136..148] == front[136..148];
    assert Header(e)[156] == back[0] && Header(e)[157..257] == back[1..101];
    assert Header(e)[257..263] == back[101..107] && Header(e)[263..265] == back[107..109];
    assert Header(e)[265..] == back[109..];
  }

  /** A name that fits stands at the front of the header, with zeros behind it; a directory's has a slash. */
  lemma NameLayout(e: Entry)
    requires e.name != "" && e.name[|e.name| - 1] != '/' && |StoredName(e)| <= 100
    ensures Header(e)[..|e.name|] == e.name
    ensures e.directory ==> Header(e)[|e.name|] == '/'
    ensures AllZero(Header(e)[|e.name| + (if e.directory then 1 else 0)..100])
  {
    hide OctalField, OctalDigits;
    HeaderParts(e);
    var f, name := NameField(e), StoredName(e);
    assert f == name + Zeros(100 - |name|);
    assert forall i :: 0 <= i < 100 ==> Header(e)[i] == Header(e)[..100][i];
    assert Header(e)[..|e.name|] == Header(e)[..100][..|e.name|];
  }

  // ----- Octal numbers -----

  /** The octal digits of a text, in their order. */
  function OctalChars(s: string): string {
    if s == "" then ""
    else OctalChars(s[..|s| - 1]) + if '0' <= s[|s| - 1] <= '7' then [s[|s| - 1]] else ""
  }

  ghost predicate IsOctalNumeral(s: string, v: nat) {
    if s == "" then v == 0
    else IsOctalNumeral(s[..|s| - 1], v / 8) && v % 8 < |"01234567"| && s[|s| - 1] == "01234567"[v % 8]
  }

  predicate EndsField(c: char) {
    c == '\0' || c == ' '
  }

  /** The field up to its first NUL or space. */
  ghost predicate IsFieldText(field: string, text: string) {
    && text <= field && (|text| == |field| || EndsField(field[|text|]))
    && forall i :: 0 <= i < |text| ==> !EndsField(text[i])
  }

  lemma {:induction false} NumeralStep(s: string, v: nat, c: char)
    requires IsOctalNumeral(s, v) && '0' <= c <= '7'
    ensures IsOctalNumeral(s + [c], v * 8 + (c as int - '0' as int))
  {
    var d := c as int - '0' as int;
    assert (s + [c])[..|s|] == s;
    assert (v * 8 + d) / 8 == v && (v * 8 + d) % 8 == d;
    OctalLetter(d);
  }

  lemma OctalLetter(d: nat)
    requires d < 8
    ensures "01234567"[d] as int == '0' as int + d
  {
  }

  lemma {:induction false} FieldReads(done: string, left: string, value: nat) returns (text: string)
    requires IsOctalNumeral(OctalChars(done), value) && forall i :: 0 <= i < |done| ==> !EndsField(done[i])
    ensures done <= text && IsFieldText(done + left, text)
    ensures IsOctalNumeral(OctalChars(text), ParseOctalFrom(left, value))
    decreases |left|
  {
    hide IsOctalNumeral;
    if left == "" || EndsField(left[0]) {
      text := done;
    } else {
      var c := left[0];
      var more := done + [c];
      assert more[..|done|] == done;
      assert more + left[1..] == done + left;
      if '0' <= c <= '7' {
        NumeralStep(OctalChars(done), value, c);
        assert OctalChars(more) == OctalChars(done) + [c];
        text := FieldReads(more, left[1..], value * 8 + (c as int - '0' as int));
      } else {
        assert OctalChars(more) == OctalChars(done);
        text := FieldReads(more, left[1..], value);
      }
    }
  }

  lemma {:induction false} NumeralUnique(s: string, v: nat, w: nat)
    requires IsOctalNumeral(s, v) && IsOctalNumeral(s, w)
    ensures v == w
    decreases |s|
  {
    if s != "" {
      NumeralUnique(s[..|s| - 1], v / 8, w / 8);
      OctalLetter(v % 8);
      OctalLetter(w % 8);
      assert v == 8 * (v / 8) + v % 8 && w == 8 * (w / 8) + w % 8;
    }
  }

  lemma FieldTextUnique(field: string, a: string, b: string)
    requires IsFieldText(field, a) && IsFieldText(field, b)
    ensures a == b
  {
    assert a == field[..|a|] && b == field[..|b|];
    assert forall i :: 0 <= i < |a| ==> !EndsField(field[i]);
    assert forall i :: 0 <= i < |b| ==> !EndsField(field[i]);
  }

  /** A field holds the number that its octal digits in front of the first NUL or space make up. */
  lemma OctalIff(field: string, v: nat)
    ensures ParseOctalFrom(field, 0) == v <==>
      exists text :: IsFieldText(field, text) && IsOctalNumeral(OctalChars(text), v)
  {
    var text := FieldReads("", field, 0);
    assert "" + field == field;
    if t :| IsFieldText(field, t) && IsOctalNumeral(OctalChars(t), v) {
      FieldTextUnique(field, t, text);
      NumeralUnique(OctalChars(text), v, ParseOctalFrom(field, 0));
    }
  }

  // ----- Archives -----

  /** The header block describes this entry with so many bytes of data. */
  ghost predicate Describes(header: string, e: Entry, size: nat, name: string) {
    && |header| == 512 && (exists i :: 0 <= i < 512 && header[i] != '\0')
    && name <= header[..100] && '\0' !in name && (|name| == 100 || header[|name|] == '\0')
    && NameIsSafe(name)
    && (exists text :: IsFieldText(header[124..136], text) && IsOctalNumeral(OctalChars(text), size))
    && (e.directory <==> header[156] == '5')
    && if e.directory then e.name != "" && e.name[|e.name| - 1] != '/' && Slashes(name, e.name) else e.name == name
  }

  /** `name` is `bare` with slashes behind it. */
  ghost predicate Slashes(name: string, bare: string) {
    bare <= name && forall i :: |bare| <= i < |name| ==> name[i] == '/'
  }

  /** A header block, data, and padding up to the next block. */
  ghost predicate IsRecord(record: string, e: Entry, header: string, data: string, name: string) {
    && header + data <= record && |record| - |header + data| < 512 && |record| % 512 == 0
    && Describes(header, e, |data|, name) && e.data == (if e.directory then "" else data)
  }

  /** The bytes are records of these entries, ended by a block of zeros or by the end of the input. */
  ghost predicate Holds(bytes: string, entries: seq<Entry>)
    decreases |entries|
  {
    if entries == [] then bytes == "" || (512 <= |bytes| && AllZero(bytes[..512]))
    else exists n, header, data, name ::
      0 <= n <= |bytes| && IsRecord(bytes[..n], entries[0], header, data, name) && Holds(bytes[n..], entries[1..])
  }

  // ----- What the reader accepts -----

  lemma {:induction false} TrimmedIff(name: string, bare: string)
    requires bare != "" && bare[|bare| - 1] != '/'
    ensures TrimSlashes(name) == bare <==> Slashes(name, bare)
    decreases |name|
  {
    if name != "" && name[|name| - 1] == '/' {
      var shorter := name[..|name| - 1];
      TrimmedIff(shorter, bare);
      if Slashes(name, bare) {
        assert |bare| < |name|;
        assert bare <= shorter;
      }
    } else if Slashes(name, bare) {
      assert |name| == |bare|;
    }
  }

  lemma {:induction false} TrimmedEnds(name: string)
    requires name != "" && name[0] != '/'
    ensures TrimSlashes(name) != "" && TrimSlashes(name)[|TrimSlashes(name)| - 1] != '/'
    decreases |name|
  {
    if name[|name| - 1] == '/' {
      TrimmedEnds(name[..|name| - 1]);
    }
  }

  lemma NameOf(header: string, name: string)
    requires |header| == 512
    ensures name == header[..CStringLength(header[..100])] <==>
      name <= header[..100] && '\0' !in name && (|name| == 100 || header[|name|] == '\0')
  {
    var f := header[..100];
    var n := CStringLength(f);
    assert f[..n] == header[..n];
    assert n < 100 ==> header[n] == f[n];
    if name <= f && '\0' !in name && (|name| == 100 || header[|name|] == '\0') {
      assert forall i :: 0 <= i < n ==> f[..n][i] == f[i] && f[i] != '\0';
      assert forall i :: 0 <= i < |name| ==> name[i] == f[i] && f[i] != '\0';
      assert |name| < 100 ==> f[|name|] == '\0';
    }
  }

  /** The header fields are read as they are laid out. */
  lemma HeaderIff(header: string, e: Entry, size: nat)
    requires |header| == 512
    ensures var info := ReadHeader(header);
      (exists name :: Describes(header, e, size, name)) <==>
        && !AllZero(header) && NameIsSafe(info.name) && info.size == size
        && e.directory == info.directory && e.name == (if info.directory then TrimSlashes(info.name) else info.name)
  {
    hide NameIsSafe, TrimSlashes, IsFieldText, IsOctalNumeral, Slashes, CStringLength;
    var info := ReadHeader(header);
    NameOf(header, info.name);
    OctalIff(header[124..136], size);
    if NameIsSafe(info.name) {
      NameNotEmpty(info.name);
      SafeStart(info.name);
      TrimmedEnds(info.name);
      if e.name != "" && e.name[|e.name| - 1] != '/' {
        TrimmedIff(info.name, e.name);
      }
    }
    if name :| Describes(header, e, size, name) {
      NameOf(header, name);
    }
    if !AllZero(header) && NameIsSafe(info.name) && info.size == size
      && e.directory == info.directory && e.name == (if info.directory then TrimSlashes(info.name) else info.name) {
      assert Describes(header, e, size, info.name);
    }
  }

  lemma SafeStart(name: string)
    requires NameIsSafe(name)
    ensures name != "" && name[0] != '/'
  {
  }

  lemma PaddingUnique(size: nat, p: nat)
    requires p < 512
    ensures (512 + size + p) % 512 == 0 <==> p == Padding(size)
  {
    var q := Padding(size);
    assert (512 + size + p) % 512 == (size + p) % 512;
    if (size + p) % 512 == 0 {
      var a, b := (size + p) / 512, (size + q) / 512;
      assert size + p == 512 * a && size + q == 512 * b;
      assert p - q == 512 * (a - b);
      assert a == b;
    }
  }

  /** One record at the front of an archive. */
  lemma RecordReads(bytes: string, n: nat, e: Entry, header: string, data: string, name: string)
    requires n <= |bytes| && IsRecord(bytes[..n], e, header, data, name)
    ensures Decode(bytes) == Prepended(e, Decode(bytes[n..])) && n > 0
  {
    hide Decode, Describes, ReadHeader, NameIsSafe, AllZero;
    DescribedIsBlock(header, e, |data|, name);
    var record := bytes[..n];
    assert record[..512] == header && bytes[..512] == header;
    HeaderIff(header, e, |data|);
    var info := ReadHeader(header);
    PaddingUnique(|data|, n - 512 - |data|);
    assert record[..512 + |data|] == header + data;
    assert bytes[512..512 + |data|] == record[..512 + |data|][512..] == data;
    DecodeStep(bytes, info);
    assert EntryFrom(info, data) == e;
  }

  lemma DescribedIsBlock(header: string, e: Entry, size: nat, name: string)
    requires Describes(header, e, size, name)
    ensures |header| == 512
  {
  }

  lemma RecordFound(bytes: string) returns (n: nat, header: string, data: string, name: string)
    requires Decode(bytes).Ok? && Decode(bytes).value != []
    ensures 0 < n <= |bytes| && Decode(bytes[n..]).Ok?
    ensures Decode(bytes).value == [Decode(bytes).value[0]] + Decode(bytes[n..]).value
    ensures IsRecord(bytes[..n], Decode(bytes).value[0], header, data, name)
  {
    hide Decode, Describes, ReadHeader, NameIsSafe, AllZero;
    NonemptyIsRecord(bytes);
    header := bytes[..512];
    var info := ReadHeader(header);
    DecodeStep(bytes, info);
    data := bytes[512..512 + info.size];
    n := 512 + info.size + Padding(info.size);
    var e := Decode(bytes).value[0];
    PaddingUnique(info.size, Padding(info.size));
    HeaderIff(header, e, info.size);
    name :| Describes(header, e, info.size, name);
    assert bytes[..n][..512 + info.size] == header + data;
  }

  lemma NonemptyIsRecord(bytes: string)
    requires Decode(bytes).Ok? && Decode(bytes).value != []
    ensures 512 <= |bytes| && !AllZero(bytes[..512])
  {
    hide NameIsSafe, ReadHeader, AllZero, TrimSlashes;
  }

  lemma EmptyIff(bytes: string)
    ensures Decode(bytes) == Ok([]) <==> bytes == "" || (512 <= |bytes| && AllZero(bytes[..512]))
  {
    hide NameIsSafe, ReadHeader, AllZero, TrimSlashes;
  }

  /** The reader takes a byte sequence for these entries exactly if it holds them. */
  lemma {:induction false} ReadsIff(bytes: string, entries: seq<Entry>)
    ensures Decode(bytes) == Ok(entries) <==> Holds(bytes, entries)
    decreases |bytes|
  {
    hide Decode, IsRecord, AllZero;
    EmptyIff(bytes);
    if entries != [] {
      if Decode(bytes) == Ok(entries) {
        var n, header, data, name := RecordFound(bytes);
        ReadsIff(bytes[n..], Decode(bytes[n..]).value);
        assert entries[1..] == Decode(bytes[n..]).value;
      }
      if Holds(bytes, entries) {
        var n, header, data, name :|
          0 <= n <= |bytes| && IsRecord(bytes[..n], entries[0], header, data, name) && Holds(bytes[n..], entries[1..]);
        RecordReads(bytes, n, entries[0], header, data, name);
        ReadsIff(bytes[n..], entries[1..]);
        assert [entries[0]] + entries[1..] == entries;
      }
    }
  }

  /** No entry the reader delivers leads out of the directory it is extracted to. */
  lemma {:induction false} ReadNamesSafe(bytes: string)
    requires Decode(bytes).Ok?
    ensures forall i :: 0 <= i < |Decode(bytes).value| ==> NameIsSafe(Decode(bytes).value[i].name)
    decreases |bytes|
  {
    hide Decode, IsRecord, NameIsSafe;
    if Decode(bytes).value != [] {
      var n, header, data, name := RecordFound(bytes);
      RecordSafe(bytes[..n], Decode(bytes).value[0], header, data, name);
      ReadNamesSafe(bytes[n..]);
    }
  }

  lemma RecordSafe(record: string, e: Entry, header: string, data: string, name: string)
    requires IsRecord(record, e, header, data, name)
    ensures NameIsSafe(e.name)
  {
    hide NameIsSafe, IsFieldText, IsOctalNumeral;
    if e.directory {
      BareIsSafe(name, e.name);
    }
  }

  lemma {:induction false} BareIsSafe(name: string, bare: string)
    requires NameIsSafe(name) && Slashes(name, bare) && bare != ""
    ensures NameIsSafe(bare)
    decreases |name|
  {
    if |name| > |bare| {
      var shorter := name[..|name| - 1];
      assert name == shorter + "/";
      PartsAppendSlash(shorter);
      var parts := Split(shorter, '/');
      forall i | 0 <= i < |parts| ensures parts[i] != "." && parts[i] != ".." {
        assert Split(name, '/')[i] == parts[i];
      }
      BareIsSafe(shorter, bare);
    } else {
      assert name == bare;
    }
  }
}
