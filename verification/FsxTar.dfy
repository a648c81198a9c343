/** The tar writer and reader: 512-byte ustar headers, octal fields, padded payloads, end blocks. */
module FsxTar {
  import opened Text

  datatype Entry = Entry(name: string, directory: bool, data: string)

  datatype TarError = TruncatedHeader | UnsafeEntry | TruncatedPayload | TruncatedPadding

  const BLOCK: nat := 512

  function Zeros(n: nat): (z: string)
    ensures |z| == n && forall i :: 0 <= i < n ==> z[i] == '\0'
  {
    seq(n, i => '\0')
  }

  // ----- Octal fields -----

  function Power8(k: nat): nat {
    if k == 0 then 1 else 8 * Power8(k - 1)
  }

  /** The octal numeral of `printf("%llo")`. */
  function OctalDigits(v: nat): (s: string)
    ensures s != "" && forall i :: 0 <= i < |s| ==> '0' <= s[i] <= '7'
  {
    if v < 8 then [DigitChar(v)] else OctalDigits(v / 8) + [DigitChar(v % 8)]
  }

  function ZeroPadded(s: string, width: nat): (p: string)
    ensures width <= |p|
  {
    if width <= |s| then s else seq(width - |s|, i => '0') + s
  }

  /** `write_tar_octal`: width - 1 digits and a NUL; longer numerals are cut off at the end. */
  function OctalField(width: nat, v: nat): (f: string)
    requires 0 < width
    ensures |f| == width
  {
    ZeroPadded(OctalDigits(v), width - 1)[..width - 1] + "\0"
  }

  /** Reading a field up to the first NUL or space; other characters that are not octal digits are
      passed over.  Fields have at most 12 characters, so the value stays far below 2^64. */
  function ParseOctalFrom(field: string, value: nat): nat {
    if field == "" || field[0] == '\0' || field[0] == ' ' then value
    else ParseOctalFrom(field[1..], if '0' <= field[0] <= '7' then value * 8 +
      (field[0] as int - '0' as int) else value)
  }

  /** `parse_tar_octal` */
  method ParseTarOctal(field: string) returns (value: nat)
    ensures value == ParseOctalFrom(field, 0)
  {
    value := 0;
    var i := 0;
    assert field[0..] == field;
    while i < |field| && field[i] != '\0' && field[i] != ' '
      invariant 0 <= i <= |field| && ParseOctalFrom(field[i..], value) == ParseOctalFrom(field, 0)
    {
      assert field[i..][1..] == field[i + 1..];
      if '0' <= field[i] <= '7' {
        value := value * 8 + (field[i] as int - '0' as int);
      }
      i := i + 1;
    }
  }

  lemma {:induction false} ParseZeros(zeros: string, rest: string)
    requires forall i :: 0 <= i < |zeros| ==> zeros[i] == '0'
    ensures ParseOctalFrom(zeros + rest, 0) == ParseOctalFrom(rest, 0)
  {
    if zeros == "" {
      assert zeros + rest == rest;
    } else {
      assert (zeros + rest)[1..] == zeros[1..] + rest;
      ParseZeros(zeros[1..], rest);
    }
  }

  lemma {:induction false} ParseDigits(v: nat, rest: string)
    ensures ParseOctalFrom(OctalDigits(v) + rest, 0) == ParseOctalFrom(rest, v)
  {
    if v < 8 {
      assert (OctalDigits(v) + rest)[1..] == rest;
    } else {
      var last := [DigitChar(v % 8)];
      assert OctalDigits(v) + rest == OctalDigits(v / 8) + (last + rest);
      ParseDigits(v / 8, last + rest);
      assert (last + rest)[1..] == rest;
    }
  }

  lemma {:induction false} OctalLength(v: nat, k: nat)
    requires 0 < k && v < Power8(k)
    ensures |OctalDigits(v)| <= k
  {
    if 8 <= v {
      OctalLength(v / 8, k - 1);
    }
  }

  /** A value that fits its field is read back. */
  lemma OctalRoundTrip(width: nat, v: nat)
    requires 1 < width && v < Power8(width - 1)
    ensures ParseOctalFrom(OctalField(width, v), 0) == v
  {
    OctalLength(v, width - 1);
    var digits := OctalDigits(v);
    var zeros := seq(width - 1 - |digits|, i => '0');
    assert zeros + digits == ZeroPadded(digits, width - 1) by {
      if |digits| == width - 1 {
        assert zeros + digits == digits;
      }
    }
    assert OctalField(width, v) == zeros + (digits + "\0");
    ParseZeros(zeros, digits + "\0");
    ParseDigits(v, "\0");
  }

  // ----- Names -----

  /** `tar_name_is_safe`: a relative name without backslash, colon, "." and ".." */
  predicate NameIsSafe(name: string) {
    && name != "" && '\\' !in name && ':' !in name && name[0] != '/'
    && forall i :: 0 <= i < |Split(name, '/')| ==> Split(name, '/')[i] != "." && Split(name, '/')[i] != ".."
  }

  /** `SafeArchivePath`: what the writer demands of a name. */
  predicate SafeArchivePath(name: string) {
    NameIsSafe(name) && '\0' !in name && name[|name| - 1] != '/'
  }

  /** The name a directory is stored under ends in a slash. */
  function StoredName(e: Entry): string {
    if e.directory && e.name != "" && e.name[|e.name| - 1] != '/' then e.name + "/" else e.name
  }

  function TrimSlashes(name: string): string {
    if name != "" && name[|name| - 1] == '/' then TrimSlashes(name[..|name| - 1]) else name
  }

  /** What the archive keeps of an entry: a directory has no data. */
  function AsRead(e: Entry): Entry {
    if e.directory then e.(data := "") else e
  }

  lemma {:induction false} PartsAppendSlash(name: string)
    ensures Split(name + "/", '/') == Split(name, '/') + [""]
  {
    assert Split("/", '/') == ["", ""] by { assert Split("", '/') == [""]; }
    if name == "" {
      assert name + "/" == "/";
    } else {
      assert (name + "/")[1..] == name[1..] + "/";
      PartsAppendSlash(name[1..]);
      var rest := Split(name[1..], '/');
      assert (rest + [""])[1..] == rest[1..] + [""];
    }
  }

  /** Storing a safe name keeps it safe. */
  lemma StoredNameSafe(e: Entry)
    requires NameIsSafe(e.name)
    ensures NameIsSafe(StoredName(e))
  {
    PartsAppendSlash(e.name);
    var stored := StoredName(e);
    if stored != e.name {
      assert stored == e.name + "/";
      var parts := Split(e.name, '/');
      forall i | 0 <= i < |Split(stored, '/')| ensures Split(stored, '/')[i] != "." && Split(stored, '/')[i] != ".." {
        assert i < |parts| ==> Split(stored, '/')[i] == parts[i];
      }
    }
  }

  // ----- Headers -----

  function ByteSum(s: string): nat {
    if s == "" then 0 else ByteSum(s[..|s| - 1]) + s[|s| - 1] as int
  }

  /** The 100-byte name field: of a directory name of exactly 100 bytes the slash does not fit. */
  function NameField(e: Entry): (f: string)
    ensures |f| == 100
  {
    (StoredName(e) + Zeros(100))[..100]
  }

  function PayloadSize(e: Entry): nat {
    if e.directory then 0 else |e.data|
  }

  /** The fields before the checksum and those after it. */
  function HeaderFront(e: Entry): (h: string)
    ensures |h| == 148
  {
    NameField(e) + OctalField(8, 420) + OctalField(8, 0) + OctalField(8, 0) + OctalField(12, PayloadSize(e)) +
      OctalField(12, 0)
  }

  function HeaderBack(e: Entry): (h: string)
    ensures |h| == 356
  {
    [if e.directory then '5' else '0'] + Zeros(100) + "ustar" + Zeros(1) + "00" + Zeros(247)
  }

  /** The checksum is taken with its own field filled with spaces. */
  function Checksum(e: Entry): nat {
    ByteSum(HeaderFront(e) + "        " + HeaderBack(e))
  }

  function ChecksumField(e: Entry): (f: string)
    ensures |f| == 8
  {
    ZeroPadded(OctalDigits(Checksum(e)), 6)[..6] + "\0 "
  }

  function Header(e: Entry): (h: string)
    ensures |h| == BLOCK
  {
    HeaderFront(e) + ChecksumField(e) + HeaderBack(e)
  }

  /** `memcpy` into a buffer. */
  method Put(a: array<char>, off: nat, s: string)
    requires off + |s| <= a.Length
    modifies a
    ensures a[..] == old(a[..])[..off] + s + old(a[..])[off + |s|..]
  {
    var i := 0;
    while i < |s|
      invariant 0 <= i <= |s|
      invariant forall k :: off <= k < off + i ==> a[k] == s[k - off]
      invariant forall k :: 0 <= k < off || off + i <= k < a.Length ==> a[k] == old(a[k])
    {
      a[off + i] := s[i];
      i := i + 1;
    }
    assert |a[..]| == |old(a[..])[..off] + s + old(a[..])[off + |s|..]|;
  }

  /** Writing behind what has been written so far, after a gap. */
  lemma PutBehind(front: string, rest: nat, gap: nat, s: string)
    requires gap + |s| <= rest
    ensures var h := front + Zeros(rest);
      h[..|front| + gap] + s + h[|front| + gap + |s|..] == front + Zeros(gap) + s + Zeros(rest - gap - |s|)
  {
  }

  /** Writes behind what has been written so far, leaving a gap of zeros. */
  method PutNext(a: array<char>, ghost front: string, at: nat, gap: nat, s: string)
    requires |front| + gap == at && at + |s| <= a.Length
    requires a[..] == front + Zeros(a.Length - |front|)
    modifies a
    ensures a[..] == front + Zeros(gap) + s + Zeros(a.Length - at - |s|)
  {
    PutBehind(front, a.Length - |front|, gap, s);
    Put(a, at, s);
  }

  /** `write_tar_header` */
  method WriteTarHeader(e: Entry) returns (ok: bool, header: array<char>)
    ensures ok <==> SafeArchivePath(e.name) && |e.name| <= 100
    ensures ok ==> header[..] == Header(e)
    ensures fresh(header)
  {
    hide Header, HeaderFront, HeaderBack;
    header := new char[512](_ => '\0');
    if !SafeArchivePath(e.name) || |e.name| > 100 {
      return false, header;
    }
    ok := true;
    PutName(e, header);
    PutFields(e, header);
    PutMagic(e, header);
    PutChecksum(e, header);
  }

  /** The name, and the mode, which overwrites the slash of a directory name that is too long for it. */
  method PutName(e: Entry, header: array<char>)
    requires header.Length == 512 && (forall i :: 0 <= i < 512 ==> header[i] == '\0') && |e.name| <= 100
    modifies header
    ensures header[..] == NameField(e) + OctalField(8, 420) + Zeros(404)
  {
    hide OctalField;
    assert header[..] == "" + Zeros(512);
    var name := e.name;
    if e.directory && name != "" && name[|name| - 1] != '/' {
      name := name + "/";
    }
    PutNext(header, "", 0, 0, name);
    NameThenMode(e, header[..]);
    Put(header, 100, OctalField(8, 420));
  }

  lemma NameThenMode(e: Entry, h: string)
    requires |e.name| <= 100 && h == "" + Zeros(0) + StoredName(e) + Zeros(512 - |StoredName(e)|)
    ensures h[..100] + OctalField(8, 420) + h[108..] == NameField(e) + OctalField(8, 420) + Zeros(404)
  {
    hide OctalField;
  }

  /** The numeric fields behind the mode. */
  method PutFields(e: Entry, header: array<char>)
    requires header.Length == 512 && header[..] == NameField(e) + OctalField(8, 420) + Zeros(404)
    modifies header
    ensures header[..] == HeaderFront(e) + Zeros(364)
  {
    hide OctalField, NameField, Zeros;
    ghost var front := NameField(e) + OctalField(8, 420);
    PutNext(header, front, 108, 0, OctalField(8, 0));
    front := front + Zeros(0) + OctalField(8, 0);
    PutNext(header, front, 116, 0, OctalField(8, 0));
    front := front + Zeros(0) + OctalField(8, 0);
    PutNext(header, front, 124, 0, OctalField(12, PayloadSize(e)));
    front := front + Zeros(0) + OctalField(12, PayloadSize(e));
    PutNext(header, front, 136, 0, OctalField(12, 0));
    NoGaps(NameField(e) + OctalField(8, 420), OctalField(8, 0), OctalField(12, PayloadSize(e)), OctalField(12, 0));
  }

  lemma NoGaps(front: string, a: string, b: string, c: string)
    ensures front + Zeros(0) + a + Zeros(0) + a + Zeros(0) + b + Zeros(0) + c == front + a + a + b + c
  {
    assert front + Zeros(0) == front;
    assert front + a + Zeros(0) == front + a;
    assert front + a + a + Zeros(0) == front + a + a;
    assert front + a + a + b + Zeros(0) == front + a + a + b;
  }

  /** Spaces for the checksum, the type flag and the magic. */
  method PutMagic(e: Entry, header: array<char>)
    requires header.Length == 512 && header[..] == HeaderFront(e) + Zeros(364)
    modifies header
    ensures header[..] == HeaderFront(e) + "        " + HeaderBack(e)
  {
    hide HeaderFront, Zeros;
    ghost var front := HeaderFront(e);
    PutNext(header, front, 148, 0, "        ");
    front := front + Zeros(0) + "        ";
    var kind := [if e.directory then '5' else '0'];
    PutNext(header, front, 156, 0, kind);
    front := front + Zeros(0) + kind;
    PutNext(header, front, 257, 100, "ustar");
    front := front + Zeros(100) + "ustar";
    PutNext(header, front, 263, 1, "00");
    MagicTogether(HeaderFront(e), kind);
  }

  lemma MagicTogether(front: string, kind: string)
    ensures front + Zeros(0) + "        " + Zeros(0) + kind + Zeros(100) + "ustar" + Zeros(1) + "00" + Zeros(247)
      == front + "        " + (kind + Zeros(100) + "ustar" + Zeros(1) + "00" + Zeros(247))
  {
    assert front + Zeros(0) == front;
    assert front + "        " + Zeros(0) == front + "        ";
  }

  /** The sum of all bytes of the header. */
  method SumBytes(header: array<char>) returns (checksum: nat)
    ensures checksum == ByteSum(header[..])
  {
    checksum := 0;
    var i := 0;
    ghost var h := header[..];
    while i < header.Length
      invariant 0 <= i <= header.Length && checksum == ByteSum(h[..i])
    {
      assert h[..i + 1][..i] == h[..i] && h[i] == header[i];
      checksum := checksum + header[i] as int;
      i := i + 1;
    }
    assert h[..|h|] == h;
  }

  method PutChecksum(e: Entry, header: array<char>)
    requires header.Length == 512 && header[..] == HeaderFront(e) + "        " + HeaderBack(e)
    modifies header
    ensures header[..] == Header(e)
  {
    hide HeaderFront, HeaderBack, OctalDigits, ByteSum, ZeroPadded;
    ghost var h := header[..];
    var checksum := SumBytes(header);
    var digits := ZeroPadded(OctalDigits(checksum), 6)[..6];
    Put(header, 148, digits);
    Put(header, 154, "\0 ");
    TwoPuts(h, digits, "\0 ");
    MiddleReplaced(HeaderFront(e), "        ", HeaderBack(e), digits + "\0 ");
  }

  lemma TwoPuts(h: string, a: string, b: string)
    requires |h| == 512 && |a| == 6 && |b| == 2
    ensures var once := h[..148] + a + h[154..];
      once[..154] + b + once[156..] == h[..148] + (a + b) + h[156..]
  {
  }

  lemma MiddleReplaced(front: string, middle: string, back: string, other: string)
    requires |front| == 148 && |middle| == 8 && |other| == 8
    ensures var h := front + middle + back; h[..148] + other + h[156..] == front + other + back
  {
  }

  // ----- Archives -----

  function Padding(size: nat): (p: nat)
    ensures p < BLOCK && (size + p) % BLOCK == 0
  {
    PaddedToBlock(size);
    (BLOCK - size % BLOCK) % BLOCK
  }

  lemma PaddedToBlock(size: nat)
    ensures (size + (BLOCK - size % BLOCK) % BLOCK) % BLOCK == 0
  {
    var r := size % BLOCK;
    if r != 0 {
      assert (BLOCK - r) % BLOCK == BLOCK - r;
      assert size + (BLOCK - r) == (size / BLOCK + 1) * BLOCK;
    }
  }

  function Payload(e: Entry): string {
    if e.directory then "" else e.data + Zeros(Padding(|e.data|))
  }

  /** The bytes of an archive: headers and padded payloads, then two blocks of zeros. */
  function Archive(entries: seq<Entry>): string {
    if entries == [] then Zeros(1024) else Header(entries[0]) + Payload(entries[0]) + Archive(entries[1..])
  }

  /** An entry the writer accepts. */
  predicate Storable(e: Entry) {
    SafeArchivePath(e.name) && |e.name| <= 100
  }

  /** `write_tar_file_payload`: the data in chunks of up to 4096 bytes, then the padding. */
  method WritePayload(out: string, data: string) returns (after: string)
    ensures after == out + (data + Zeros(Padding(|data|)))
  {
    after := out;
    var done := 0;
    assert data[..0] == "";
    while done < |data|
      invariant 0 <= done <= |data| && after == out + data[..done]
    {
      var chunk := if |data| - done < 4096 then |data| - done else 4096;
      assert data[..done + chunk] == data[..done] + data[done..done + chunk];
      after := after + data[done..done + chunk];
      done := done + chunk;
    }
    assert data[..|data|] == data;
    after := after + Zeros(Padding(|data|));
  }

  lemma ArchiveStep(entries: seq<Entry>, i: nat)
    requires i < |entries|
    ensures Archive(entries[i..]) == Header(entries[i]) + Payload(entries[i]) + Archive(entries[i + 1..])
  {
    hide Header, Payload;
    assert entries[i..][1..] == entries[i + 1..];
  }

  /** Header and payload of one entry. */
  method WriteEntry(out: string, e: Entry) returns (ok: bool, after: string)
    ensures ok <==> Storable(e)
    ensures ok ==> after == out + (Header(e) + Payload(e))
  {
    hide Header, Payload;
    var header;
    ok, header := WriteTarHeader(e);
    after := out;
    if ok {
      after := after + header[..];
      if !e.directory {
        after := WritePayload(after, e.data);
      }
      EntryAppended(out, after, e);
    }
  }

  /** `CreateArchive` for a list of entries that has been walked. */
  method CreateArchive(entries: seq<Entry>) returns (ok: bool, out: string)
    ensures ok <==> forall i :: 0 <= i < |entries| ==> Storable(entries[i])
    ensures ok ==> out == Archive(entries)
  {
    hide Header, Payload, Archive, Storable;
    out := "";
    var i := 0;
    assert entries[0..] == entries;
    while i < |entries|
      invariant 0 <= i <= |entries|
      invariant forall k :: 0 <= k < i ==> Storable(entries[k])
      invariant Archive(entries) == out + Archive(entries[i..])
    {
      ArchiveStep(entries, i);
      ghost var before, rest := out, Archive(entries[i + 1..]);
      var written;
      written, out := WriteEntry(out, entries[i]);
      if !written {
        return false, out;
      }
      assert before + (Header(entries[i]) + Payload(entries[i]) + rest) ==
        before + (Header(entries[i]) + Payload(entries[i])) + rest;
      i := i + 1;
    }
    ArchiveEnd(entries);
    out := out + Zeros(1024);
    ok := true;
  }

  lemma ArchiveEnd(entries: seq<Entry>)
    ensures Archive(entries[|entries|..]) == Zeros(1024)
  {
  }

  lemma EntryAppended(before: string, out: string, e: Entry)
    requires out == if e.directory then before + Header(e) else before + Header(e) + (e.data + Zeros(Padding(|e.data|)))
    ensures out == before + (Header(e) + Payload(e))
  {
    hide Header;
  }

  // ----- Reading -----

  /** `bounded_cstr_len` */
  function CStringLength(s: string): (n: nat)
    ensures n <= |s| && '\0' !in s[..n] && (n < |s| ==> s[n] == '\0')
  {
    if s == "" || s[0] == '\0' then 0 else
      var n := CStringLength(s[1..]);
      assert s[..n + 1] == [s[0]] + s[1..][..n];
      1 + n
  }

  predicate AllZero(block: string) {
    forall i :: 0 <= i < |block| ==> block[i] == '\0'
  }

  datatype HeaderInfo = HeaderInfo(name: string, directory: bool, size: nat)

  function ReadHeader(block: string): HeaderInfo
    requires |block| == BLOCK
  {
    HeaderInfo(block[..CStringLength(block[..100])], block[156] == '5', ParseOctalFrom(block[124..136], 0))
  }

  /** The reader: entries up to the first block of zeros or the end of the input. */
  function Decode(bytes: string): Result<seq<Entry>, TarError>
    decreases |bytes|
  {
    if bytes == "" then Ok([])
    else if |bytes| < BLOCK then Err(TruncatedHeader)
    else if AllZero(bytes[..BLOCK]) then Ok([])
    else
      var info := ReadHeader(bytes[..BLOCK]);
      if !NameIsSafe(info.name) then Err(UnsafeEntry)
      else if |bytes| < BLOCK + info.size then Err(TruncatedPayload)
      else if |bytes| < BLOCK + info.size + Padding(info.size) then Err(TruncatedPadding)
      else
        var data := bytes[BLOCK..BLOCK + info.size];
        var entry := Entry(if info.directory then TrimSlashes(info.name) else info.name, info.directory,
          if info.directory then "" else data);
        match Decode(bytes[BLOCK + info.size + Padding(info.size)..])
        case Ok(rest) => Ok([entry] + rest)
        case Err(e) => Err(e)
  }

  /** Consumes a payload in chunks of up to 4096 bytes; a short stream is an error. */
  method ReadPayload(bytes: string, start: nat, size: nat) returns (r: Option<string>)
    requires start <= |bytes|
    ensures r == if |bytes| < start + size then None else Some(bytes[start..start + size])
  {
    var data := "";
    var remaining := size;
    while 0 < remaining
      invariant 0 <= remaining <= size && start + (size - remaining) <= |bytes|
      invariant data == bytes[start..start + (size - remaining)]
    {
      var at := start + (size - remaining);
      var chunk := if remaining < 4096 then remaining else 4096;
      if |bytes| < at + chunk {
        return None;
      }
      assert bytes[start..at + chunk] == bytes[start..at] + bytes[at..at + chunk];
      data := data + bytes[at..at + chunk];
      remaining := remaining - chunk;
    }
    r := Some(data);
  }

  /** What one turn of the reader does. */
  lemma DecodeStep(bytes: string, info: HeaderInfo)
    requires BLOCK <= |bytes| && !AllZero(bytes[..BLOCK]) && info == ReadHeader(bytes[..BLOCK])
    ensures !NameIsSafe(info.name) ==> Decode(bytes) == Err(UnsafeEntry)
    ensures NameIsSafe(info.name) && |bytes| < BLOCK + info.size ==> Decode(bytes) == Err(TruncatedPayload)
    ensures NameIsSafe(info.name) && BLOCK + info.size <= |bytes| < BLOCK + info.size + Padding(info.size) ==>
      Decode(bytes) == Err(TruncatedPadding)
    ensures NameIsSafe(info.name) && BLOCK + info.size + Padding(info.size) <= |bytes| ==>
      Decode(bytes) == Prepended(EntryFrom(info, bytes[BLOCK..BLOCK + info.size]),
        Decode(bytes[BLOCK + info.size + Padding(info.size)..]))
  {
    hide NameIsSafe, ReadHeader, AllZero, TrimSlashes;
  }

  function EntryFrom(info: HeaderInfo, data: string): Entry {
    Entry(if info.directory then TrimSlashes(info.name) else info.name, info.directory,
      if info.directory then "" else data)
  }

  function Prepended(e: Entry, r: Result<seq<Entry>, TarError>): Result<seq<Entry>, TarError> {
    match r
    case Ok(rest) => Ok([e] + rest)
    case Err(error) => Err(error)
  }

  function PrependedAll(entries: seq<Entry>, r: Result<seq<Entry>, TarError>): Result<seq<Entry>, TarError> {
    match r
    case Ok(rest) => Ok(entries + rest)
    case Err(error) => Err(error)
  }

  /** The loop of `ExtractArchive`, which collects the entries instead of writing them to disk. */
  method ReadArchive(bytes: string) returns (r: Result<seq<Entry>, TarError>)
    ensures r == Decode(bytes)
  {
    hide Decode, NameIsSafe, ReadHeader, TrimSlashes, AllZero;
    var entries: seq<Entry> := [];
    var pos := 0;
    assert bytes[0..] == bytes;
    NothingBefore(Decode(bytes));
    while pos < |bytes|
      invariant pos <= |bytes|
      invariant Decode(bytes) == PrependedAll(entries, Decode(bytes[pos..]))
    {
      if |bytes| - pos < BLOCK {
        DecodeShort(bytes[pos..]);
        return Err(TruncatedHeader);
      }
      var block := bytes[pos..pos + BLOCK];
      assert bytes[pos..][..BLOCK] == block;
      if AllZero(block) {
        DecodeZero(bytes[pos..]);
        return Ok(entries);
      }
      var info := ReadHeader(block);
      DecodeStep(bytes[pos..], info);
      if !NameIsSafe(info.name) {
        return Err(UnsafeEntry);
      }
      var data := ReadPayload(bytes, pos + BLOCK, info.size);
      if data.None? {
        return Err(TruncatedPayload);
      }
      if |bytes| < pos + BLOCK + info.size + Padding(info.size) {
        return Err(TruncatedPadding);
      }
      var next := pos + BLOCK + info.size + Padding(info.size);
      assert bytes[pos..][BLOCK..BLOCK + info.size] == data.value;
      assert bytes[pos..][BLOCK + info.size + Padding(info.size)..] == bytes[next..];
      Regrouped(entries, EntryFrom(info, data.value), Decode(bytes[next..]));
      entries := entries + [EntryFrom(info, data.value)];
      pos := next;
    }
    DecodeNothing(bytes[pos..]);
    r := Ok(entries);
  }

  lemma NothingBefore(r: Result<seq<Entry>, TarError>)
    ensures PrependedAll([], r) == r
  {
    if r.Ok? {
      assert [] + r.value == r.value;
    }
  }

  lemma Regrouped(entries: seq<Entry>, e: Entry, r: Result<seq<Entry>, TarError>)
    ensures PrependedAll(entries, Prepended(e, r)) == PrependedAll(entries + [e], r)
  {
    if r.Ok? {
      assert entries + ([e] + r.value) == entries + [e] + r.value;
    }
  }

  lemma DecodeShort(bytes: string)
    requires 0 < |bytes| < BLOCK
    ensures Decode(bytes) == Err(TruncatedHeader)
  {
  }

  lemma DecodeZero(bytes: string)
    requires BLOCK <= |bytes| && AllZero(bytes[..BLOCK])
    ensures Decode(bytes) == Ok([])
    ensures forall entries: seq<Entry> :: PrependedAll(entries, Ok([])) == Ok(entries)
  {
    forall entries: seq<Entry> ensures PrependedAll(entries, Ok([])) == Ok(entries) {
      assert entries + [] == entries;
    }
  }

  lemma DecodeNothing(bytes: string)
    requires bytes == ""
    ensures Decode(bytes) == Ok([])
    ensures forall entries: seq<Entry> :: PrependedAll(entries, Ok([])) == Ok(entries)
  {
    forall entries: seq<Entry> ensures PrependedAll(entries, Ok([])) == Ok(entries) {
      assert entries + [] == entries;
    }
  }

  // ----- Round trip -----

  /** What the round trip asks of an entry: the writer accepts it and its size fits eleven octal digits. */
  predicate RoundTrips(e: Entry) {
    Storable(e) && PayloadSize(e) < Power8(11)
  }

  lemma {:induction false} CStringOf(name: string, rest: string)
    requires '\0' !in name && (rest == "" || rest[0] == '\0')
    ensures CStringLength(name + rest) == |name|
  {
    if name == "" {
      assert name + rest == rest;
    } else {
      assert (name + rest)[1..] == name[1..] + rest;
      CStringOf(name[1..], rest);
    }
  }

  lemma {:induction false} TrimAppended(name: string)
    ensures TrimSlashes(name + "/") == TrimSlashes(name)
  {
    assert (name + "/")[..|name|] == name;
  }

  /** The name field of a header reads back as the stored name, or as the bare name if the slash did
      not fit. */
  lemma NameReads(e: Entry)
    requires RoundTrips(e)
    ensures var n := CStringLength(NameField(e));
      var read := NameField(e)[..n];
      && NameIsSafe(read)
      && (if e.directory then TrimSlashes(read) == TrimSlashes(e.name) else read == e.name)
  {
    hide NameIsSafe;
    StoredNameSafe(e);
    NameNotEmpty(e.name);
    TrimAppended(e.name);
    var stored := StoredName(e);
    if |stored| <= 100 {
      assert NameField(e) == stored + Zeros(100 - |stored|);
      CStringOf(stored, Zeros(100 - |stored|));
      assert NameField(e)[..|stored|] == stored;
    } else {
      assert NameField(e) == e.name + "";
      CStringOf(e.name, "");
    }
  }

  lemma NameNotEmpty(name: string)
    requires NameIsSafe(name)
    ensures name != ""
  {
  }

  /** The fields of a header, by position. */
  lemma HeaderParts(e: Entry)
    ensures Header(e)[..100] == NameField(e)
    ensures Header(e)[124..136] == OctalField(12, PayloadSize(e))
    ensures Header(e)[156] == (if e.directory then '5' else '0')
  {
    hide NameField, OctalField, ZeroPadded;
    assert HeaderFront(e)[124..136] == OctalField(12, PayloadSize(e));
    assert HeaderFront(e)[..100] == NameField(e);
  }

  lemma HeaderReads(e: Entry)
    requires RoundTrips(e)
    ensures !AllZero(Header(e))
    ensures var info := ReadHeader(Header(e));
      && NameIsSafe(info.name) && info.directory == e.directory && info.size == PayloadSize(e)
      && (if e.directory then TrimSlashes(info.name) == TrimSlashes(e.name) else info.name == e.name)
  {
    hide Header, NameField, NameIsSafe, OctalField;
    HeaderParts(e);
    NameReads(e);
    OctalRoundTrip(12, PayloadSize(e));
    assert Header(e)[..CStringLength(Header(e)[..100])] == NameField(e)[..CStringLength(NameField(e))];
  }

  lemma EntryReads(e: Entry, rest: string)
    requires RoundTrips(e) && Decode(rest).Ok?
    ensures Decode(Header(e) + Payload(e) + rest) == Ok([AsRead(e)] + Decode(rest).value)
  {
    hide Header, NameIsSafe, ReadHeader, AllZero;
    HeaderReads(e);
    var bytes := Header(e) + Payload(e) + rest;
    var size := PayloadSize(e);
    assert bytes[..BLOCK] == Header(e);
    assert |Payload(e)| == size + Padding(size);
    assert bytes[BLOCK + size + Padding(size)..] == rest;
    assert !e.directory ==> bytes[BLOCK..BLOCK + size] == e.data;
  }

  function ListAsRead(entries: seq<Entry>): (read: seq<Entry>)
    ensures |read| == |entries|
    ensures forall i :: 0 <= i < |entries| ==> read[i] == AsRead(entries[i])
  {
    seq(|entries|, i requires 0 <= i < |entries| => AsRead(entries[i]))
  }

  /** Reading a written archive gives the same names, kinds and contents. */
  lemma {:induction false} TarRoundTrip(entries: seq<Entry>)
    requires forall i :: 0 <= i < |entries| ==> RoundTrips(entries[i])
    ensures Decode(Archive(entries)) == Ok(ListAsRead(entries))
  {
    hide Header, Payload, RoundTrips, AsRead;
    if entries == [] {
      EndBlock();
    } else {
      TarRoundTrip(entries[1..]);
      EntryReads(entries[0], Archive(entries[1..]));
      assert ListAsRead(entries) == [AsRead(entries[0])] + ListAsRead(entries[1..]);
    }
  }

  lemma EndBlock()
    ensures Decode(Zeros(1024)) == Ok([])
  {
    assert Zeros(1024) != "";
    assert AllZero(Zeros(1024)[..BLOCK]);
  }

  /** Archives are told apart: the bytes determine every name, kind and content. */
  lemma ArchiveInjective(a: seq<Entry>, b: seq<Entry>)
    requires forall i :: 0 <= i < |a| ==> RoundTrips(a[i])
    requires forall i :: 0 <= i < |b| ==> RoundTrips(b[i])
    requires Archive(a) == Archive(b)
    ensures |a| == |b| && forall i :: 0 <= i < |a| ==> AsRead(a[i]) == AsRead(b[i])
  {
    hide AsRead, RoundTrips, Decode, Archive;
    TarRoundTrip(a);
    TarRoundTrip(b);
    assert ListAsRead(a) == ListAsRead(b);
  }

  /** Every archive is a whole number of blocks. */
  lemma {:induction false} ArchiveInBlocks(entries: seq<Entry>)
    ensures |Archive(entries)| % BLOCK == 0
  {
    hide Header, Payload;
    if entries != [] {
      ArchiveInBlocks(entries[1..]);
      PayloadInBlocks(entries[0]);
      WholeBlocks(|Payload(entries[0])|, |Archive(entries[1..])|);
    }
  }

  lemma PayloadInBlocks(e: Entry)
    ensures |Payload(e)| % BLOCK == 0
  {
  }

  lemma WholeBlocks(a: nat, b: nat)
    requires a % BLOCK == 0 && b % BLOCK == 0
    ensures (BLOCK + a + b) % BLOCK == 0
  {
    var m, n := a / BLOCK, b / BLOCK;
    assert a == m * BLOCK && b == n * BLOCK;
    assert BLOCK + a + b == (1 + m + n) * BLOCK;
  }

  // ----- The checksum -----

  predicate IsBytes(s: string) {
    forall i :: 0 <= i < |s| ==> s[i] as int < 256
  }

  lemma {:induction false} ByteSumBound(s: string)
    requires IsBytes(s)
    ensures ByteSum(s) <= 255 * |s|
  {
    if s != "" {
      ByteSumBound(s[..|s| - 1]);
    }
  }

  lemma {:induction false} OctalIsBytes(v: nat)
    ensures IsBytes(OctalDigits(v))
  {
    if 8 <= v {
      OctalIsBytes(v / 8);
    }
  }

  lemma OctalFieldIsBytes(width: nat, v: nat)
    requires 0 < width
    ensures IsBytes(OctalField(width, v))
  {
    hide OctalDigits;
    OctalIsBytes(v);
  }

  lemma JoinBytes(a: string, b: string)
    requires IsBytes(a) && IsBytes(b)
    ensures IsBytes(a + b)
  {
  }

  lemma FrontIsBytes(e: Entry)
    requires IsBytes(e.name)
    ensures IsBytes(HeaderFront(e))
  {
    hide OctalField, NameField;
    OctalFieldIsBytes(8, 420);
    OctalFieldIsBytes(8, 0);
    OctalFieldIsBytes(12, PayloadSize(e));
    OctalFieldIsBytes(12, 0);
    NameFieldIsBytes(e);
    var a := NameField(e) + OctalField(8, 420);
    JoinBytes(NameField(e), OctalField(8, 420));
    JoinBytes(a, OctalField(8, 0));
    JoinBytes(a + OctalField(8, 0), OctalField(8, 0));
    JoinBytes(a + OctalField(8, 0) + OctalField(8, 0), OctalField(12, PayloadSize(e)));
    JoinBytes(a + OctalField(8, 0) + OctalField(8, 0) + OctalField(12, PayloadSize(e)), OctalField(12, 0));
  }

  lemma NameFieldIsBytes(e: Entry)
    requires IsBytes(e.name)
    ensures IsBytes(NameField(e))
  {
  }

  lemma BackIsBytes(e: Entry)
    ensures IsBytes(HeaderBack(e)) && IsBytes("        ")
  {
  }

  /** The checksum field, read as an octal number, is the sum of the header's bytes with that field
      taken as spaces. */
  lemma ChecksumReads(e: Entry)
    requires IsBytes(e.name)
    ensures ParseOctalFrom(Header(e)[148..156], 0) == ByteSum(Header(e)[..148] + "        " + Header(e)[156..])
  {
    hide HeaderFront, HeaderBack, OctalDigits, ParseOctalFrom, ByteSum;
    var blank := HeaderFront(e) + "        " + HeaderBack(e);
    assert Header(e)[..148] == HeaderFront(e);
    assert Header(e)[148..156] == ChecksumField(e);
    assert Header(e)[156..] == HeaderBack(e);
    FrontIsBytes(e);
    BackIsBytes(e);
    JoinBytes(HeaderFront(e), "        ");
    JoinBytes(HeaderFront(e) + "        ", HeaderBack(e));
    ByteSumBound(blank);
    SixDigitsRead(Checksum(e));
  }

  lemma SixDigitsRead(v: nat)
    requires v <= 255 * 512
    ensures ParseOctalFrom(ZeroPadded(OctalDigits(v), 6)[..6] + "\0 ", 0) == v
  {
    assert Power8(6) == 262144 by { assert Power8(3) == 512; }
    OctalLength(v, 6);
    var digits := OctalDigits(v);
    var zeros := seq(6 - |digits|, i => '0');
    assert ZeroPadded(digits, 6)[..6] + "\0 " == zeros + (digits + "\0 ");
    ParseZeros(zeros, digits + "\0 ");
    ParseDigits(v, "\0 ");
  }
}
