/** Decoding a chunked response body (section 7.1 of RFC 9112) from blocks of any size, against a
    decoder that sees the whole stream at once. */
module HttpChunked {
  import opened Text

  // ----- Chunk size lines -----

  function TrimLeft(s: string): string {
    if s != "" && IsSpace(s[0]) then TrimLeft(s[1..]) else s
  }

  function TrimRight(s: string): string {
    if s != "" && IsSpace(s[|s| - 1]) then TrimRight(s[..|s| - 1]) else s
  }

  function Trim(s: string): string {
    TrimRight(TrimLeft(s))
  }

  /** The number a string of hexadecimal digits stands for. */
  function HexNumber(s: string): Option<nat> {
    if s == "" then Some(0)
    else
      var front := HexNumber(s[..|s| - 1]);
      var last := HexValue(s[|s| - 1]);
      if front.None? || last.None? then None else Some(front.value * 16 + last.value)
  }

  function UntilSemicolon(line: string): string {
    if line == "" || line[0] == ';' then "" else [line[0]] + UntilSemicolon(line[1..])
  }

  /** The size a chunk line declares: hexadecimal digits only, and no more than a size can hold. */
  function ChunkSize(line: string): Option<nat> {
    var token := Trim(UntilSemicolon(line));
    var n := HexNumber(token);
    if token == "" || n.None? || n.value > SIZE_MAX then None else n
  }

  /** The part of a line before its first semicolon. */
  method CutSemicolon(line: string) returns (front: string)
    ensures front == UntilSemicolon(line)
  {
    var end := 0;
    assert line[0..] == line;
    while end < |line| && line[end] != ';'
      invariant 0 <= end <= |line| && UntilSemicolon(line) == line[..end] + UntilSemicolon(line[end..])
    {
      assert line[end..][1..] == line[end + 1..];
      assert line[..end] + ([line[end]] + UntilSemicolon(line[end + 1..])) ==
        line[..end + 1] + UntilSemicolon(line[end + 1..]);
      end := end + 1;
    }
    front := line[..end];
  }

  /** `std::from_chars` in base 16: it fails at the first character that is no digit, and when the
      value no longer fits. */
  method FromHex(token: string) returns (size: Option<nat>)
    ensures size == if HexNumber(token).None? || HexNumber(token).value > SIZE_MAX then None else HexNumber(token)
  {
    hide HexNumber, HexValue;
    var value := 0;
    var i := 0;
    HexStart(token);
    while i < |token|
      invariant 0 <= i <= |token| && HexNumber(token[..i]) == Some(value) && value <= SIZE_MAX
    {
      HexStep(token, i);
      var digit := HexValue(token[i]);
      if digit.None? {
        HexFails(token, i + 1);
        return None;
      }
      if value * 16 + digit.value > SIZE_MAX {
        HexGrows(token, i + 1);
        return None;
      }
      value := value * 16 + digit.value;
      i := i + 1;
    }
    assert token[..|token|] == token;
    size := Some(value);
  }

  lemma HexStart(token: string)
    ensures HexNumber(token[..0]) == Some(0)
  {
  }

  lemma HexStep(token: string, i: nat)
    requires i < |token| && HexNumber(token[..i]).Some?
    ensures HexNumber(token[..i + 1]) ==
      if HexValue(token[i]).None? then None else Some(HexNumber(token[..i]).value * 16 + HexValue(token[i]).value)
  {
    assert token[..i + 1][..i] == token[..i];
  }

  /** `ParseChunkSize` */
  method ParseChunkSize(line: string) returns (size: Option<nat>)
    ensures size == ChunkSize(line)
  {
    var front := CutSemicolon(line);
    var token := Trim(front);
    if token == "" {
      return None;
    }
    size := FromHex(token);
  }

  lemma {:induction false} HexFails(s: string, k: nat)
    requires k <= |s| && HexNumber(s[..k]).None?
    ensures HexNumber(s).None?
    decreases |s|
  {
    if k == |s| {
      assert s[..k] == s;
    } else {
      assert s[..|s| - 1][..k] == s[..k];
      HexFails(s[..|s| - 1], k);
    }
  }

  lemma {:induction false} HexGrows(s: string, k: nat)
    requires k <= |s| && HexNumber(s[..k]).Some?
    ensures HexNumber(s).Some? ==> HexNumber(s[..k]).value <= HexNumber(s).value
    decreases |s|
  {
    if k == |s| {
      assert s[..k] == s;
    } else {
      assert s[..|s| - 1][..k] == s[..k];
      HexGrows(s[..|s| - 1], k);
    }
  }

  // ----- The one-shot decoder -----

  /** The position of the first CR LF. */
  function FindCrlf(s: string): (n: Option<nat>)
    ensures n.Some? ==> n.value + 2 <= |s| && s[n.value] == '\r' && s[n.value + 1] == '\n'
  {
    if |s| < 2 then None
    else if s[0] == '\r' && s[1] == '\n' then Some(0)
    else
      var n := FindCrlf(s[1..]);
      if n.None? then None else Some(n.value + 1)
  }

  datatype DecodeError = BadSizeLine | TooLarge | Aborted | MissingCrlf

  /** What a stream decodes to: a body, an error, or nothing yet because the stream is too short. */
  datatype Outcome = Complete(slices: seq<string>) | Invalid(error: DecodeError) | NeedMore

  function Concat(slices: seq<string>): string {
    if slices == [] then "" else Concat(slices[..|slices| - 1]) + slices[|slices| - 1]
  }

  /** The trailer lines end with an empty line. */
  function Trailers(s: string, slices: seq<string>): Outcome
    decreases |s|
  {
    var n := FindCrlf(s);
    if n.None? then NeedMore
    else if n.value == 0 then Complete(slices)
    else Trailers(s[n.value + 2..], slices)
  }

  /** The reference.  `accepts` is the callback: given all slices up to the current one, it goes on or
      aborts. */
  function Decode(s: string, slices: seq<string>, maxBody: nat, accepts: seq<string> -> bool): Outcome
    decreases |s|
  {
    var n := FindCrlf(s);
    if n.None? then NeedMore
    else
      var size := ChunkSize(s[..n.value]);
      if size.None? then Invalid(BadSizeLine)
      else if |Concat(slices)| + size.value > maxBody || size.value > SIZE_MAX - 2 then Invalid(TooLarge)
      else if size.value == 0 then Trailers(s[n.value + 2..], slices)
      else
        var rest := s[n.value + 2..];
        if |rest| < size.value + 2 then NeedMore
        else
          var slice := rest[..size.value];
          if !accepts(slices + [slice]) then Invalid(Aborted)
          else if rest[size.value] != '\r' || rest[size.value + 1] != '\n' then Invalid(MissingCrlf)
          else Decode(rest[size.value + 2..], slices + [slice], maxBody, accepts)
  }

  lemma {:induction false} FindCrlfAppend(a: string, b: string)
    requires FindCrlf(a).Some?
    ensures FindCrlf(a + b) == FindCrlf(a)
  {
    if !(a[0] == '\r' && a[1] == '\n') {
      assert (a + b)[1..] == a[1..] + b;
      FindCrlfAppend(a[1..], b);
    }
  }

  lemma ConcatSnoc(slices: seq<string>, s: string)
    ensures Concat(slices + [s]) == Concat(slices) + s
  {
    assert (slices + [s])[..|slices|] == slices;
  }

  ghost predicate AcceptedInTurn(slices: seq<string>, accepts: seq<string> -> bool) {
    forall k :: 1 <= k <= |slices| ==> accepts(slices[..k])
  }

  lemma AcceptedSnoc(slices: seq<string>, s: string, accepts: seq<string> -> bool)
    requires AcceptedInTurn(slices, accepts) && accepts(slices + [s])
    ensures AcceptedInTurn(slices + [s], accepts)
  {
    var more := slices + [s];
    forall k | 1 <= k <= |more| ensures accepts(more[..k]) {
      assert more[..k] == if k <= |slices| then slices[..k] else more;
    }
  }

  /** A complete body is within the limit, and every slice was accepted in turn. */
  lemma {:induction false} DecodeBounded(s: string, slices: seq<string>, maxBody: nat, accepts: seq<string> -> bool)
    requires |Concat(slices)| <= maxBody && AcceptedInTurn(slices, accepts)
    ensures var r := Decode(s, slices, maxBody, accepts);
      r.Complete? ==> |Concat(r.slices)| <= maxBody && slices <= r.slices && AcceptedInTurn(r.slices, accepts)
    decreases |s|
  {
    hide FindCrlf, ChunkSize, Decode, Concat, AcceptedInTurn, Trailers;
    DecodeSteps(s, slices, maxBody, accepts);
    var n := FindCrlf(s);
    if n.Some? && ChunkSize(s[..n.value]).Some? {
      var size := ChunkSize(s[..n.value]).value;
      var rest := s[n.value + 2..];
      TrailersKeep(rest, slices);
      if 0 < size <= SIZE_MAX - 2 && |Concat(slices)| + size <= maxBody {
        DecodeAtChunk(s, n.value, slices, size, maxBody, accepts);
        if size + 2 <= |rest| && accepts(slices + [rest[..size]]) {
          AcceptedSnoc(slices, rest[..size], accepts);
          ConcatSnoc(slices, rest[..size]);
          DecodeBounded(rest[size + 2..], slices + [rest[..size]], maxBody, accepts);
        }
      }
    }
  }

  lemma {:induction false} TrailersKeep(s: string, slices: seq<string>)
    ensures Trailers(s, slices).Complete? ==> Trailers(s, slices).slices == slices
    ensures !Trailers(s, slices).Invalid?
    decreases |s|
  {
    hide FindCrlf;
    var n := FindCrlf(s);
    if n.Some? && n.value != 0 {
      TrailersKeep(s[n.value + 2..], slices);
    }
  }

  // ----- The decoder over blocks -----

  /** What one call to the receive function yields: some bytes (none means that the connection was
      closed) or a failure. */
  datatype Block = Received(bytes: string) | Failed

  /** All bytes that arrive before the connection is closed or fails. */
  function Arriving(blocks: seq<Block>): string {
    if blocks == [] || blocks[0].Failed? || blocks[0].bytes == "" then "" else blocks[0].bytes + Arriving(blocks[1..])
  }

  /** How the connection ends after the bytes that arrive. */
  predicate EndsInFailure(blocks: seq<Block>) {
    blocks != [] && (blocks[0].Failed? || (blocks[0].bytes != "" && EndsInFailure(blocks[1..])))
  }

  datatype ReadError = Protocol(error: DecodeError) | WireTooLong | ConnectionClosed | ReceiveFailed

  datatype Limits = Limits(maxHeader: nat, maxBody: nat)

  /** Once the buffer has been read this far its front is dropped. */
  const COMPACT_AT: nat := 65536

  /** A line that is complete in the buffer is the next line of the stream. */
  lemma LineInBuffer(wire: string, cursor: nat, rest: string)
    requires cursor <= |wire| && FindCrlf(wire[cursor..]).Some?
    ensures var n := FindCrlf(wire[cursor..]).value;
      var unread := wire[cursor..] + rest;
      && cursor + n + 2 <= |wire|
      && FindCrlf(unread) == Some(n) && unread[..n] == wire[cursor..cursor + n]
      && unread[n + 2..] == wire[cursor + n + 2..] + rest
  {
    FindCrlfAppend(wire[cursor..], rest);
    var n := FindCrlf(wire[cursor..]).value;
    var unread := wire[cursor..] + rest;
    assert unread[..n] == wire[cursor..][..n] == wire[cursor..cursor + n];
  }

  /** What is in the buffer is the front of what is unread. */
  lemma UnreadInBuffer(wire: string, cursor: nat, size: nat, rest: string)
    requires cursor + size + 2 <= |wire|
    ensures var unread := wire[cursor..] + rest;
      && unread[..size] == wire[cursor..cursor + size] && unread[size] == wire[cursor + size]
      && unread[size + 1] == wire[cursor + size + 1] && unread[size + 2..] == wire[cursor + size + 2..] + rest
  {
  }

  /** The branches of the reference decoder. */
  lemma DecodeSteps(s: string, slices: seq<string>, maxBody: nat, accepts: seq<string> -> bool)
    ensures var n := FindCrlf(s);
      var r := Decode(s, slices, maxBody, accepts);
      && (n.None? ==> r == NeedMore)
      && (n.Some? ==>
        var size := ChunkSize(s[..n.value]);
        && (size.None? ==> r == Invalid(BadSizeLine))
        && (size.Some? && (|Concat(slices)| + size.value > maxBody || size.value > SIZE_MAX - 2) ==>
          r == Invalid(TooLarge))
        && (size == Some(0) && |Concat(slices)| <= maxBody ==> r == Trailers(s[n.value + 2..], slices)))
  {
    hide FindCrlf, ChunkSize, Trailers, Concat;
  }

  /** What taking a chunk of `size` bytes off the unread stream amounts to. */
  ghost predicate ChunkTaken(
    before: string, slicesBefore: seq<string>, size: nat, error: Option<ReadError>, after: string,
      slicesAfter: seq<string>,
    accepts: seq<string> -> bool)
  {
    match error
    case None =>
      && size + 2 <= |before| && before[size] == '\r' && before[size + 1] == '\n'
      && slicesAfter == slicesBefore + [before[..size]] && accepts(slicesAfter) && after == before[size + 2..]
    case Some(Protocol(Aborted)) => size + 2 <= |before| && !accepts(slicesBefore + [before[..size]])
    case Some(Protocol(MissingCrlf)) =>
      size + 2 <= |before| && accepts(slicesBefore + [before[..size]]) &&
        (before[size] != '\r' || before[size + 1] != '\n')
    case Some(Protocol(_)) => false
    case Some(WireTooLong) => true
    case Some(_) => |before| < size + 2
  }

  /** The decoder's buffer, read position and body, and the blocks still to come. */
  class Decoder {
    const limits: Limits
    const accepts: seq<string> -> bool
    var wire: string
    var cursor: nat
    var body: string
    var blocks: seq<Block>
    /** The slices the callback has accepted so far. */
    var slices: seq<string>
    ghost var stream: string

    /** What is still unread, received or not, decodes to what the whole stream decodes to. */
    ghost predicate Valid()
      reads this
    {
      && cursor <= |wire| && body == Concat(slices) && |body| <= limits.maxBody
      && |wire| + |Arriving(blocks)| <= |stream|
    }

    function Unread(): string
      requires cursor <= |wire|
      reads this
    {
      wire[cursor..] + Arriving(blocks)
    }

    constructor (remainder: string, incoming: seq<Block>, l: Limits, callback: seq<string> -> bool)
      ensures Valid() && Unread() == stream == remainder + Arriving(incoming)
      ensures wire == remainder && cursor == 0 && body == "" && slices == [] && blocks == incoming && limits == l &&
        accepts == callback
    {
      limits, accepts := l, callback;
      wire, cursor, body, blocks := remainder, 0, "", incoming;
      slices, stream := [], remainder + Arriving(incoming);
    }

    /** `fill_chunk_wire`: one more block is appended to the buffer. */
    method Fill() returns (error: Option<ReadError>)
      requires Valid()
      modifies `wire, `blocks
      ensures Valid() && Unread() == old(Unread())
      ensures error.None? ==> wire != old(wire) && old(wire) <= wire && |Arriving(blocks)| < old(|Arriving(blocks)|)
      ensures error.Some? ==> error.value in {WireTooLong, ConnectionClosed, ReceiveFailed}
      ensures error == Some(WireTooLong) ==> limits.maxHeader + limits.maxBody < |stream|
      ensures error == Some(ConnectionClosed) || error == Some(ReceiveFailed) ==>
        Arriving(blocks) == "" && wire == old(wire)
      ensures error == Some(ReceiveFailed) ==> EndsInFailure(old(blocks))
      ensures EndsInFailure(blocks) ==> EndsInFailure(old(blocks))
    {
      if blocks == [] {
        return Some(ConnectionClosed);
      }
      var block := blocks[0];
      if block.Failed? {
        return Some(ReceiveFailed);
      }
      if block.bytes == "" {
        return Some(ConnectionClosed);
      }
      ghost var before := wire;
      wire := wire + block.bytes;
      blocks := blocks[1..];
      assert wire[cursor..] == before[cursor..] + block.bytes;
      assert before[cursor..] + (block.bytes + Arriving(blocks)) == wire[cursor..] + Arriving(blocks);
      if |wire| > limits.maxHeader && |wire| - limits.maxHeader > limits.maxBody {
        return Some(WireTooLong);
      }
      error := None;
    }

    /** The search for the end of a line, filling the buffer as long as it has none. */
    method NextLine() returns (error: Option<ReadError>, line: string)
      requires Valid()
      modifies `wire, `blocks, `cursor
      ensures Valid() && (EndsInFailure(blocks) ==> EndsInFailure(old(blocks)))
      ensures error.None? ==> FindCrlf(old(Unread())) == Some(|line|) && line == old(Unread())[..|line|]
      ensures error.None? ==> Unread() == old(Unread())[|line| + 2..]
      ensures error.Some? ==> error.value in {WireTooLong, ConnectionClosed, ReceiveFailed}
      ensures error == Some(WireTooLong) ==> limits.maxHeader + limits.maxBody < |stream|
      ensures error == Some(ConnectionClosed) || error == Some(ReceiveFailed) ==> FindCrlf(old(Unread())).None?
      ensures error == Some(ReceiveFailed) ==> EndsInFailure(old(blocks))
    {
      hide FindCrlf, Arriving, Concat, EndsInFailure;
      line := "";
      var end := FindCrlf(wire[cursor..]);
      while end.None?
        invariant Valid() && Unread() == old(Unread()) && cursor == old(cursor)
        invariant end == FindCrlf(wire[cursor..])
        invariant EndsInFailure(blocks) ==> EndsInFailure(old(blocks))
        decreases |Arriving(blocks)|
      {
        error := Fill();
        if error.Some? {
          assert wire[cursor..] + "" == wire[cursor..];
          return;
        }
        end := FindCrlf(wire[cursor..]);
      }
      LineInBuffer(wire, cursor, Arriving(blocks));
      line := wire[cursor..cursor + end.value];
      cursor := cursor + end.value + 2;
      error := None;
    }

    /** Fills the buffer until it holds this many unread bytes. */
    method Await(need: nat) returns (error: Option<ReadError>)
      requires Valid()
      modifies `wire, `blocks
      ensures Valid() && Unread() == old(Unread()) && (EndsInFailure(blocks) ==> EndsInFailure(old(blocks)))
      ensures error.None? ==> cursor + need <= |wire|
      ensures error.Some? ==> error.value in {WireTooLong, ConnectionClosed, ReceiveFailed}
      ensures error == Some(WireTooLong) ==> limits.maxHeader + limits.maxBody < |stream|
      ensures error == Some(ConnectionClosed) || error == Some(ReceiveFailed) ==> |Unread()| < need
      ensures error == Some(ReceiveFailed) ==> EndsInFailure(old(blocks))
    {
      hide Concat, EndsInFailure, Arriving;
      while |wire| - cursor < need
        invariant Valid() && Unread() == old(Unread())
        invariant EndsInFailure(blocks) ==> EndsInFailure(old(blocks))
        decreases |Arriving(blocks)|
      {
        error := Fill();
        if error.Some? {
          return;
        }
      }
      error := None;
    }

    /** `AppendBodyChunk`: the limit is checked again, the callback is asked, the body grows. */
    method AppendBodyChunk(slice: string) returns (error: Option<DecodeError>)
      requires Valid()
      modifies `body, `slices
      ensures Valid()
      ensures slice == "" ==> error.None? && body == old(body) && slices == old(slices)
      ensures slice != "" && limits.maxBody < |old(body)| + |slice| ==> error == Some(TooLarge)
      ensures slice != "" && |old(body)| + |slice| <= limits.maxBody ==>
        error == if accepts(old(slices) + [slice]) then None else Some(Aborted)
      ensures slice != "" && error.None? ==> slices == old(slices) + [slice] && body == old(body) + slice
      ensures error.Some? ==> slices == old(slices) && body == old(body)
    {
      hide Concat, Arriving;
      if slice == "" {
        return None;
      }
      if |body| > limits.maxBody || |slice| > limits.maxBody - |body| {
        return Some(TooLarge);
      }
      if !accepts(slices + [slice]) {
        return Some(Aborted);
      }
      ConcatSnoc(slices, slice);
      body := body + slice;
      slices := slices + [slice];
      error := None;
    }

    /** The loop over the trailer lines. */
    method SkipTrailers() returns (error: Option<ReadError>)
      requires Valid()
      modifies `wire, `blocks, `cursor
      ensures Valid()
      ensures error.None? ==> Trailers(old(Unread()), slices) == Complete(slices)
      ensures error.Some? ==> error.value in {WireTooLong, ConnectionClosed, ReceiveFailed}
      ensures error == Some(WireTooLong) ==> limits.maxHeader + limits.maxBody < |stream|
      ensures error == Some(ConnectionClosed) || error == Some(ReceiveFailed) ==>
        Trailers(old(Unread()), slices) == NeedMore
      ensures error == Some(ReceiveFailed) ==> EndsInFailure(old(blocks))
    {
      hide Concat, EndsInFailure, FindCrlf, Arriving;
      while true
        invariant Valid() && Trailers(Unread(), slices) == Trailers(old(Unread()), slices)
        invariant EndsInFailure(blocks) ==> EndsInFailure(old(blocks))
        decreases |Unread()|
      {
        var line;
        error, line := NextLine();
        if error.Some? || line == "" {
          return;
        }
      }
    }

    /** One chunk of data and the CR LF behind it. */
    method TakeChunk(size: nat) returns (error: Option<ReadError>)
      requires Valid() && 0 < size <= SIZE_MAX - 2 && |body| + size <= limits.maxBody
      modifies `wire, `blocks, `cursor, `body, `slices
      ensures Valid() && (EndsInFailure(blocks) ==> EndsInFailure(old(blocks)))
      ensures ChunkTaken(old(Unread()), old(slices), size, error, Unread(), slices, accepts)
      ensures error == Some(WireTooLong) ==> limits.maxHeader + limits.maxBody < |stream|
      ensures error == Some(ReceiveFailed) ==> EndsInFailure(old(blocks))
    {
      hide Concat, EndsInFailure, Arriving;
      assert size + 2 <= SIZE_MAX;
      error := Await(size + 2);
      if error.Some? { return; }
      UnreadInBuffer(wire, cursor, size, Arriving(blocks));
      var refused := AppendBodyChunk(wire[cursor..cursor + size]);
      if refused.Some? {
        return Some(Protocol(refused.value));
      }
      if wire[cursor + size] != '\r' || wire[cursor + size + 1] != '\n' {
        return Some(Protocol(MissingCrlf));
      }
      cursor := cursor + size + 2;
      if cursor > COMPACT_AT {
        wire := wire[cursor..];
        cursor := 0;
      }
      error := None;
    }

    /** The chunked branch of the response reader.  However the stream is cut into blocks, the outcome
        is that of the one-shot decoder on the whole stream: the same body from the same slices, or
        the same error; only a stream longer than both limits together may be given up instead. */
    method ReadBody() returns (r: Result<string, ReadError>)
      requires Valid() && Unread() == stream && slices == []
      modifies `wire, `blocks, `cursor, `body, `slices
      ensures r.Ok? ==> Decode(stream, [], limits.maxBody, accepts) == Complete(slices) && r.value == Concat(slices)
      ensures r.Ok? ==> |r.value| <= limits.maxBody
      ensures r.Err? && r.error.Protocol? ==> Decode(stream, [], limits.maxBody, accepts) == Invalid(r.error.error)
      ensures r.Err? && (r.error.ConnectionClosed? || r.error.ReceiveFailed?) ==>
        Decode(stream, [], limits.maxBody, accepts) == NeedMore
      ensures r == Err(ReceiveFailed) ==> EndsInFailure(old(blocks))
      ensures r == Err(WireTooLong) ==> limits.maxHeader + limits.maxBody < |stream|
      ensures Decode(stream, [], limits.maxBody, accepts).Complete? && |stream| <= limits.maxHeader + limits.maxBody ==>
        r.Ok?
    {
      hide Concat, EndsInFailure, FindCrlf, Arriving, ChunkSize, Decode, ChunkTaken, Trailers;
      NoSlices();
      ghost var target := Decode(stream, [], limits.maxBody, accepts);
      while true
        invariant Valid() && Decode(Unread(), slices, limits.maxBody, accepts) == target
        invariant EndsInFailure(blocks) ==> EndsInFailure(old(blocks))
        decreases |Unread()|
      {
        ghost var unread := Unread();
        DecodeSteps(unread, slices, limits.maxBody, accepts);
        var error, line := NextLine();
        if error.Some? {
          return Err(error.value);
        }
        var size := ParseChunkSize(line);
        if size.None? {
          return Err(Protocol(BadSizeLine));
        }
        assert |body| <= limits.maxBody;
        if size.value > limits.maxBody - |body| || size.value > SIZE_MAX - 2 {
          return Err(Protocol(TooLarge));
        }
        if size.value == 0 {
          error := SkipTrailers();
          TrailersKeep(unread[|line| + 2..], slices);
          return if error.Some? then Err(error.value) else Ok(body);
        }
        ghost var rest, before := Unread(), slices;
        error := TakeChunk(size.value);
        DecodeChunk(unread, |line|, before, size.value, error, Unread(), slices, limits.maxBody, accepts);
        if error.Some? {
          return Err(error.value);
        }
      }
    }
  }

  /** The reference decoder at a chunk with data. */
  lemma DecodeAtChunk(s: string, n: nat, slices: seq<string>, size: nat, maxBody: nat, accepts: seq<string> -> bool)
    requires FindCrlf(s) == Some(n) && ChunkSize(s[..n]) == Some(size) && 0 < size <= SIZE_MAX - 2
    requires |Concat(slices)| + size <= maxBody
    ensures var rest := s[n + 2..];
      Decode(s, slices, maxBody, accepts) ==
        if |rest| < size + 2 then NeedMore
        else if !accepts(slices + [rest[..size]]) then Invalid(Aborted)
        else if rest[size] != '\r' || rest[size + 1] != '\n' then Invalid(MissingCrlf)
        else Decode(rest[size + 2..], slices + [rest[..size]], maxBody, accepts)
  {
    hide FindCrlf, ChunkSize, Concat;
  }

  /** Taking a chunk follows the reference decoder. */
  lemma DecodeChunk(
    s: string, n: nat, before: seq<string>, size: nat, error: Option<ReadError>, after: string, slices: seq<string>,
    maxBody: nat, accepts: seq<string> -> bool)
    requires FindCrlf(s) == Some(n) && ChunkSize(s[..n]) == Some(size) && 0 < size <= SIZE_MAX - 2
    requires |Concat(before)| + size <= maxBody
    requires ChunkTaken(s[n + 2..], before, size, error, after, slices, accepts)
    ensures var r := Decode(s, before, maxBody, accepts);
      && (error.None? ==> r == Decode(after, slices, maxBody, accepts) && |after| < |s|)
      && (error.Some? && error.value.Protocol? ==> r == Invalid(error.value.error))
      && (error.Some? && (error.value.ConnectionClosed? || error.value.ReceiveFailed?) ==> r == NeedMore)
  {
    hide FindCrlf, ChunkSize, Concat, Decode;
    DecodeAtChunk(s, n, before, size, maxBody, accepts);
  }

  lemma NoSlices()
    ensures Concat([]) == ""
  {
  }

  // ----- The encoding that is decoded -----

  const CRLF := "\r\n"

  function HexDigits(n: nat): (s: string)
    ensures s != ""
    ensures forall i :: 0 <= i < |s| ==> !IsSpace(s[i]) && s[i] != ';' && s[i] != '\r'
  {
    if n < 16 then [HexChar(n)] else HexDigits(n / 16) + [HexChar(n % 16)]
  }

  /** A chunked body as a sender writes it: size lines, each followed by its chunk, the size line of the last
      chunk, trailer lines, an empty line. */
  function Encoded(lines: seq<string>, chunks: seq<string>, trailers: seq<string>): string
    requires |lines| == |chunks| + 1
  {
    if chunks == [] then lines[0] + CRLF + EncodedTrailers(trailers)
    else lines[0] + CRLF + chunks[0] + CRLF + Encoded(lines[1..], chunks[1..], trailers)
  }

  function EncodedTrailers(trailers: seq<string>): string {
    if trailers == [] then CRLF else trailers[0] + CRLF + EncodedTrailers(trailers[1..])
  }

  lemma {:induction false} HexRoundTrip(n: nat)
    ensures HexNumber(HexDigits(n)) == Some(n)
  {
    var s := HexDigits(n);
    if n < 16 {
      assert s[..|s| - 1] == "" && s[|s| - 1] == HexChar(n);
    } else {
      HexRoundTrip(n / 16);
      assert s[..|s| - 1] == HexDigits(n / 16) && s[|s| - 1] == HexChar(n % 16);
    }
  }

  lemma {:induction false} CutAt(s: string, ext: string)
    requires ';' !in s && (ext == "" || ext[0] == ';')
    ensures UntilSemicolon(s + ext) == s
  {
    if s == "" {
      assert s + ext == ext;
    } else {
      assert (s + ext)[1..] == s[1..] + ext;
      CutAt(s[1..], ext);
    }
  }

  /** The size a sender prints reads back. */
  lemma ChunkSizeReads(n: nat)
    requires n <= SIZE_MAX
    ensures ChunkSize(HexDigits(n)) == Some(n)
  {
    HexRoundTrip(n);
    CutAt(HexDigits(n), "");
    assert HexDigits(n) + "" == HexDigits(n);
  }

  // ----- Which lines declare a size -----

  /** A numeral of hexadecimal digits of either case. */
  ghost predicate IsHexNumeral(s: string, n: nat) {
    if s == "" then n == 0
    else IsHexNumeral(s[..|s| - 1], n / 16) && IsHexDigit(s[|s| - 1], n % 16)
  }

  /** A numeral with blanks around it and possibly an extension behind a semicolon. */
  ghost predicate IsSizeLine(line: string, n: nat) {
    exists lead, digits, tail, ext :: SizeLineOf(line, n, lead, digits, tail, ext)
  }

  ghost predicate SizeLineOf(line: string, n: nat, lead: string, digits: string, tail: string, ext: string) {
    && line == lead + digits + tail + ext
    && AllBlank(lead) && digits != "" && IsHexNumeral(digits, n) && AllBlank(tail) && (ext == "" || ext[0] == ';')
  }

  lemma {:induction false} HexNumeralIff(s: string, n: nat)
    ensures IsHexNumeral(s, n) <==> HexNumber(s) == Some(n)
    decreases |s|
  {
    hide HexValue, IsHexDigit;
    if s != "" {
      var init, last := s[..|s| - 1], s[|s| - 1];
      if HexNumber(s) == Some(n) {
        HexNumeralIff(init, HexNumber(init).value);
        HexValueIff(last, HexValue(last).value);
      }
      if IsHexNumeral(s, n) {
        HexNumeralIff(init, n / 16);
        HexValueIff(last, n % 16);
      }
    }
  }

  lemma {:induction false} NumeralIsPlain(s: string, n: nat)
    requires HexNumber(s) == Some(n)
    ensures forall i :: 0 <= i < |s| ==> !IsSpace(s[i]) && s[i] != ';'
    decreases |s|
  {
    if s != "" {
      NumeralIsPlain(s[..|s| - 1], HexNumber(s[..|s| - 1]).value);
      assert forall i :: 0 <= i < |s| - 1 ==> s[i] == s[..|s| - 1][i];
    }
  }

  lemma {:induction false} LeftTrimmed(s: string) returns (lead: string)
    ensures s == lead + TrimLeft(s) && AllBlank(lead)
  {
    if s != "" && IsSpace(s[0]) {
      var rest := LeftTrimmed(s[1..]);
      lead := [s[0]] + rest;
    } else {
      lead := "";
    }
  }

  lemma {:induction false} RightTrimmed(s: string) returns (tail: string)
    ensures s == TrimRight(s) + tail && AllBlank(tail)
    decreases |s|
  {
    if s != "" && IsSpace(s[|s| - 1]) {
      var rest := RightTrimmed(s[..|s| - 1]);
      tail := rest + [s[|s| - 1]];
    } else {
      tail := "";
    }
  }

  lemma {:induction false} TrimLeftDrops(lead: string, s: string)
    requires AllBlank(lead) && s != "" && !IsSpace(s[0])
    ensures TrimLeft(lead + s) == s
  {
    if lead == "" {
      assert lead + s == s;
    } else {
      assert (lead + s)[1..] == lead[1..] + s;
      TrimLeftDrops(lead[1..], s);
    }
  }

  lemma {:induction false} TrimRightDrops(s: string, tail: string)
    requires AllBlank(tail) && s != "" && !IsSpace(s[|s| - 1])
    ensures TrimRight(s + tail) == s
    decreases |tail|
  {
    if tail == "" {
      assert s + tail == s;
    } else {
      assert (s + tail)[..|s + tail| - 1] == s + tail[..|tail| - 1];
      TrimRightDrops(s, tail[..|tail| - 1]);
    }
  }

  lemma {:induction false} CutOff(line: string) returns (ext: string)
    ensures line == UntilSemicolon(line) + ext && (ext == "" || ext[0] == ';')
  {
    if line == "" || line[0] == ';' {
      ext := line;
    } else {
      ext := CutOff(line[1..]);
    }
  }

  lemma SizeLineFound(line: string, n: nat)
    requires ChunkSize(line) == Some(n)
    ensures IsSizeLine(line, n)
  {
    hide HexNumber, TrimLeft, TrimRight, UntilSemicolon;
    var front := UntilSemicolon(line);
    var ext := CutOff(line);
    var lead := LeftTrimmed(front);
    var tail := RightTrimmed(TrimLeft(front));
    HexNumeralIff(Trim(front), n);
    assert SizeLineOf(line, n, lead, Trim(front), tail, ext);
  }

  lemma SizeLineReads(line: string, n: nat, lead: string, digits: string, tail: string, ext: string)
    requires SizeLineOf(line, n, lead, digits, tail, ext) && n <= SIZE_MAX
    ensures ChunkSize(line) == Some(n)
  {
    hide HexNumber, TrimLeft, TrimRight, UntilSemicolon, IsHexNumeral;
    HexNumeralIff(digits, n);
    NumeralIsPlain(digits, n);
    var front := lead + digits + tail;
    assert ';' !in front;
    CutAt(front, ext);
    assert front == lead + (digits + tail);
    TrimLeftDrops(lead, digits + tail);
    TrimRightDrops(digits, tail);
  }

  /** A line declares a size exactly if it is a numeral that fits, in digits of either case, with blanks
      around it and anything behind a semicolon. */
  lemma ChunkSizeIff(line: string, n: nat)
    ensures ChunkSize(line) == Some(n) <==> n <= SIZE_MAX && IsSizeLine(line, n)
  {
    hide ChunkSize, SizeLineOf;
    if ChunkSize(line) == Some(n) {
      SizeLineFound(line, n);
      ChunkSizeFits(line);
    }
    if n <= SIZE_MAX && IsSizeLine(line, n) {
      var lead, digits, tail, ext :| SizeLineOf(line, n, lead, digits, tail, ext);
      SizeLineReads(line, n, lead, digits, tail, ext);
    }
  }

  lemma ChunkSizeFits(line: string)
    ensures ChunkSize(line).Some? ==> ChunkSize(line).value <= SIZE_MAX
  {
  }

  /** No line end within the line. */
  predicate IsLine(line: string) {
    forall i :: 0 <= i < |line| - 1 ==> !(line[i] == '\r' && line[i + 1] == '\n')
  }

  lemma {:induction false} FindCrlfBehind(line: string, rest: string)
    requires IsLine(line)
    ensures FindCrlf(line + CRLF + rest) == Some(|line|)
  {
    var s := line + CRLF + rest;
    if line == "" {
      assert s[0] == '\r' && s[1] == '\n';
    } else {
      assert s[1..] == line[1..] + CRLF + rest;
      FindCrlfBehind(line[1..], rest);
    }
  }

  lemma {:induction false} LineFound(s: string)
    requires FindCrlf(s).Some?
    ensures IsLine(s[..FindCrlf(s).value])
    ensures s == s[..FindCrlf(s).value] + CRLF + s[FindCrlf(s).value + 2..]
  {
    if !(s[0] == '\r' && s[1] == '\n') {
      LineFound(s[1..]);
      var n := FindCrlf(s).value;
      assert s[..n] == [s[0]] + s[1..][..n - 1];
      assert s[n + 2..] == s[1..][n + 1..];
    }
  }

  /** Trailer lines of an encoded body. */
  predicate AreTrailers(trailers: seq<string>) {
    forall i :: 0 <= i < |trailers| ==> trailers[i] != "" && IsLine(trailers[i])
  }

  lemma {:induction false} TrailersRead(trailers: seq<string>, extra: string, slices: seq<string>)
    requires AreTrailers(trailers)
    ensures Trailers(EncodedTrailers(trailers) + extra, slices) == Complete(slices)
  {
    hide FindCrlf, IsLine;
    var s := EncodedTrailers(trailers) + extra;
    if trailers == [] {
      NoLine();
      FindCrlfBehind("", extra);
      assert s == "" + CRLF + extra;
    } else {
      var rest := EncodedTrailers(trailers[1..]) + extra;
      FindCrlfBehind(trailers[0], rest);
      assert s == trailers[0] + CRLF + rest;
      assert s[|trailers[0]| + 2..] == rest;
      TrailersRead(trailers[1..], extra, slices);
    }
  }

  lemma NoLine()
    ensures IsLine("")
  {
  }

  lemma {:induction false} TrailersFound(s: string, slices: seq<string>) returns (trailers: seq<string>, extra: string)
    requires Trailers(s, slices).Complete?
    ensures AreTrailers(trailers) && s == EncodedTrailers(trailers) + extra
    decreases |s|
  {
    hide FindCrlf, IsLine;
    var n := FindCrlf(s).value;
    var line, rest := s[..n], s[n + 2..];
    LineFound(s);
    if n == 0 {
      trailers, extra := [], rest;
      assert s == CRLF + rest;
    } else {
      var more;
      more, extra := TrailersFound(rest, slices);
      trailers := [line] + more;
      assert s == line + CRLF + EncodedTrailers(more) + extra;
    }
  }

  /** Size lines for these chunks and for the last, empty one. */
  ghost predicate AreSizeLines(lines: seq<string>, chunks: seq<string>) {
    && |lines| == |chunks| + 1 && IsSizeLine(lines[|chunks|], 0) && IsLine(lines[|chunks|])
    && forall i :: 0 <= i < |chunks| ==> IsSizeLine(lines[i], |chunks[i]|) && IsLine(lines[i])
  }

  /** The chunks can be delivered: none is empty, they fit the limits, and the callback takes each. */
  ghost predicate Deliverable(chunks: seq<string>, slices: seq<string>, maxBody: nat, accepts: seq<string> -> bool) {
    && |Concat(slices + chunks)| <= maxBody
    && (forall i :: 0 <= i < |chunks| ==> chunks[i] != "" && |chunks[i]| <= SIZE_MAX - 2)
    && (forall k :: 0 < k <= |chunks| ==> accepts(slices + chunks[..k]))
  }

  lemma DeliverableStep(
    data: string, chunks: seq<string>, slices: seq<string>, maxBody: nat, accepts: seq<string> -> bool)
    ensures Deliverable([data] + chunks, slices, maxBody, accepts) <==>
      && data != "" && |data| <= SIZE_MAX - 2 && |Concat(slices + [data])| <= maxBody && accepts(slices + [data])
      && Deliverable(chunks, slices + [data], maxBody, accepts)
  {
    hide Concat;
    var all, more := [data] + chunks, slices + [data];
    assert slices + all == more + chunks;
    ConcatOfPrefix(more, chunks);
    forall k | 0 <= k <= |chunks| ensures more + chunks[..k] == slices + all[..k + 1] {
      assert all[..k + 1] == [data] + chunks[..k];
    }
    assert more == slices + all[..1];
    assert forall i :: 0 <= i < |chunks| ==> chunks[i] == all[i + 1];
    if Deliverable(chunks, more, maxBody, accepts) && accepts(more) {
      forall k | 0 < k <= |all| ensures accepts(slices + all[..k]) {
        assert k > 1 ==> slices + all[..k] == more + chunks[..k - 1];
      }
    }
    if Deliverable(all, slices, maxBody, accepts) {
      assert all[0] == data;
      forall k | 0 < k <= |chunks| ensures accepts(more + chunks[..k]) {
        assert more + chunks[..k] == slices + all[..k + 1];
      }
    }
  }

  /** What is written as chunks is decoded to those chunks, however their sizes are written and whatever
      follows the end of the body. */
  lemma {:induction false} ChunkedRoundTrip(
    lines: seq<string>, chunks: seq<string>, trailers: seq<string>, extra: string, slices: seq<string>, maxBody: nat,
      accepts: seq<string> -> bool)
    requires AreSizeLines(lines, chunks) && AreTrailers(trailers) && Deliverable(chunks, slices, maxBody, accepts)
    ensures Decode(Encoded(lines, chunks, trailers) + extra, slices, maxBody, accepts) == Complete(slices + chunks)
    decreases |chunks|
  {
    hide FindCrlf, ChunkSize, Decode, Trailers, Concat, IsSizeLine, IsLine, AreTrailers;
    var s := Encoded(lines, chunks, trailers) + extra;
    if chunks == [] {
      assert slices + chunks == slices;
      LastChunk(lines[0], trailers, extra, slices, maxBody, accepts);
    } else {
      var data, rest := chunks[0], Encoded(lines[1..], chunks[1..], trailers) + extra;
      var more := slices + [data];
      assert more + chunks[1..] == slices + chunks;
      assert chunks == [data] + chunks[1..];
      DeliverableStep(data, chunks[1..], slices, maxBody, accepts);
      FirstChunk(lines[0], data, rest, slices, maxBody, accepts);
      assert s == lines[0] + CRLF + data + CRLF + rest;
      ChunkedRoundTrip(lines[1..], chunks[1..], trailers, extra, more, maxBody, accepts);
    }
  }

  /** Whatever is decoded to a body is an encoding of it. */
  lemma {:induction false} EncodingFound(s: string, slices: seq<string>, maxBody: nat, accepts: seq<string> -> bool)
    returns (lines: seq<string>, chunks: seq<string>, trailers: seq<string>, extra: string)
    requires Decode(s, slices, maxBody, accepts).Complete?
    ensures AreSizeLines(lines, chunks) && AreTrailers(trailers) && s == Encoded(lines, chunks, trailers) + extra
    ensures Decode(s, slices, maxBody, accepts).slices == slices + chunks
    ensures Deliverable(chunks, slices, maxBody, accepts)
    decreases |s|
  {
    hide FindCrlf, ChunkSize, Decode, Trailers, Concat, IsSizeLine, IsLine, AreTrailers, Deliverable;
    hide AreSizeLines, Encoded, EncodedTrailers;
    DecodeSteps(s, slices, maxBody, accepts);
    var n := FindCrlf(s).value;
    LineFound(s);
    var line, rest := s[..n], s[n + 2..];
    var size := ChunkSize(line).value;
    ChunkSizeIff(line, size);
    if size == 0 {
      TrailersKeep(rest, slices);
      trailers, extra := TrailersFound(rest, slices);
      lines, chunks := [line], [];
      assert slices + [] == slices;
      NothingToDeliver(slices, maxBody, accepts);
      EncodedEnd(line, trailers, extra);
    } else {
      DecodeAtChunk(s, n, slices, size, maxBody, accepts);
      var data, left := rest[..size], rest[size + 2..];
      var lines', chunks';
      lines', chunks', trailers, extra := EncodingFound(left, slices + [data], maxBody, accepts);
      lines, chunks := [line] + lines', [data] + chunks';
      assert slices + [data] + chunks' == slices + chunks;
      assert rest == data + CRLF + left;
      ConcatSnoc(slices, data);
      DeliverableStep(data, chunks', slices, maxBody, accepts);
      EncodedStep(line, data, lines', chunks', trailers, extra);
    }
  }

  lemma EncodedEnd(line: string, trailers: seq<string>, extra: string)
    requires IsSizeLine(line, 0) && IsLine(line)
    ensures AreSizeLines([line], [])
    ensures Encoded([line], [], trailers) + extra == line + CRLF + (EncodedTrailers(trailers) + extra)
  {
    hide IsSizeLine, IsLine;
  }

  lemma EncodedStep(line: string, data: string, lines: seq<string>, chunks: seq<string>, trailers: seq<string>,
      extra: string)
    requires IsSizeLine(line, |data|) && IsLine(line) && AreSizeLines(lines, chunks)
    ensures AreSizeLines([line] + lines, [data] + chunks)
    ensures Encoded([line] + lines, [data] + chunks, trailers) + extra
      == line + CRLF + (data + CRLF + (Encoded(lines, chunks, trailers) + extra))
  {
    hide IsSizeLine, IsLine;
    assert ([line] + lines)[1..] == lines && ([data] + chunks)[1..] == chunks;
    SizeLinesAre(lines, chunks);
    forall i | 0 <= i < |chunks| + 1
      ensures IsSizeLine(([line] + lines)[i], |([data] + chunks)[i]|) && IsLine(([line] + lines)[i])
    {
      assert i > 0 ==> ([line] + lines)[i] == lines[i - 1] && ([data] + chunks)[i] == chunks[i - 1];
    }
  }

  lemma SizeLinesAre(lines: seq<string>, chunks: seq<string>)
    requires AreSizeLines(lines, chunks)
    ensures |lines| == |chunks| + 1
  {
  }

  lemma NothingToDeliver(slices: seq<string>, maxBody: nat, accepts: seq<string> -> bool)
    ensures Deliverable([], slices, maxBody, accepts) <==> |Concat(slices)| <= maxBody
  {
    assert slices + [] == slices;
  }

  ghost predicate IsEncoding(s: string, chunks: seq<string>) {
    exists lines, trailers, extra :: EncodedBy(s, chunks, lines, trailers, extra)
  }

  ghost predicate EncodedBy(s: string, chunks: seq<string>, lines: seq<string>, trailers: seq<string>, extra: string) {
    AreSizeLines(lines, chunks) && AreTrailers(trailers) && s == Encoded(lines, chunks, trailers) + extra
  }

  /** A stream decodes to these chunks exactly if it is, up to what follows, an encoding of them, and they
      can be delivered. */
  lemma DecodeIff(s: string, chunks: seq<string>, maxBody: nat, accepts: seq<string> -> bool)
    ensures Decode(s, [], maxBody, accepts) == Complete(chunks) <==>
      IsEncoding(s, chunks) && Deliverable(chunks, [], maxBody, accepts)
  {
    hide Decode, AreSizeLines, AreTrailers, Deliverable, Encoded;
    assert [] + chunks == chunks;
    if Decode(s, [], maxBody, accepts) == Complete(chunks) {
      var lines, chunks', trailers, extra := EncodingFound(s, [], maxBody, accepts);
      assert [] + chunks' == chunks';
      assert EncodedBy(s, chunks, lines, trailers, extra);
    }
    if IsEncoding(s, chunks) && Deliverable(chunks, [], maxBody, accepts) {
      var lines, trailers, extra :| EncodedBy(s, chunks, lines, trailers, extra);
      ChunkedRoundTrip(lines, chunks, trailers, extra, [], maxBody, accepts);
    }
  }

  lemma {:induction false} ConcatOfPrefix(a: seq<string>, b: seq<string>)
    ensures |Concat(a)| <= |Concat(a + b)|
  {
    if b == [] {
      assert a + b == a;
    } else {
      ConcatOfPrefix(a, b[..|b| - 1]);
      assert (a + b)[..|a + b| - 1] == a + b[..|b| - 1];
    }
  }

  lemma LastChunk(line: string, trailers: seq<string>, extra: string, slices: seq<string>, maxBody: nat,
      accepts: seq<string> -> bool)
    requires IsSizeLine(line, 0) && IsLine(line) && AreTrailers(trailers)
    requires |Concat(slices)| <= maxBody
    ensures Decode(line + CRLF + EncodedTrailers(trailers) + extra, slices, maxBody, accepts) == Complete(slices)
  {
    hide FindCrlf, ChunkSize, Concat, Trailers, IsSizeLine, IsLine;
    var rest := EncodedTrailers(trailers) + extra;
    var s := line + CRLF + EncodedTrailers(trailers) + extra;
    assert s == line + CRLF + rest;
    FindCrlfBehind(line, rest);
    assert s[..|line|] == line && s[|line| + 2..] == rest;
    ChunkSizeIff(line, 0);
    TrailersRead(trailers, extra, slices);
  }

  lemma FirstChunk(line: string, data: string, rest: string, slices: seq<string>, maxBody: nat,
      accepts: seq<string> -> bool)
    requires IsSizeLine(line, |data|) && IsLine(line)
    requires data != "" && |data| <= SIZE_MAX - 2 && |Concat(slices + [data])| <= maxBody && accepts(slices + [data])
    ensures Decode(line + CRLF + data + CRLF + rest, slices, maxBody, accepts)
      == Decode(rest, slices + [data], maxBody, accepts)
  {
    hide FindCrlf, ChunkSize, Concat, IsSizeLine, IsLine, Decode;
    var body := data + CRLF + rest;
    var s := line + CRLF + data + CRLF + rest;
    assert s == line + CRLF + body;
    FindCrlfBehind(line, body);
    assert s[..|line|] == line && s[|line| + 2..] == body;
    ChunkSizeIff(line, |data|);
    ConcatSnoc(slices, data);
    DecodeAtChunk(s, |line|, slices, |data|, maxBody, accepts);
    ChunkInBody(data, rest);
  }

  lemma ChunkInBody(data: string, rest: string)
    ensures var body := data + CRLF + rest;
      && body[..|data|] == data && body[|data|] == '\r' && body[|data| + 1] == '\n' && body[|data| + 2..] == rest
  {
  }
}
