/** What each hop of a redirect chain carries on, told from the request before it, the request after it
    and the reply between them. */
module HttpHops {
  import opened Text
  import opened HttpRedirect

  // ----- Names in any spelling -----

  /** The letter at this place of the alphabet, large and small. */
  predicate IsLetter(large: char, small: char, i: nat) {
    i < 26 && large == "ABCDEFGHIJKLMNOPQRSTUVWXYZ"[i] && small == "abcdefghijklmnopqrstuvwxyz"[i]
  }

  predicate SameLetter(a: char, b: char) {
    a == b || exists i :: 0 <= i < 26 && (IsLetter(a, b, i) || IsLetter(b, a, i))
  }

  /** Two names that differ at most in the case of their letters. */
  predicate SameName(a: string, b: string) {
    |a| == |b| && forall i :: 0 <= i < |a| ==> SameLetter(a[i], b[i])
  }

  lemma LargeLetter(i: nat)
    requires i < 26
    ensures "ABCDEFGHIJKLMNOPQRSTUVWXYZ"[i] as int == 'A' as int + i
  {
  }

  lemma SmallLetter(i: nat)
    requires i < 26
    ensures "abcdefghijklmnopqrstuvwxyz"[i] as int == 'a' as int + i
  {
  }

  lemma IsLetterIff(large: char, small: char, i: nat)
    requires i < 26
    ensures IsLetter(large, small, i) <==> large as int == 'A' as int + i && small as int == 'a' as int + i
  {
    LargeLetter(i);
    SmallLetter(i);
  }

  lemma SameLetterIff(a: char, b: char)
    ensures LowerChar(a) == LowerChar(b) <==> SameLetter(a, b)
  {
    hide IsLetter;
    if LowerChar(a) == LowerChar(b) && a != b {
      var i := LowerChar(a) as int - 'a' as int;
      IsLetterIff(a, b, i);
      IsLetterIff(b, a, i);
    }
    if i :| 0 <= i < 26 && (IsLetter(a, b, i) || IsLetter(b, a, i)) {
      IsLetterIff(a, b, i);
      IsLetterIff(b, a, i);
    }
  }

  lemma SameNameIff(a: string, b: string)
    ensures Lower(a) == Lower(b) <==> SameName(a, b)
  {
    hide LowerChar, SameLetter;
    if Lower(a) == Lower(b) {
      assert |a| == |b|;
      forall i | 0 <= i < |a| ensures SameLetter(a[i], b[i]) {
        assert Lower(a)[i] == Lower(b)[i];
        SameLetterIff(a[i], b[i]);
      }
    }
    if SameName(a, b) {
      forall i | 0 <= i < |a| ensures Lower(a)[i] == Lower(b)[i] {
        SameLetterIff(a[i], b[i]);
      }
    }
  }

  lemma HasHeaderIff(headers: seq<Header>, name: string)
    ensures HasHeader(headers, name) <==> exists h :: h in headers && SameName(h.name, name)
  {
    hide Lower, SameName;
    if HasHeader(headers, name) {
      var i :| 0 <= i < |headers| && Lower(headers[i].name) == Lower(name);
      SameNameIff(headers[i].name, name);
    }
    if h :| h in headers && SameName(h.name, name) {
      SameNameIff(h.name, name);
      var i :| 0 <= i < |headers| && headers[i] == h;
    }
  }

  /** Header i is the first of this name, and has this value. */
  ghost predicate FirstOf(headers: seq<Header>, name: string, value: string, i: nat) {
    && i < |headers| && headers[i].value == value && SameName(headers[i].name, name)
    && forall k :: 0 <= k < i ==> !SameName(headers[k].name, name)
  }

  /** The value of the first header of a name, whatever its spelling. */
  lemma {:induction false} FindHeaderIff(headers: seq<Header>, name: string, value: string)
    ensures FindHeader(headers, name) == Some(value) <==> exists i: nat :: FirstOf(headers, name, value, i)
  {
    hide Lower, SameName;
    if headers != [] {
      if SameName(headers[0].name, name) {
        assert FirstOf(headers, name, headers[0].value, 0);
      }
      SameNameIff(headers[0].name, name);
      var rest := headers[1..];
      FindHeaderIff(rest, name, value);
      if FindHeader(headers, name) == Some(value) && !SameName(headers[0].name, name) {
        var i: nat :| FirstOf(rest, name, value, i);
        assert headers[i + 1] == rest[i];
        assert forall k :: 1 <= k < i + 1 ==> headers[k] == rest[k - 1];
        assert FirstOf(headers, name, value, i + 1);
      }
      if exists i: nat :: FirstOf(headers, name, value, i) {
        var i: nat :| FirstOf(headers, name, value, i);
        if 0 < i {
          assert headers[i] == rest[i - 1];
          assert forall k :: 0 <= k < i - 1 ==> rest[k] == headers[k + 1];
          assert FirstOf(rest, name, value, i - 1);
        }
      }
    }
  }

  // ----- One hop -----

  predicate Bears(h: Header, names: seq<string>) {
    exists i :: 0 <= i < |names| && SameName(h.name, names[i])
  }

  /** The headers without those that bear one of these names, in their order. */
  function Without(headers: seq<Header>, names: seq<string>): seq<Header> {
    if headers == [] then []
    else
      var last := headers[|headers| - 1];
      Without(headers[..|headers| - 1], names) + if Bears(last, names) then [] else [last]
  }

  lemma BearsOneOf(h: Header, names: seq<string>, more: seq<string>)
    ensures Bears(h, names + more) <==> Bears(h, names) || Bears(h, more)
  {
    hide SameName;
    var both := names + more;
    if i :| 0 <= i < |names| && SameName(h.name, names[i]) {
      assert both[i] == names[i];
    }
    if i :| 0 <= i < |more| && SameName(h.name, more[i]) {
      assert both[|names| + i] == more[i];
    }
  }

  lemma {:induction false} WithoutOne(headers: seq<Header>, name: string)
    ensures WithoutHeader(headers, name) == Without(headers, [name])
  {
    hide Lower, SameName;
    if headers != [] {
      var last := headers[|headers| - 1];
      WithoutOne(headers[..|headers| - 1], name);
      SameNameIff(last.name, name);
      assert [name][0] == name;
    }
  }

  lemma {:induction false} WithoutMore(headers: seq<Header>, names: seq<string>, more: seq<string>)
    ensures Without(Without(headers, names), more) == Without(headers, names + more)
  {
    hide Bears;
    if headers != [] {
      var init, last := headers[..|headers| - 1], headers[|headers| - 1];
      WithoutMore(init, names, more);
      BearsOneOf(last, names, more);
      WithoutSnoc(init, names, last);
      WithoutSnoc(init, names + more, last);
      WithoutSnoc(Without(init, names), more, last);
      assert headers == init + [last];
    }
  }

  lemma WithoutSnoc(init: seq<Header>, names: seq<string>, last: Header)
    ensures Without(init + [last], names) ==
      if Bears(last, names) then Without(init, names) else Without(init, names) + [last]
  {
    hide Bears;
    var headers := init + [last];
    assert headers[..|headers| - 1] == init;
  }

  lemma BearsNone(h: Header)
    ensures !Bears(h, [])
  {
  }

  lemma {:induction false} WithoutNone(headers: seq<Header>)
    ensures Without(headers, []) == headers
  {
    hide Bears;
    if headers != [] {
      WithoutNone(headers[..|headers| - 1]);
      BearsNone(headers[|headers| - 1]);
    }
  }

  lemma {:induction false} WithoutIff(headers: seq<Header>, names: seq<string>, h: Header)
    ensures h in Without(headers, names) <==> h in headers && !Bears(h, names)
  {
    hide Bears;
    if headers != [] {
      WithoutIff(headers[..|headers| - 1], names, h);
      assert headers == headers[..|headers| - 1] + [headers[|headers| - 1]];
    }
  }

  /** The scheme, the host (in any spelling) or the port differs. */
  predicate OtherOrigin(a: Url, b: Url) {
    !SameName(a.scheme, b.scheme) || !SameName(a.host, b.host) || a.port != b.port
  }

  lemma OtherOriginIff(a: Url, b: Url)
    ensures OriginOf(a) != OriginOf(b) <==> OtherOrigin(a, b)
  {
    hide Lower, SameName;
    SameNameIff(a.scheme, b.scheme);
    SameNameIff(a.host, b.host);
  }

  /** What must not go on from one hop to the next. */
  function LeftBehind(from: Url, to: Url, toGet: bool): seq<string> {
    (if OtherOrigin(from, to) then ["authorization", "cookie"] else []) +
    (if toGet then ["content-length", "content-type"] else [])
  }

  /** One hop of a chain: which replies are followed, where they lead, and what goes on. */
  lemma EachHop(w: World, o: Options, request: Request, carried: seq<Request>, sent: seq<Request>, j: nat)
    requires Chain(w, o, request, carried, sent) && j + 1 < |carried|
    ensures j < |sent| && w.answer(sent[..j + 1]).Replied? && o.follow
    ensures w.parse(carried[j].url).Some? && w.parse(carried[j + 1].url).Some?
    ensures var reply, a, b := w.answer(sent[..j + 1]), carried[j], carried[j + 1];
      var from, to := w.parse(a.url).value, w.parse(b.url).value;
      && reply.status in {301, 302, 303, 307, 308}
      && (exists i: nat, target :: FirstOf(reply.headers, "location", target, i) && b.url == w.resolve(from, target))
      && (reply.status in {301, 302, 307, 308} || a.verb == Head ==>
            b.verb == a.verb && b.body == a.body && b.multipart == a.multipart &&
            b.headers == Without(a.headers, LeftBehind(from, to, false)))
      && (reply.status == 303 && a.verb != Head ==>
            b.verb == Get && b.body == "" && b.multipart == [] &&
            b.headers == Without(a.headers, LeftBehind(from, to, true)))
  {
    hide SameName, Completed, Lower;
    assert Leads(w, o, carried[j], carried[j + 1], w.answer(sent[..j + 1]));
    var reply, a, b := w.answer(sent[..j + 1]), carried[j], carried[j + 1];
    var from, to := w.parse(a.url).value, w.parse(b.url).value;
    FindHeaderIff(reply.headers, "location", FindHeader(reply.headers, "location").value);
    RedirectedHeaders(w, a, reply.status, b.url);
  }

  lemma RedirectedHeaders(w: World, a: Request, status: int, nextUrl: string)
    requires w.parse(a.url).Some? && w.parse(nextUrl).Some?
    ensures Redirected(w, a, status, nextUrl).headers ==
      Without(a.headers, LeftBehind(w.parse(a.url).value, w.parse(nextUrl).value, status == 303 && a.verb != Head))
  {
    hide SameName, WithoutHeader, Without, OtherOrigin;
    var from, to := w.parse(a.url).value, w.parse(nextUrl).value;
    OtherOriginIff(from, to);
    var credentials := if OtherOrigin(from, to) then ["authorization", "cookie"] else [];
    var kept := Without(a.headers, credentials);
    WithoutNone(a.headers);
    WithoutTwo(a.headers, "authorization", "cookie");
    WithoutTwo(kept, "content-length", "content-type");
    WithoutMore(a.headers, credentials, ["content-length", "content-type"]);
    assert credentials + [] == credentials;
  }

  lemma WithoutTwo(headers: seq<Header>, a: string, b: string)
    ensures WithoutHeader(WithoutHeader(headers, a), b) == Without(headers, [a, b])
  {
    hide SameName, WithoutHeader, Without;
    WithoutOne(headers, a);
    WithoutOne(Without(headers, [a]), b);
    WithoutMore(headers, [a], [b]);
    assert [a] + [b] == [a, b];
  }

  /** Which headers go on. */
  lemma HeaderGoesOnIff(w: World, o: Options, request: Request, carried: seq<Request>, sent: seq<Request>, j: nat,
      h: Header)
    requires Chain(w, o, request, carried, sent) && j + 1 < |carried|
    ensures w.parse(carried[j].url).Some? && w.parse(carried[j + 1].url).Some? && w.answer(sent[..j + 1]).Replied?
    ensures var a, b := carried[j], carried[j + 1];
      h in b.headers <==>
        && h in a.headers
        && !(w.answer(sent[..j + 1]).status == 303 && a.verb != Head &&
               (SameName(h.name, "content-length") || SameName(h.name, "content-type")))
        && !(OtherOrigin(w.parse(a.url).value, w.parse(b.url).value) &&
               (SameName(h.name, "authorization") || SameName(h.name, "cookie")))
  {
    hide SameName, Bears, Without, Chain, OtherOrigin;
    EachHop(w, o, request, carried, sent, j);
    var a, b := carried[j], carried[j + 1];
    var from, to := w.parse(a.url).value, w.parse(b.url).value;
    var names := LeftBehind(from, to, w.answer(sent[..j + 1]).status == 303 && a.verb != Head);
    WithoutIff(a.headers, names, h);
    NamesLeftBehind(from, to, w.answer(sent[..j + 1]).status == 303 && a.verb != Head, h);
  }

  lemma NamesLeftBehind(from: Url, to: Url, toGet: bool, h: Header)
    ensures Bears(h, LeftBehind(from, to, toGet)) <==>
      || (OtherOrigin(from, to) && (SameName(h.name, "authorization") || SameName(h.name, "cookie")))
      || (toGet && (SameName(h.name, "content-length") || SameName(h.name, "content-type")))
  {
    hide SameName, Bears, OtherOrigin;
    var credentials := if OtherOrigin(from, to) then ["authorization", "cookie"] else [];
    var about := if toGet then ["content-length", "content-type"] else [];
    BearsOneOf(h, credentials, about);
    BearsTwo(h, "authorization", "cookie");
    BearsTwo(h, "content-length", "content-type");
    BearsNone(h);
  }

  lemma BearsTwo(h: Header, a: string, b: string)
    ensures Bears(h, [a, b]) <==> SameName(h.name, a) || SameName(h.name, b)
  {
    hide SameName;
    assert [a, b][0] == a && [a, b][1] == b;
  }

  // ----- What the client adds -----

  /** A request goes out with what it carries, and behind that the client's own user agent and the jar's
      cookies, each only where the caller has set none. */
  lemma SentIsCarried(w: World, o: Options, request: Request, carried: seq<Request>, sent: seq<Request>, j: nat)
    requires Chain(w, o, request, carried, sent) && j < |sent|
    ensures w.parse(carried[j].url).Some?
    ensures var a, b, jar := carried[j], sent[j], w.jarCookie(j, w.parse(carried[j].url).value);
      && b.url == a.url && b.verb == a.verb && b.body == a.body && b.multipart == a.multipart
      && a.headers <= b.headers
      && (HasHeader(b.headers, "user-agent") <==> HasHeader(a.headers, "user-agent") || o.userAgent != "")
      && (HasHeader(b.headers, "cookie") <==> HasHeader(a.headers, "cookie") || jar != "")
      && (forall i :: |a.headers| <= i < |b.headers| ==>
            || (b.headers[i] == Header("User-Agent", o.userAgent) && !HasHeader(a.headers, "user-agent"))
            || (b.headers[i] == Header("Cookie", jar) && !HasHeader(a.headers, "cookie")))
      && (forall i, k :: |a.headers| <= i < k < |b.headers| ==> b.headers[i] != b.headers[k])
  {
    assert SentAt(w, o, carried, sent[j], j);
    CompletedHeaders(w, o, j, w.parse(carried[j].url).value, carried[j]);
  }

  lemma CompletedHeaders(w: World, o: Options, hop: nat, u: Url, a: Request)
    ensures var b, jar := Completed(w, o, hop, u, a), w.jarCookie(hop, u);
      && b.url == a.url && b.verb == a.verb && b.body == a.body && b.multipart == a.multipart
      && a.headers <= b.headers
      && (HasHeader(b.headers, "user-agent") <==> HasHeader(a.headers, "user-agent") || o.userAgent != "")
      && (HasHeader(b.headers, "cookie") <==> HasHeader(a.headers, "cookie") || jar != "")
      && (forall i :: |a.headers| <= i < |b.headers| ==>
            || (b.headers[i] == Header("User-Agent", o.userAgent) && !HasHeader(a.headers, "user-agent"))
            || (b.headers[i] == Header("Cookie", jar) && !HasHeader(a.headers, "cookie")))
      && (forall i, k :: |a.headers| <= i < k < |b.headers| ==> b.headers[i] != b.headers[k])
  {
    hide Lower;
    FixedNamesDiffer();
    AgentNames();
    var agent := if HasHeader(a.headers, "user-agent") || o.userAgent == "" then []
      else [Header("User-Agent", o.userAgent)];
    var headers, jar := a.headers + agent, w.jarCookie(hop, u);
    var cookie := if !HasHeader(headers, "cookie") && jar != "" then [Header("Cookie", jar)] else [];
    HasHeaderConcat(a.headers, agent, "user-agent");
    HasHeaderConcat(a.headers, agent, "cookie");
    HasHeaderConcat(headers, cookie, "user-agent");
    HasHeaderConcat(headers, cookie, "cookie");
    OnlyHeader(Header("User-Agent", o.userAgent), "user-agent");
    OnlyHeader(Header("User-Agent", o.userAgent), "cookie");
    OnlyHeader(Header("Cookie", jar), "user-agent");
    OnlyHeader(Header("Cookie", jar), "cookie");
  }

  lemma OnlyHeader(h: Header, name: string)
    ensures HasHeader([h], name) <==> Lower(h.name) == Lower(name)
    ensures !HasHeader([], name)
  {
    assert [h][0] == h;
  }

  lemma AgentNames()
    ensures Lower("User-Agent") == Lower("user-agent") && Lower("Cookie") != Lower("user-agent")
  {
    assert |Lower("Cookie")| == 6 && |Lower("user-agent")| == 10;
  }

  // ----- Sizes -----

  function Rendered(headers: seq<Header>): string {
    if headers == [] then ""
    else headers[0].name + ": " + headers[0].value + "\r\n" + Rendered(headers[1..])
  }

  /** The header limit counts the header lines as they are written. */
  lemma {:induction false} HeaderBytesAreRendered(headers: seq<Header>)
    ensures HeaderBytes(headers) == |Rendered(headers)|
  {
    if headers != [] {
      HeaderBytesAreRendered(headers[1..]);
    }
  }

  function Together(chunks: seq<string>): string {
    if chunks == [] then "" else Together(chunks[..|chunks| - 1]) + chunks[|chunks| - 1]
  }

  /** The body limit counts all chunks together. */
  lemma {:induction false} TotalSizeIsTogether(chunks: seq<string>)
    ensures TotalSize(chunks) == |Together(chunks)|
  {
    if chunks != [] {
      TotalSizeIsTogether(chunks[..|chunks| - 1]);
    }
  }
}
