/** Following redirects: how many requests are made, to which URLs, and what they carry. */
module HttpRedirect {
  import opened Text

  datatype Header = Header(name: string, value: string)

  datatype Verb = Get | Head | Other(name: string)

  datatype Request = Request(url: string, verb: Verb, headers: seq<Header>, body: string, multipart: seq<string>)

  datatype Url = Url(scheme: string, host: string, port: nat)

  /** What the transport answers; `chunks` are what it hands to the chunk callback on the way. */
  datatype Reply = Replied(status: int, headers: seq<Header>, body: string, chunks: seq<string>) | TransportError

  datatype SendError =
    | BadUrl | RequestRefused | TransportFailed | HeadersTooLong | BodyTooLong | TooManyRedirects
    | NoLocation | CannotResolve | RedirectLoop | BadTarget | CallbackAborted

  /** The client's surroundings, which the redirect logic treats as given: parsing and resolving of
      URLs, the cookie jar, request validation, the transport (which may depend on all requests so
      far), and the caller's callback. */
  datatype World = World(
    parse: string -> Option<Url>,
    resolve: (Url, string) -> string,
    jarCookie: (nat, Url) -> string,
    validate: Request -> bool,
    answer: seq<Request> -> Reply,
    acceptsChunk: seq<string> -> bool)

  datatype Options = Options(follow: bool, maxRedirects: nat, userAgent: string, maxHeaderBytes: nat, maxBodyBytes: nat)

  // ----- Headers -----

  function LowerChar(c: char): char {
    if 'A' <= c <= 'Z' then c - 'A' + 'a' else c
  }

  function Lower(s: string): (l: string)
    ensures |l| == |s|
  {
    seq(|s|, i requires 0 <= i < |s| => LowerChar(s[i]))
  }

  predicate HasHeader(headers: seq<Header>, name: string) {
    exists i :: 0 <= i < |headers| && Lower(headers[i].name) == Lower(name)
  }

  function WithoutHeader(headers: seq<Header>, name: string): (rest: seq<Header>)
    ensures forall i :: 0 <= i < |rest| ==> rest[i] in headers && Lower(rest[i].name) != Lower(name)
  {
    if headers == [] then []
    else
      var front := WithoutHeader(headers[..|headers| - 1], name);
      var last := headers[|headers| - 1];
      if Lower(last.name) == Lower(name) then front else front + [last]
  }

  /** `ContainsHeader` */
  method ContainsHeader(headers: seq<Header>, name: string) returns (found: bool)
    ensures found <==> HasHeader(headers, name)
  {
    var i := 0;
    while i < |headers|
      invariant 0 <= i <= |headers|
      invariant forall k :: 0 <= k < i ==> Lower(headers[k].name) != Lower(name)
    {
      if Lower(headers[i].name) == Lower(name) {
        return true;
      }
      i := i + 1;
    }
    found := false;
  }

  /** `RemoveHeader` */
  method RemoveHeader(headers: seq<Header>, name: string) returns (rest: seq<Header>)
    ensures rest == WithoutHeader(headers, name) && !HasHeader(rest, name)
  {
    rest := [];
    var i := 0;
    assert headers[..0] == [];
    while i < |headers|
      invariant 0 <= i <= |headers| && rest == WithoutHeader(headers[..i], name)
    {
      assert headers[..i + 1][..i] == headers[..i];
      if Lower(headers[i].name) != Lower(name) {
        rest := rest + [headers[i]];
      }
      i := i + 1;
    }
    assert headers[..|headers|] == headers;
  }

  /** Removing a header removes all of that name, in any spelling, and nothing else. */
  lemma {:induction false} RemovedExactly(headers: seq<Header>, name: string, h: Header)
    ensures h in WithoutHeader(headers, name) <==> h in headers && Lower(h.name) != Lower(name)
  {
    if headers != [] {
      RemovedExactly(headers[..|headers| - 1], name, h);
      assert headers == headers[..|headers| - 1] + [headers[|headers| - 1]];
    }
  }

  /** `FindHeaderValue` */
  function FindHeader(headers: seq<Header>, name: string): Option<string> {
    if headers == [] then None
    else if Lower(headers[0].name) == Lower(name) then Some(headers[0].value)
    else FindHeader(headers[1..], name)
  }

  function HeaderBytes(headers: seq<Header>): nat {
    if headers == [] then 0 else |headers[0].name| + |headers[0].value| + 4 + HeaderBytes(headers[1..])
  }

  function TotalSize(chunks: seq<string>): nat {
    if chunks == [] then 0 else TotalSize(chunks[..|chunks| - 1]) + |chunks[|chunks| - 1]|
  }

  predicate IsRedirect(status: int) {
    status == 301 || status == 302 || status == 303 || status == 307 || status == 308
  }

  // ----- Origins and credentials -----

  datatype Origin = Origin(scheme: string, host: string, port: nat)

  function OriginOf(u: Url): Origin {
    Origin(Lower(u.scheme), Lower(u.host), u.port)
  }

  function OriginAt(w: World, url: string): Option<Origin> {
    var u := w.parse(url);
    if u.Some? then Some(OriginOf(u.value)) else None
  }

  predicate CarriesCredentials(headers: seq<Header>) {
    HasHeader(headers, "authorization") || HasHeader(headers, "cookie")
  }

  /** Some hop before request j led to another origin. */
  ghost predicate CrossedBefore(w: World, urls: seq<string>, j: nat) {
    exists k :: 0 <= k < j && k + 1 < |urls| && OriginAt(w, urls[k]) != OriginAt(w, urls[k + 1])
  }

  /** What the client itself adds to a request: its user agent and the cookies of its jar. */
  function Completed(w: World, o: Options, hop: nat, u: Url, r: Request): Request {
    var named := HasHeader(r.headers, "user-agent") || o.userAgent == "";
    var agent := if named then [] else [Header("User-Agent", o.userAgent)];
    var headers := r.headers + agent;
    var jar := w.jarCookie(hop, u);
    var cookie := if !HasHeader(headers, "cookie") && jar != "" then [Header("Cookie", jar)] else [];
    r.(headers := headers + cookie)
  }

  /** The request carries no Authorization header, and no Cookie header but one from the jar. */
  ghost predicate OnlyJarCredentials(w: World, hop: nat, r: Request) {
    && !HasHeader(r.headers, "authorization")
    && forall h :: h in r.headers && Lower(h.name) == Lower("cookie") ==>
         w.parse(r.url).Some? && h == Header("Cookie", w.jarCookie(hop, w.parse(r.url).value))
  }

  lemma HasHeaderConcat(a: seq<Header>, b: seq<Header>, name: string)
    ensures HasHeader(a + b, name) <==> HasHeader(a, name) || HasHeader(b, name)
  {
    hide Lower;
    var c := a + b;
    if HasHeader(a, name) {
      var i :| 0 <= i < |a| && Lower(a[i].name) == Lower(name);
      assert c[i] == a[i];
    }
    if HasHeader(b, name) {
      var i :| 0 <= i < |b| && Lower(b[i].name) == Lower(name);
      assert c[|a| + i] == b[i];
    }
    if HasHeader(c, name) {
      var i :| 0 <= i < |c| && Lower(c[i].name) == Lower(name);
      assert c[i] == if i < |a| then a[i] else b[i - |a|];
    }
  }

  lemma FixedNamesDiffer()
    ensures Lower("User-Agent") != Lower("authorization") && Lower("User-Agent") != Lower("cookie")
    ensures Lower("Cookie") != Lower("authorization") && Lower("Cookie") == Lower("cookie")
    ensures Lower("authorization") != Lower("cookie")
  {
    assert |Lower("User-Agent")| == 10 && |Lower("authorization")| == 13 && |Lower("Cookie")| == 6;
    assert Lower("Cookie")[0] == Lower("cookie")[0];
  }

  /** Completing a request without credentials adds none but the jar's. */
  lemma CompletedOnlyJar(w: World, o: Options, hop: nat, r: Request)
    requires w.parse(r.url).Some? && !CarriesCredentials(r.headers)
    ensures OnlyJarCredentials(w, hop, Completed(w, o, hop, w.parse(r.url).value, r))
  {
    hide Lower;
    FixedNamesDiffer();
    var u := w.parse(r.url).value;
    var named := HasHeader(r.headers, "user-agent") || o.userAgent == "";
    var agent := if named then [] else [Header("User-Agent", o.userAgent)];
    var jar := w.jarCookie(hop, u);
    var cookie := if !HasHeader(r.headers + agent, "cookie") && jar != "" then [Header("Cookie", jar)] else [];
    HasHeaderConcat(r.headers, agent, "authorization");
    HasHeaderConcat(r.headers + agent, cookie, "authorization");
    forall h | h in r.headers ensures Lower(h.name) != Lower("cookie") {
      var i :| 0 <= i < |r.headers| && r.headers[i] == h;
      assert Lower(r.headers[i].name) != Lower("cookie");
    }
    forall h | h in r.headers + agent + cookie && Lower(h.name) == Lower("cookie") ensures h == Header("Cookie", jar) {
    }
  }

  // ----- The chain -----

  /** The caller's request as it is carried on to the redirect target: credentials stay behind when
      the origin changes, and "see other" turns everything but HEAD into a GET without a body. */
  function Redirected(w: World, r: Request, status: int, nextUrl: string): Request {
    var crossed := OriginAt(w, r.url) != OriginAt(w, nextUrl);
    var kept := if crossed then WithoutHeader(WithoutHeader(r.headers, "authorization"), "cookie") else r.headers;
    if status == 303 && r.verb != Head then
      Request(nextUrl, Get, WithoutHeader(WithoutHeader(kept, "content-length"), "content-type"), "", [])
    else
      r.(url := nextUrl, headers := kept)
  }

  /** The target a redirect reply leads to. */
  function TargetOf(w: World, r: Request, headers: seq<Header>): Option<string> {
    var location := FindHeader(headers, "location");
    if location.None? || location.value == "" || w.parse(r.url).None? then None
    else
      var next := w.resolve(w.parse(r.url).value, location.value);
      if next == "" || w.parse(next).None? then None else Some(next)
  }

  /** Request j is what is carried to hop j, completed by the client. */
  ghost predicate SentAt(w: World, o: Options, carried: seq<Request>, r: Request, j: nat) {
    && j < |carried| && w.parse(carried[j].url).Some?
    && r == Completed(w, o, j, w.parse(carried[j].url).value, carried[j])
  }

  /** A redirect reply to the requests so far leads from one carried request to the next. */
  ghost predicate Leads(w: World, o: Options, from: Request, to: Request, reply: Reply) {
    && o.follow && reply.Replied? && IsRedirect(reply.status)
    && TargetOf(w, from, reply.headers) == Some(to.url)
    && to == Redirected(w, from, reply.status, to.url)
  }

  /** The requests sent are the caller's request, carried from hop to hop and completed each time; every
      reply but the last was a redirect that was followed. */
  ghost predicate Chain(w: World, o: Options, request: Request, carried: seq<Request>, sent: seq<Request>) {
    && |sent| <= |carried| <= |sent| + 1 && carried != [] && carried[0] == request
    && (forall j :: 0 <= j < |sent| ==> SentAt(w, o, carried, sent[j], j))
    && (forall j :: 0 < j < |carried| ==> Leads(w, o, carried[j - 1], carried[j], w.answer(sent[..j])))
  }

  ghost predicate DistinctUrls(requests: seq<Request>) {
    forall i, j :: 0 <= i < j < |requests| ==> requests[i].url != requests[j].url
  }

  function UrlsOf(requests: seq<Request>): (urls: seq<string>)
    ensures |urls| == |requests| && forall i :: 0 <= i < |urls| ==> urls[i] == requests[i].url
  {
    seq(|requests|, i requires 0 <= i < |requests| => requests[i].url)
  }

  /** Once credentials are gone they stay gone. */
  lemma RedirectedKeepsClean(w: World, r: Request, status: int, nextUrl: string)
    ensures OriginAt(w, r.url) != OriginAt(w, nextUrl) ==>
      !CarriesCredentials(Redirected(w, r, status, nextUrl).headers)
    ensures !CarriesCredentials(r.headers) ==> !CarriesCredentials(Redirected(w, r, status, nextUrl).headers)
  {
    hide Lower;
    FixedNamesDiffer();
    var crossed := OriginAt(w, r.url) != OriginAt(w, nextUrl);
    var kept := if crossed then WithoutHeader(WithoutHeader(r.headers, "authorization"), "cookie") else r.headers;
    RemovalKeepsClean(r.headers, "authorization");
    RemovalKeepsClean(WithoutHeader(r.headers, "authorization"), "cookie");
    RemovalKeepsClean(kept, "content-length");
    RemovalKeepsClean(WithoutHeader(kept, "content-length"), "content-type");
  }

  lemma RemovalKeepsClean(headers: seq<Header>, name: string)
    ensures !HasHeader(WithoutHeader(headers, name), name)
    ensures !HasHeader(headers, "authorization") ==> !HasHeader(WithoutHeader(headers, name), "authorization")
    ensures !HasHeader(headers, "cookie") ==> !HasHeader(WithoutHeader(headers, name), "cookie")
  {
    hide Lower, WithoutHeader;
    var rest := WithoutHeader(headers, name);
    forall i | 0 <= i < |rest| ensures exists k :: 0 <= k < |headers| && headers[k] == rest[i] {
      assert rest[i] in headers;
    }
  }

  lemma ChainStep(w: World, o: Options, request: Request, carried: seq<Request>, sent: seq<Request>, j: nat)
    requires Chain(w, o, request, carried, sent) && 0 < j < |carried|
    ensures j <= |sent| && w.answer(sent[..j]).Replied?
    ensures carried[j] == Redirected(w, carried[j - 1], w.answer(sent[..j]).status, carried[j].url)
  {
    hide Redirected, TargetOf, SentAt;
    assert Leads(w, o, carried[j - 1], carried[j], w.answer(sent[..j]));
  }

  /** Whatever the chain, from the first change of origin on no request carries the caller's
      credentials. */
  lemma {:induction false} CarriedClean(w: World, o: Options, request: Request, carried: seq<Request>,
      sent: seq<Request>, j: nat)
    requires Chain(w, o, request, carried, sent) && j < |carried|
    requires CrossedBefore(w, UrlsOf(carried), j)
    ensures !CarriesCredentials(carried[j].headers)
  {
    hide CarriesCredentials, Chain, Redirected, OriginAt;
    var k :| 0 <= k < j && k + 1 < |carried| && OriginAt(w, UrlsOf(carried)[k]) != OriginAt(w, UrlsOf(carried)[k + 1]);
    ChainStep(w, o, request, carried, sent, j);
    RedirectedKeepsClean(w, carried[j - 1], w.answer(sent[..j]).status, carried[j].url);
    if k < j - 1 {
      assert CrossedBefore(w, UrlsOf(carried), j - 1);
      CarriedClean(w, o, request, carried, sent, j - 1);
    }
  }

  /** No request after a change of origin carries an Authorization header, or a Cookie header other
      than the one from the client's own jar. */
  lemma NoCredentialsAfterCrossing(w: World, o: Options, request: Request, carried: seq<Request>, sent: seq<Request>,
      j: nat)
    requires Chain(w, o, request, carried, sent) && j < |sent|
    requires CrossedBefore(w, UrlsOf(sent), j)
    ensures OnlyJarCredentials(w, j, sent[j])
  {
    hide OnlyJarCredentials, Leads, CarriesCredentials, HasHeader, Completed;
    assert SentAt(w, o, carried, sent[j], j);
    SameUrls(w, o, request, carried, sent);
    var k :| 0 <= k < j && k + 1 < |sent| && OriginAt(w, UrlsOf(sent)[k]) != OriginAt(w, UrlsOf(sent)[k + 1]);
    assert OriginAt(w, UrlsOf(carried)[k]) != OriginAt(w, UrlsOf(carried)[k + 1]);
    CarriedClean(w, o, request, carried, sent, j);
    CompletedOnlyJar(w, o, j, carried[j]);
  }

  lemma SameUrls(w: World, o: Options, request: Request, carried: seq<Request>, sent: seq<Request>)
    requires Chain(w, o, request, carried, sent)
    ensures forall j :: 0 <= j < |sent| ==> sent[j].url == carried[j].url
  {
    hide HasHeader, Leads;
    forall j | 0 <= j < |sent| ensures sent[j].url == carried[j].url {
      assert SentAt(w, o, carried, sent[j], j);
    }
  }

  ghost predicate Fresh(carried: seq<Request>, visited: set<string>) {
    && DistinctUrls(carried)
    && forall u :: u in visited <==> exists i :: 0 <= i < |carried| && carried[i].url == u
  }

  lemma FreshSnoc(carried: seq<Request>, visited: set<string>, r: Request)
    requires Fresh(carried, visited) && r.url !in visited
    ensures Fresh(carried + [r], visited + {r.url})
  {
    var more := carried + [r];
    forall u ensures u in visited + {r.url} <==> exists i :: 0 <= i < |more| && more[i].url == u {
      if u in visited {
        var i :| 0 <= i < |carried| && carried[i].url == u;
        assert more[i].url == u;
      } else if u == r.url {
        assert more[|carried|].url == u;
      }
      if i :| 0 <= i < |more| && more[i].url == u {
        assert i < |carried| ==> carried[i].url == u;
      }
    }
  }

  lemma ChainSend(w: World, o: Options, request: Request, carried: seq<Request>, sent: seq<Request>, u: Url, r: Request)
    requires Chain(w, o, request, carried, sent) && |carried| == |sent| + 1
    requires w.parse(carried[|sent|].url) == Some(u) && r == Completed(w, o, |sent|, u, carried[|sent|])
    ensures Chain(w, o, request, carried, sent + [r])
  {
    hide Leads, Completed;
    var more := sent + [r];
    forall j | 0 < j < |carried| ensures Leads(w, o, carried[j - 1], carried[j], w.answer(more[..j])) {
      assert more[..j] == sent[..j];
    }
    forall j | 0 <= j < |more| ensures SentAt(w, o, carried, more[j], j) {
      assert j < |sent| ==> more[j] == sent[j];
    }
  }

  lemma ChainFollow(w: World, o: Options, request: Request, carried: seq<Request>, sent: seq<Request>, next: Request)
    requires Chain(w, o, request, carried, sent) && |carried| == |sent| &&
      Leads(w, o, carried[|sent| - 1], next, w.answer(sent))
    ensures Chain(w, o, request, carried + [next], sent)
  {
    hide Leads, Completed;
    var more := carried + [next];
    assert sent[..|sent|] == sent;
    forall j | 0 < j < |more| ensures Leads(w, o, more[j - 1], more[j], w.answer(sent[..j])) {
      assert more[j - 1] == carried[j - 1];
      assert j < |carried| ==> more[j] == carried[j];
    }
    forall j | 0 <= j < |sent| ensures SentAt(w, o, more, sent[j], j) {
      assert SentAt(w, o, carried, sent[j], j) && more[j] == carried[j];
    }
  }

  /** The request as it goes out: the client adds its user agent and cookies where there are none. */
  method Complete(r: Request, w: World, o: Options, hop: nat, u: Url) returns (out: Request)
    ensures out == Completed(w, o, hop, u, r)
  {
    hide HasHeader;
    var headers := r.headers;
    assert r.headers + [] == r.headers;
    var hasAgent := ContainsHeader(headers, "user-agent");
    if !hasAgent && o.userAgent != "" {
      headers := headers + [Header("User-Agent", o.userAgent)];
    }
    assert headers + [] == headers;
    var hasCookie := ContainsHeader(headers, "cookie");
    if !hasCookie {
      var jar := w.jarCookie(hop, u);
      if jar != "" {
        headers := headers + [Header("Cookie", jar)];
      }
    }
    out := r.(headers := headers);
  }

  /** What the next hop carries. */
  method CarryOn(r: Request, w: World, status: int, from: Url, to: Url, nextUrl: string) returns (next: Request)
    requires w.parse(r.url) == Some(from) && w.parse(nextUrl) == Some(to)
    ensures next == Redirected(w, r, status, nextUrl)
  {
    hide WithoutHeader, HasHeader;
    next := r;
    if Lower(from.scheme) != Lower(to.scheme) || Lower(from.host) != Lower(to.host) || from.port != to.port {
      var a := RemoveHeader(next.headers, "authorization");
      var b := RemoveHeader(a, "cookie");
      next := next.(headers := b);
    }
    if status == 303 && r.verb != Head {
      var a := RemoveHeader(next.headers, "content-length");
      var b := RemoveHeader(a, "content-type");
      next := Request(next.url, Get, b, "", []);
    }
    next := next.(url := nextUrl);
  }

  /** The chunks a transport handed over are passed on to the caller once it is known that the reply is
      final. */
  method Deliver(chunks: seq<string>, w: World) returns (ok: bool, delivered: seq<string>)
    ensures delivered <= chunks && (ok <==> delivered == chunks)
    ensures forall k :: 1 <= k <= |delivered| ==> w.acceptsChunk(chunks[..k])
    ensures !ok ==> !w.acceptsChunk(chunks[..|delivered| + 1])
  {
    delivered := [];
    var i := 0;
    while i < |chunks|
      invariant 0 <= i <= |chunks| && delivered == chunks[..i]
      invariant forall k :: 1 <= k <= i ==> w.acceptsChunk(chunks[..k])
    {
      if !w.acceptsChunk(chunks[..i + 1]) {
        return false, delivered;
      }
      i := i + 1;
      delivered := chunks[..i];
    }
    ok := true;
  }

  /** Each error is returned only for its own reason, found at the request or reply the chain ends with. */
  ghost predicate Justified(w: World, o: Options, carried: seq<Request>, sent: seq<Request>, delivered: seq<string>,
      error: SendError) {
    if error.BadUrl? || error.RequestRefused? then
      && |carried| == |sent| + 1
      && var last := carried[|sent|];
      && (w.parse(last.url).Some? <==> error.RequestRefused?)
      && (w.parse(last.url).Some? ==> !w.validate(Completed(w, o, |sent|, w.parse(last.url).value, last)))
    else
      && sent != [] && |carried| == |sent|
      && JustifiedByReply(w, o, carried[|sent| - 1], w.answer(sent), |sent|, delivered, error)
  }

  /** The reply to the last of `calls` requests is a reason for the error. */
  ghost predicate JustifiedByReply(w: World, o: Options, last: Request, reply: Reply, calls: nat,
      delivered: seq<string>, error: SendError) {
    if reply.TransportError? then error == TransportFailed
    else if HeaderBytes(reply.headers) > o.maxHeaderBytes then error == HeadersTooLong
    else if |reply.body| > o.maxBodyBytes || (o.follow && TotalSize(reply.chunks) > o.maxBodyBytes) then
      error == BodyTooLong
    else if !o.follow then false
    else if !IsRedirect(reply.status) then
      error == CallbackAborted && delivered < reply.chunks && !w.acceptsChunk(reply.chunks[..|delivered| + 1])
    else if calls > o.maxRedirects then error == TooManyRedirects
    else
      var location := FindHeader(reply.headers, "location");
      if location.None? || location.value == "" then error == NoLocation
      else if TargetUnchecked(w, last, reply.headers) == Some("") then error == CannotResolve
      else if TargetOf(w, last, reply.headers).None? then error == BadTarget || error == RedirectLoop
      else error == RedirectLoop
  }

  /** `SendOnce` over a custom transport.  At most one request more than the permitted redirects is
      made, no URL is requested twice, the requests form a chain, and only chunks of the final reply
      reach the caller. */
  method SendOnce(request: Request, w: World, o: Options)
    returns (r: Result<Reply, SendError>, sent: seq<Request>, delivered: seq<string>, ghost carried: seq<Request>)
    ensures |sent| <= (if o.follow then o.maxRedirects + 1 else 1)
    ensures DistinctUrls(sent)
    ensures Chain(w, o, request, carried, sent)
    ensures r.Ok? ==>
      && sent != [] && r.value == w.answer(sent) && r.value.Replied?
      && (o.follow ==> r.value.status !in {301, 302, 303, 307, 308})
      && |r.value.body| <= o.maxBodyBytes && HeaderBytes(r.value.headers) <= o.maxHeaderBytes
      && (o.follow ==> delivered == r.value.chunks)
    ensures r.Err? ==> Justified(w, o, carried, sent, delivered, r.error)
    ensures r == Err(RedirectLoop) ==>
      sent != [] && w.answer(sent).Replied? && (exists i :: 0 <= i < |sent| && RevisitsAt(w, sent, i))
    ensures r.Err? && r.error != CallbackAborted ==> delivered == []
  {
    hide Completed, Redirected, Chain, DistinctUrls, FindHeader, HeaderBytes, TotalSize;
    sent, delivered, carried := [], [], [request];
    var current := request;
    var visited := {request.url};
    ChainStart(w, o, request);
    var hops := 0;
    while true
      invariant hops == |sent| && |carried| == hops + 1 && carried[hops] == current
      invariant Chain(w, o, request, carried, sent) && Fresh(carried, visited) && delivered == []
      invariant hops <= o.maxRedirects && (0 < hops ==> o.follow)
      decreases o.maxRedirects - hops
    {
      SentDistinct(w, o, request, carried, sent, visited);
      var parsed := w.parse(current.url);
      if parsed.None? {
        return Err(BadUrl), sent, [], carried;
      }
      var normalized := Complete(current, w, o, hops, parsed.value);
      if !w.validate(normalized) {
        return Err(RequestRefused), sent, [], carried;
      }
      ChainSend(w, o, request, carried, sent, parsed.value, normalized);
      sent := sent + [normalized];
      SentDistinct(w, o, request, carried, sent, visited);
      var reply := w.answer(sent);
      if reply.TransportError? {
        return Err(TransportFailed), sent, [], carried;
      }
      if HeaderBytes(reply.headers) > o.maxHeaderBytes {
        return Err(HeadersTooLong), sent, [], carried;
      }
      if |reply.body| > o.maxBodyBytes || (o.follow && TotalSize(reply.chunks) > o.maxBodyBytes) {
        return Err(BodyTooLong), sent, [], carried;
      }
      if !o.follow {
        return Ok(reply), sent, [], carried;
      }
      if !IsRedirect(reply.status) {
        var ok;
        ok, delivered := Deliver(reply.chunks, w);
        r := if ok then Ok(reply) else Err(CallbackAborted);
        return;
      }
      if hops >= o.maxRedirects {
        return Err(TooManyRedirects), sent, [], carried;
      }
      var location := FindHeader(reply.headers, "location");
      if location.None? || location.value == "" {
        return Err(NoLocation), sent, [], carried;
      }
      var nextUrl := w.resolve(parsed.value, location.value);
      if nextUrl == "" {
        return Err(CannotResolve), sent, [], carried;
      }
      if nextUrl in visited {
        Revisited(w, o, request, carried, sent, visited, nextUrl);
        return Err(RedirectLoop), sent, [], carried;
      }
      var target := w.parse(nextUrl);
      if target.None? {
        return Err(BadTarget), sent, [], carried;
      }
      current := CarryOn(current, w, reply.status, parsed.value, target.value, nextUrl);
      RedirectedUrl(w, carried[hops], reply.status, nextUrl);
      ChainFollow(w, o, request, carried, sent, current);
      FreshSnoc(carried, visited, current);
      carried := carried + [current];
      visited := visited + {nextUrl};
      hops := hops + 1;
    }
  }

  /** The last reply leads back to the URL of request i. */
  ghost predicate RevisitsAt(w: World, sent: seq<Request>, i: nat)
    requires sent != [] && w.answer(sent).Replied?
  {
    i < |sent| && TargetUnchecked(w, sent[|sent| - 1], w.answer(sent).headers) == Some(sent[i].url)
  }

  function TargetUnchecked(w: World, r: Request, headers: seq<Header>): Option<string> {
    var location := FindHeader(headers, "location");
    if location.None? || w.parse(r.url).None? then None else Some(w.resolve(w.parse(r.url).value, location.value))
  }

  lemma ChainStart(w: World, o: Options, request: Request)
    ensures Chain(w, o, request, [request], []) && Fresh([request], {request.url})
  {
    assert [request][0].url == request.url;
  }

  lemma RedirectedUrl(w: World, r: Request, status: int, nextUrl: string)
    ensures Redirected(w, r, status, nextUrl).url == nextUrl
  {
  }

  lemma SentDistinct(w: World, o: Options, request: Request, carried: seq<Request>, sent: seq<Request>,
      visited: set<string>)
    requires Chain(w, o, request, carried, sent) && Fresh(carried, visited)
    ensures DistinctUrls(sent)
  {
    hide Chain;
    SameUrls(w, o, request, carried, sent);
    LengthsAgree(w, o, request, carried, sent);
  }

  lemma LengthsAgree(w: World, o: Options, request: Request, carried: seq<Request>, sent: seq<Request>)
    requires Chain(w, o, request, carried, sent)
    ensures |sent| <= |carried| <= |sent| + 1
  {
    hide SentAt, Leads;
  }

  lemma Revisited(w: World, o: Options, request: Request, carried: seq<Request>, sent: seq<Request>,
      visited: set<string>, nextUrl: string)
    requires Chain(w, o, request, carried, sent) && Fresh(carried, visited) && nextUrl in visited &&
      |carried| == |sent| && sent != []
    requires w.answer(sent).Replied? && TargetUnchecked(w, carried[|sent| - 1], w.answer(sent).headers) == Some(nextUrl)
    ensures exists i :: 0 <= i < |sent| && RevisitsAt(w, sent, i)
  {
    hide Chain;
    SameUrls(w, o, request, carried, sent);
    var i :| 0 <= i < |carried| && carried[i].url == nextUrl;
    assert RevisitsAt(w, sent, i);
  }
}
