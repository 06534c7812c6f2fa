/** What whole runs of the proxy handler lead to, over every script of connections. */
module ProxyRuns {
  import opened Text
  import opened SortedMap
  import opened HttpRequest
  import opened HttpResponse
  import opened ProxyRequest
  import opened ProxyWire
  import opened ProxyHandler

  // ---- Runs ----

  predicate Redirects(h: Hop) {
    h.Got? && IsRedirect(h.answer)
  }

  /** The first `k` answers are redirects. */
  predicate AllRedirect(hops: seq<Hop>, k: nat) {
    k <= |hops| && forall i | 0 <= i < k :: Redirects(hops[i])
  }

  /** The headers an answer delivers before its Location. */
  function BeforeLocation(h: Hop): Pairs
    requires Redirects(h)
  {
    h.answer.headers[..LocationIndex(h.answer.headers)]
  }

  /** The headers read before the Locations of the first `k` answers, in order. */
  function Overlay(hops: seq<Hop>, k: nat): Pairs
    requires AllRedirect(hops, k)
    decreases k
  {
    if k == 0 then []
    else
      assert Redirects(hops[0]);
      BeforeLocation(hops[0]) + Overlay(hops[1..], k - 1)
  }

  lemma {:induction false} PutAllConcat(m: Pairs, a: Pairs, b: Pairs)
    ensures PutAll(PutAll(m, a), b) == PutAll(m, a + b)
    decreases |a|
  {
    if a == [] {
      assert a + b == b;
    } else {
      assert (a + b)[1..] == a[1..] + b;
      PutAllConcat(Put(m, a[0].0, a[0].1), a[1..], b);
    }
  }

  /** At most `depth` connections are made, whatever the network does. */
  lemma {:induction false} DepthBoundsConnections(cfg: Config, reasons: nat -> string, c: Call, hops: seq<Hop>)
    ensures |Exchange(cfg, reasons, c, hops).conns| <= if c.depth < 0 then 0 else c.depth
    decreases |hops|
  {
    if c.depth > 0 && hops != [] && Redirects(hops[0]) {
      var a := hops[0].answer;
      var next, tail := Followed(cfg, reasons, c, a), hops[1..];
      DepthBoundsConnections(cfg, reasons, next, tail);
      RedirectStep(cfg, reasons, c, hops, a, next, tail, Exchange(cfg, reasons, next, tail));
    }
  }

  /** How many of the first `depth` connection attempts are answered by a redirect, one after the other. */
  function LeadingRedirects(hops: seq<Hop>, depth: nat): (k: nat)
    ensures k <= depth && AllRedirect(hops, k) && (k < depth && k < |hops| ==> !Redirects(hops[k]))
  {
    if depth == 0 || hops == [] || !Redirects(hops[0]) then 0
    else
      assert forall i | 0 <= i < |hops| - 1 :: hops[1..][i] == hops[i + 1];
      1 + LeadingRedirects(hops[1..], depth - 1)
  }

  /**
   What a run that meets `k` redirects leaves: 404 at the depth limit; else BAD_REQUEST and the response as the
   redirects left it, if the next connection fails; else the status and body of the next answer. The
   headers are those every answer delivered before its Location, later ones overwriting earlier ones.
   */
  ghost predicate RunIs(run: Run, c: Call, hops: seq<Hop>, k: nat, reasons: nat -> string)
    requires AllRedirect(hops, k) && k <= c.depth
  {
    var fields := PutAll(c.resp.fields, Overlay(hops, k));
    if k == c.depth then
      run.status == OK && |run.conns| == k && run.resp == Resp(404, reasons(404), fields, c.resp.body)
    else if k == |hops| || hops[k].Lost? then
      && run.status == BadRequest && |run.conns| == k
      && run.resp == if k == 0 then c.resp else Resp(302, reasons(302), fields, c.resp.body)
    else
      var a := hops[k].answer;
      && run.status == OK && |run.conns| == k + 1
      && run.resp == Resp(a.code, reasons(a.code), PutAll(c.resp.fields, Overlay(hops, k) + a.headers), a.rest)
  }

  /** What every script of upstream connections leads to, told from the number of redirects it starts with. */
  lemma RedirectRun(cfg: Config, reasons: nat -> string, c: Call, script: seq<Upstream>)
    requires c.depth >= 0
    ensures var hops := DecodeAll(script);
            RunIs(Exchange(cfg, reasons, c, hops), c, hops, LeadingRedirects(hops, c.depth), reasons)
  {
    HopsRun(cfg, reasons, c, DecodeAll(script), LeadingRedirects(DecodeAll(script), c.depth));
  }

  lemma {:induction false} HopsRun(cfg: Config, reasons: nat -> string, c: Call, hops: seq<Hop>, k: nat)
    requires AllRedirect(hops, k) && k <= c.depth && (k < c.depth && k < |hops| ==> !Redirects(hops[k]))
    ensures RunIs(Exchange(cfg, reasons, c, hops), c, hops, k, reasons)
    decreases k
  {
    if k == 0 {
      LastHop(cfg, reasons, c, hops);
    } else {
      assert Redirects(hops[0]);
      var a := hops[0].answer;
      var next, tail, k' := Followed(cfg, reasons, c, a), hops[1..], k - 1;
      LaterHops(hops, k, tail, k');
      HopsRun(cfg, reasons, next, tail, k');
      var rest := Exchange(cfg, reasons, next, tail);
      RedirectStep(cfg, reasons, c, hops, a, next, tail, rest);
      RunExtends(rest, c, hops, k, reasons, next, tail, k', Connection(cfg, c), Received(c.resp, a, reasons));
    }
  }

  lemma LaterHops(hops: seq<Hop>, k: nat, tail: seq<Hop>, k': nat)
    requires AllRedirect(hops, k) && 0 < k && tail == hops[1..] && k' == k - 1
    ensures Redirects(hops[0]) && AllRedirect(tail, k')
    ensures k < |hops| ==> k' < |tail| && tail[k'] == hops[k]
    ensures Overlay(hops, k) == BeforeLocation(hops[0]) + Overlay(tail, k')
  {
    assert forall i | 0 <= i < |hops| - 1 :: hops[1..][i] == hops[i + 1];
  }

  /** One more redirect in front of a run. */
  lemma RunExtends(rest: Run, c: Call, hops: seq<Hop>, k: nat, reasons: nat -> string,
                   next: Call, tail: seq<Hop>, k': nat, conn: Conn, resp': Resp)
    requires AllRedirect(hops, k) && 0 < k <= c.depth && next.depth == c.depth - 1
    requires tail == hops[1..] && k' == k - 1 && AllRedirect(tail, k')
    requires Redirects(hops[0]) && resp' == Received(c.resp, hops[0].answer, reasons) && next.resp == resp'
    requires RunIs(rest, next, tail, k', reasons)
    ensures RunIs(Run(rest.status, rest.resp, [conn] + rest.conns), c, hops, k, reasons)
  {
    LaterHops(hops, k, tail, k');
    var before, later := BeforeLocation(hops[0]), Overlay(tail, k');
    PutAllConcat(c.resp.fields, before, later);
    if k == 1 {
      assert before + later == before;
    }
    if k < c.depth && k < |hops| && hops[k].Got? {
      var l := hops[k].answer.headers;
      PutAllConcat(c.resp.fields, before, later + l);
      Append(before, later, l);
    }
  }

  lemma LastHop(cfg: Config, reasons: nat -> string, c: Call, hops: seq<Hop>)
    requires 0 < c.depth && hops != [] ==> !Redirects(hops[0])
    requires c.depth >= 0
    ensures RunIs(Exchange(cfg, reasons, c, hops), c, hops, 0, reasons)
  {
    if c.depth > 0 && hops != [] && hops[0].Got? {
      var l := hops[0].answer.headers;
      assert [] + l == l;
    }
  }

  // ---- What is written to each connection ----

  /** What connection `i` asks for: the request, with the path of the Location that answer `i` - 1 gave. */
  function Asked(r: Req, hops: seq<Hop>, i: nat): Req
    requires AllRedirect(hops, i)
  {
    if i == 0 then r
    else
      assert Redirects(hops[i - 1]);
      r.(uri := ParseRedirectLocation(LocationOf(hops[i - 1].answer)).0)
  }

  /** Where it goes: to the host of that Location. */
  function Target(host: string, hops: seq<Hop>, i: nat): string
    requires AllRedirect(hops, i)
  {
    if i == 0 then host
    else
      assert Redirects(hops[i - 1]);
      ParseRedirectLocation(LocationOf(hops[i - 1].answer)).1
  }

  /**
   The connection goes to the host and port given, and what is written to it parses to the request asked for, as
   the proxy should rewrite it, exactly if its stripped uri is a word and the configured host and port
   hold no line end.
   */
  ghost predicate Sends(conn: Conn, host: string, port: string, r: Req, cfg: Config) {
    && conn.host == host && conn.port == port
    && (NoCrlf(cfg.host + ":" + cfg.port) && Word(ExtractNonProxyUri(cfg.prefix, r.uri)) <==>
          ForwardedAs(r, cfg.prefix, cfg.host + ":" + cfg.port, Parse(conn.sent)))
  }

  lemma RedirectedForwardable(r: Req, location: string)
    requires Forwardable(r)
    ensures Forwardable(Redirected(r, location))
    ensures MapOf(Redirected(r, location).headers) == MapOf(r.headers)["Host" := ParseRedirectLocation(location).1]
  {
    var host := ParseRedirectLocation(location).1;
    SetInNames(r.headers, "Host", host);
    SetInMap(r.headers, "Host", host);
    SetInCleanBut(r.headers, "Host", host, "Host");
  }

  lemma SetAgain(m: map<string, string>, a: string, x: string, b: string, y: string, z: string)
    requires a != b
    ensures m[b := z][a := x][b := y] == m[a := x][b := y]
  {
  }

  /** A redirected request is forwarded like the first one, but for its uri. */
  lemma SendsAlike(conn: Conn, host: string, port: string, r: Req, location: string, u: string, cfg: Config)
    requires Forwardable(r) && Sends(conn, host, port, Redirected(r, location).(uri := u), cfg)
    ensures Sends(conn, host, port, r.(uri := u), cfg)
  {
    RedirectedForwardable(r, location);
    SetAgain(MapOf(r.headers), "Connection", "close", "Host", cfg.host + ":" + cfg.port, ParseRedirectLocation(location).1);
  }

  lemma FirstConnection(cfg: Config, reasons: nat -> string, c: Call, hops: seq<Hop>)
    requires Forwardable(c.req) && Exchange(cfg, reasons, c, hops).conns != []
    ensures Sends(Exchange(cfg, reasons, c, hops).conns[0], c.host, c.port, c.req, cfg)
  {
    ForwardableExactly(c.req, cfg.prefix, cfg.host, cfg.port);
  }

  lemma SecondIsRedirected(cfg: Config, reasons: nat -> string, c: Call, hops: seq<Hop>)
    requires |Exchange(cfg, reasons, c, hops).conns| > 1
    ensures c.depth > 0 && hops != [] && Redirects(hops[0])
  {
    if c.depth > 0 && hops != [] && hops[0].Got? && !IsRedirect(hops[0].answer) {
      LastStep(cfg, reasons, c, hops);
    }
  }

  /** The connections of a redirected run are the first one and those of the call that follows. */
  lemma LaterConnection(cfg: Config, reasons: nat -> string, c: Call, hops: seq<Hop>, next: Call, tail: seq<Hop>,
                        conns: seq<Conn>, i: nat, j: nat)
    requires c.depth > 0 && hops != [] && Redirects(hops[0])
    requires next == Followed(cfg, reasons, c, hops[0].answer) && tail == hops[1..]
    requires conns == Exchange(cfg, reasons, next, tail).conns
    requires i == j + 1 && i < |Exchange(cfg, reasons, c, hops).conns|
    ensures j < |conns| && Exchange(cfg, reasons, c, hops).conns[i] == conns[j]
  {
    RedirectStep(cfg, reasons, c, hops, hops[0].answer, next, tail, Exchange(cfg, reasons, next, tail));
    assert ([Connection(cfg, c)] + conns)[1..] == conns;
  }

  lemma MoreRedirects(hops: seq<Hop>, tail: seq<Hop>, i: nat, j: nat)
    requires i == j + 1 && hops != [] && tail == hops[1..] && Redirects(hops[0]) && AllRedirect(tail, j)
    ensures AllRedirect(hops, i) && (j > 0 ==> hops[i - 1] == tail[j - 1])
  {
    forall n | 0 <= n < i ensures Redirects(hops[n]) {
      if n > 0 {
        assert hops[n] == tail[n - 1];
      }
    }
  }

  /** Seen from behind the first redirect, the later connections ask for the same. */
  lemma AskedLater(c: Call, next: Call, hops: seq<Hop>, tail: seq<Hop>, i: nat, j: nat)
    requires i == j + 1 && hops != [] && tail == hops[1..] && Redirects(hops[0]) && AllRedirect(tail, j)
    requires next.req == Redirected(c.req, LocationOf(hops[0].answer))
    requires next.host == ParseRedirectLocation(LocationOf(hops[0].answer)).1
    ensures AllRedirect(hops, i) && Target(next.host, tail, j) == Target(c.host, hops, i)
    ensures Asked(next.req, tail, j) == next.req.(uri := Asked(c.req, hops, i).uri)
    ensures Asked(c.req, hops, i) == c.req.(uri := Asked(c.req, hops, i).uri)
  {
    MoreRedirects(hops, tail, i, j);
  }

  lemma {:induction false} ConnectionSends(cfg: Config, reasons: nat -> string, c: Call, hops: seq<Hop>, i: nat)
    requires Forwardable(c.req) && i < |Exchange(cfg, reasons, c, hops).conns|
    ensures AllRedirect(hops, i)
    ensures Sends(Exchange(cfg, reasons, c, hops).conns[i], Target(c.host, hops, i), if i == 0 then c.port else cfg.port,
                  Asked(c.req, hops, i), cfg)
    decreases i
  {
    if i == 0 {
      FirstConnection(cfg, reasons, c, hops);
    } else {
      var j := i - 1;
      SecondIsRedirected(cfg, reasons, c, hops);
      var next, tail := Followed(cfg, reasons, c, hops[0].answer), hops[1..];
      LaterConnection(cfg, reasons, c, hops, next, tail, Exchange(cfg, reasons, next, tail).conns, i, j);
      var location := LocationOf(hops[0].answer);
      RedirectedForwardable(c.req, location);
      ConnectionSends(cfg, reasons, next, tail, j);
      AskedLater(c, next, hops, tail, i, j);
      var conn, u := Exchange(cfg, reasons, c, hops).conns[i], Asked(c.req, hops, i).uri;
      SendsAlike(conn, Target(c.host, hops, i), cfg.port, c.req, location, u, cfg);
    }
  }

  /**
   For every run on a parsed request: every connection that is made goes to the host asked for, the first to
   the port of the call and the others to the configured one, and its bytes parse to the request asked for, as
   the proxy should rewrite it, exactly if the configured host and port hold no line end and, from the
   second connection on, what stripping leaves of the Location's path is a word.
   */
  lemma ConnectionsExactly(raw: string, cfg: Config, reasons: nat -> string, c: Call, hops: seq<Hop>, i: nat)
    requires Parse(raw) == Good(c.req) && i < |Exchange(cfg, reasons, c, hops).conns|
    ensures AllRedirect(hops, i)
    ensures var conn := Exchange(cfg, reasons, c, hops).conns[i];
            var r, hp := Asked(c.req, hops, i), cfg.host + ":" + cfg.port;
            && conn.host == Target(c.host, hops, i) && conn.port == (if i == 0 then c.port else cfg.port)
            && (ForwardedAs(r, cfg.prefix, hp, Parse(conn.sent)) <==>
                  NoCrlf(hp) && (i > 0 ==> Word(ExtractNonProxyUri(cfg.prefix, r.uri))))
  {
    ParsedForwardable(raw);
    ExtractWord(cfg.prefix, c.req.uri);
    ConnectionSends(cfg, reasons, c, hops, i);
  }

  // ---- Where a followed redirect leads ----

  /**
   The request for a redirect's Location goes through the rewriting once more: it asks for the Location's path
   exactly if stripping leaves that path alone.
   */
  lemma RedirectPathExactly(r: Req, location: string, prefix: string, host: string, port: string)
    ensures var path := ParseRedirectLocation(location).0;
            && path != "" && path[0] == '/'
            && (Forwarded(Redirected(r, location), prefix, host, port).uri == path <==>
                  |path| < |prefix| || prefix == "" || (|prefix| == 1 && (|path| == 1 || path[1] != '/')))
  {
    LocationPath(location);
    UriKeptExactly(prefix, ParseRedirectLocation(location).0);
  }

  /** Which scheme is stripped: one of each kind, `http://` first, if something follows. */
  ghost predicate Stripped(scheme: string, rest: string) {
    || (scheme == "" && !("http://" < rest) && !("https://" < rest))
    || (scheme == "http://" && rest != "" && !("https://" < rest))
    || (scheme == "https://" && rest != "")
    || (scheme == "http://https://" && rest != "")
  }

  lemma PrefixSplit(a: string, s: string)
    ensures a <= a + s && (a + s)[..|a|] == a && (a + s)[|a|..] == s && (a < a + s <==> s != "")
  {
  }

  lemma ProperPrefix(a: string, s: string)
    ensures a < s <==> |s| > |a| && s[..|a|] == a
  {
  }

  lemma SchemeStripped(scheme: string, rest: string)
    requires Stripped(scheme, rest)
    ensures var a := scheme + rest;
            var b := if |a| > 7 && a[..7] == "http://" then a[7..] else a;
            (if |b| > 8 && b[..8] == "https://" then b[8..] else b) == rest
  {
    var a := scheme + rest;
    ProperPrefix("http://", a);
    ProperPrefix("https://", rest);
    if scheme == "" {
      assert a == rest;
    } else if scheme == "http://" {
      PrefixSplit("http://", rest);
    } else if scheme == "https://" {
      PrefixSplit("https://", rest);
      assert a[4] == 's';
    } else {
      assert a == "http://" + ("https://" + rest);
      PrefixSplit("http://", "https://" + rest);
      PrefixSplit("https://", rest);
    }
  }

  lemma LocationFrom(location: string, scheme: string, c: string)
    requires Trim(location) == scheme + c && Stripped(scheme, c)
    ensures ParseRedirectLocation(location) ==
      if Find(c, "/") >= 0 then (c[Find(c, "/")..], c[..Find(c, "/")]) else ("/", c)
  {
    SchemeStripped(scheme, c);
  }

  lemma HostSplit(c: string, host: string, path: string)
    requires c == host + path && NoChar(host, '/') && (path == "" || path[0] == '/')
    ensures path == "" ==> Find(c, "/") < 0
    ensures path != "" ==> Find(c, "/") == |host| && c[..|host|] == host && c[|host|..] == path
  {
    assert "/" == ['/'];
    if path == "" {
      assert c == host;
      NoCharFind(c, '/');
    } else {
      assert c == host + ['/'] + path[1..];
      FindChar(c, host, '/', path[1..]);
    }
  }

  /** A Location is white space, a scheme, a host up to the first slash and a path, by default `/`. */
  lemma LocationExactly(a: string, scheme: string, host: string, path: string, b: string)
    requires White(a) && White(b) && Solid(scheme + (host + path)) && Stripped(scheme, host + path)
    requires NoChar(host, '/') && (path == "" || path[0] == '/')
    ensures ParseRedirectLocation(a + (scheme + (host + path)) + b) == (if path == "" then "/" else path, host)
  {
    var c := host + path;
    TrimIs(a, scheme + c, b);
    LocationFrom(a + (scheme + c) + b, scheme, c);
    HostSplit(c, host, path);
    assert path == "" ==> c == host;
  }

  lemma LocationPath(location: string)
    ensures ParseRedirectLocation(location).0 != "" && ParseRedirectLocation(location).0[0] == '/'
  {
    var a := Trim(location);
    var b := if |a| > 7 && a[..7] == "http://" then a[7..] else a;
    var c := if |b| > 8 && b[..8] == "https://" then b[8..] else b;
    FindFirst(c, "/");
    if Find(c, "/") >= 0 {
      assert c[Find(c, "/")..][0] == '/';
    }
  }

  /** A redirect to `/other/x`, under the prefix `/proxy`, is followed to `/x`. */
  lemma RedirectLosesPath(r: Req)
    ensures Forwarded(Redirected(r, "/other/x"), "/proxy", "h", "80").uri == "/x"
  {
    var location := "/other/x";
    assert !Space(location[0]) && !Space(location[|location| - 1]);
    assert Trim(location) == location;
    assert Find(location, "/") == 0;
    assert location[0..] == location && location[6..] == "/x";
  }

  /** A redirect to `/p/x y`, under the prefix `/p`, is followed to a path that is no word. */
  lemma BlankInLocation(location: string)
    requires location == "/p/x y"
    ensures ParseRedirectLocation(location).0 == location
    ensures ExtractNonProxyUri("/p", location) == "/x y" && !Word("/x y")
  {
    assert !Space(location[0]) && !Space(location[5]) && |location| == 6;
    assert Trim(location) == location;
    assert location[0] == '/' && location[0..] == location;
    assert location[2..] == "/x y" && "/x y"[2] == ' ';
  }

  // ---- Transparency ----

  /**
   A backend's response, set up with a table code, readable headers and no redirect to follow, comes out of
   the proxy as a response that prints the same bytes, however its bytes were chunked.
   */
  lemma ProxyTransparent(cfg: Config, reasons: nat -> string, c: Call, chunks: seq<Chunk>, unset: nat,
                         more: seq<Upstream>, r: Resp)
    requires Readable(r) && r.reason == reasons(r.code) && Concat(chunks) == PrintResponse(r)
    requires r.code == 302 ==> forall i | 0 <= i < |r.fields| :: r.fields[i].0 != "Location"
    requires c.depth > 0 && c.resp.fields == []
    ensures var run := Exchange(cfg, reasons, c, DecodeAll([Accepts(chunks, unset)] + more));
            run.status == OK && run.resp == r && PrintResponse(run.resp) == Concat(chunks)
  {
    var hops := DecodeAll([Accepts(chunks, unset)] + more);
    ReadPrinted(chunks, unset, r);
    ReceivedPrinted(hops[0].answer, r, c.resp, reasons);
    LastStep(cfg, reasons, c, hops);
  }

  lemma ReceivedPrinted(a: Answer, r: Resp, resp: Resp, reasons: nat -> string)
    requires a == Answer(r.code, r.fields, r.body) && Readable(r) && r.reason == reasons(r.code)
    requires r.code == 302 ==> forall i | 0 <= i < |r.fields| :: r.fields[i].0 != "Location"
    requires resp.fields == []
    ensures !IsRedirect(a) && Received(resp, a, reasons) == r
  {
    PutAllInOrder([], r.fields);
    assert [] + r.fields == r.fields;
  }
}
