/**
 The proxy's exchange with backends: forward the request, read the answer into the response, and follow
 redirects down to a depth limit. The network is a script that says what each connection delivers.
 */
module ProxyHandler {
  import opened Wrappers
  import opened Text
  import opened SortedMap
  import opened HttpRequest
  import opened HttpResponse
  import opened HttpMessages
  import opened ProxyRequest
  import opened ProxyWire

  /**
   What a connection attempt meets: a backend that sends chunks, or an exception. `unset` is what the
   uninitialized variable for the status code of this attempt happens to hold.
   */
  datatype Upstream = Accepts(chunks: seq<Chunk>, unset: nat) | Unreachable

  /** What the proxy makes of a connection attempt: an answer or an exception. */
  datatype Hop = Got(answer: Answer) | Lost

  datatype Config = Config(prefix: string, host: string, port: string)

  /** A connection that was made, and the bytes written to it. */
  datatype Conn = Conn(host: string, port: string, sent: string)

  datatype Status = OK | BadRequest

  /** The arguments of one call of the handler, and the response object it finds. */
  datatype Call = Call(host: string, port: string, req: Req, depth: int, resp: Resp)

  datatype Run = Run(status: Status, resp: Resp, conns: seq<Conn>)

  // ---- Redirects ----

  /** The first Location header, or the number of headers. */
  function LocationIndex(l: Pairs): (i: nat)
    ensures i <= |l| && (forall j | 0 <= j < i :: l[j].0 != "Location") && (i < |l| ==> l[i].0 == "Location")
  {
    if l == [] || l[0].0 == "Location" then 0 else 1 + LocationIndex(l[1..])
  }

  /** The path and host of a redirect location, a scheme stripped first. */
  function ParseRedirectLocation(location: string): (string, string) {
    var a := Trim(location);
    var b := if |a| > 7 && a[..7] == "http://" then a[7..] else a;
    var c := if |b| > 8 && b[..8] == "https://" then b[8..] else b;
    var slash := Find(c, "/");
    if slash >= 0 then (c[slash..], c[..slash]) else ("/", c)
  }

  function Redirected(r: Req, location: string): Req {
    var (path, host) := ParseRedirectLocation(location);
    r.(uri := path, headers := SetIn(r.headers, "Host", host))
  }

  predicate IsRedirect(a: Answer) {
    a.code == 302 && LocationIndex(a.headers) < |a.headers|
  }

  /** The response once the answer's status and headers are in, headers only up to a followed Location. */
  function Received(resp: Resp, a: Answer, reasons: nat -> string): Resp {
    var l := if IsRedirect(a) then a.headers[..LocationIndex(a.headers)] else a.headers;
    Resp(a.code, reasons(a.code), PutAll(resp.fields, l), if IsRedirect(a) then resp.body else a.rest)
  }

  function LocationOf(a: Answer): string
    requires IsRedirect(a)
  {
    a.headers[LocationIndex(a.headers)].1
  }

  function Connection(cfg: Config, c: Call): Conn {
    Conn(c.host, c.port, Print(Forwarded(c.req, cfg.prefix, cfg.host, cfg.port)))
  }

  /** The recursive call that follows a redirect. */
  function Followed(cfg: Config, reasons: nat -> string, c: Call, a: Answer): Call
    requires IsRedirect(a)
  {
    Call(ParseRedirectLocation(LocationOf(a)).1, cfg.port, Redirected(c.req, LocationOf(a)), c.depth - 1,
         Received(c.resp, a, reasons))
  }

  /** The whole exchange, over what the connections deliver. */
  function Exchange(cfg: Config, reasons: nat -> string, c: Call, hops: seq<Hop>): Run
    decreases |hops|
  {
    if c.depth <= 0 then Run(OK, c.resp.(code := 404, reason := reasons(404)), [])
    else if hops == [] || hops[0].Lost? then Run(BadRequest, c.resp, [])
    else
      var a := hops[0].answer;
      if !IsRedirect(a) then Run(OK, Received(c.resp, a, reasons), [Connection(cfg, c)])
      else
        var rest := Exchange(cfg, reasons, Followed(cfg, reasons, c, a), hops[1..]);
        Run(rest.status, rest.resp, [Connection(cfg, c)] + rest.conns)
  }

  function Decode(u: Upstream): Hop {
    match u
    case Unreachable => Lost
    case Accepts(chunks, unset) => Got(ReadAnswer(chunks, unset))
  }

  function DecodeAll(script: seq<Upstream>): (hops: seq<Hop>)
    ensures |hops| == |script|
    ensures script != [] ==> hops[0] == Decode(script[0]) && hops[1..] == DecodeAll(script[1..])
  {
    if script == [] then [] else [Decode(script[0])] + DecodeAll(script[1..])
  }

  // ---- The handler ----

  lemma {:induction false} PutAllSnoc(m: Pairs, l: Pairs, x: (string, string))
    ensures PutAll(m, l + [x]) == Put(PutAll(m, l), x.0, x.1)
    decreases |l|
  {
    if l == [] {
      assert (l + [x])[1..] == [];
    } else {
      assert (l + [x])[1..] == l[1..] + [x];
      PutAllSnoc(Put(m, l[0].0, l[0].1), l[1..], x);
    }
  }

  /** Read chunks until one read finds nothing. */
  method SocketReadToEOF(w: Wire) returns (data: string)
    ensures data == Rest(w)
  {
    data := "";
    var left := w;
    while true
      invariant data + Rest(left) == Rest(w)
      decreases |left.incoming|, |left.buf|
    {
      if left.incoming != [] {
        left := left.(buf := left.buf + left.incoming[0], incoming := left.incoming[1..]);
      }
      if |left.buf| == 0 {
        break;
      }
      data := data + left.buf;
      left := left.(buf := "");
    }
  }

  lemma LocationAt(l: Pairs, i: nat)
    requires i <= |l| && (forall j | 0 <= j < i :: l[j].0 != "Location") && (i < |l| ==> l[i].0 == "Location")
    ensures LocationIndex(l) == i
  {
  }

  /** What the header loop leaves: the Location to follow, if any, and the headers put into the response. */
  ghost predicate HeadersReceived(all: Pairs, code: nat, location: Option<string>, before: Resp, after: Resp) {
    var i := LocationIndex(all);
    if code == 302 && i < |all| then
      location == Some(all[i].1) && after == before.(fields := PutAll(before.fields, all[..i]))
    else
      location == None && after == before.(fields := PutAll(before.fields, all))
  }

  /** Headers go into the response as they are read; a Location under code 302 ends the reading. */
  method ReceiveHeaders(w0: Wire, code: nat, response: Response) returns (location: Option<string>, w: Wire)
    modifies response
    ensures HeadersReceived(TakeHeaders(w0).1, code, location, old(response.Value()), response.Value())
    ensures location.None? ==> w == TakeHeaders(w0).0
  {
    ghost var all, before := TakeHeaders(w0).1, response.Value();
    ghost var read: Pairs := [];
    var (w', h) := NextHeader(w0);
    w := w';
    while h.Some?
      invariant all == read + (if h.Some? then [h.value] + TakeHeaders(w).1 else [])
      invariant TakeHeaders(w0).0 == if h.Some? then TakeHeaders(w).0 else w
      invariant code == 302 ==> forall j | 0 <= j < |read| :: read[j].0 != "Location"
      invariant response.Value() == before.(fields := PutAll(before.fields, read))
      decreases if h.Some? then |w.buf| + 1 else 0
    {
      assert all[|read|] == h.value && all[..|read|] == read;
      if code == 302 && h.value.0 == "Location" {
        LocationAt(all, |read|);
        return Some(h.value.1), w;
      }
      response.AddHeader(h.value.0, h.value.1);
      PutAllSnoc(before.fields, read, h.value);
      HeaderProgress(w);
      var (w'', h') := NextHeader(w);
      ghost var left := if h'.Some? then [h'.value] + TakeHeaders(w'').1 else [];
      assert TakeHeaders(w).1 == left;
      Append(read, [h.value], left);
      read := read + [h.value];
      w, h := w'', h';
    }
    assert read == all;
    if code == 302 {
      LocationAt(all, |all|);
    }
    location := None;
  }

  /** The connection, with the bytes written to it: those of a rewritten copy of the request. */
  method OpenConnection(cfg: Config, host: string, port: string, request: Req) returns (conn: Conn)
    ensures conn == Conn(host, port, Print(Forwarded(request, cfg.prefix, cfg.host, cfg.port)))
  {
    var modified := new MutableRequest(request);
    ModifyRequestForProxy(cfg.prefix, cfg.host, cfg.port, request, modified);
    var bytes := modified.ToString();
    conn := Conn(host, port, bytes);
  }

  /** The request for the location, a copy of the original with two changes. */
  method RedirectRequest(request: Req, location: string) returns (req: Req, host: string)
    ensures req == Redirected(request, location) && host == ParseRedirectLocation(location).1
  {
    var path;
    path, host := ParseRedirectLocation(location).0, ParseRedirectLocation(location).1;
    var newreq := new MutableRequest(request);
    newreq.SetURI(path);
    newreq.SetHeader("Host", host);
    req := newreq.Value();
  }

  /**
   Read one backend's answer into the response: the status first, then the headers, and the body unless a
   Location is to be followed. The variable for the code starts out as `unset`.
   */
  method ReceiveAnswer(chunks: seq<Chunk>, unset: nat, response: Response) returns (location: Option<string>)
    modifies response
    ensures var a := ReadAnswer(chunks, unset);
            && response.Value() == Received(old(response.Value()), a, response.reasons)
            && location == if IsRedirect(a) then Some(LocationOf(a)) else None
  {
    var (w, c) := TakeStatus(Wire("", chunks, true, false));
    var code := if c.Some? then c.value else unset;
    response.SetStatus(code);
    var w';
    location, w' := ReceiveHeaders(ReadUntil(w, BLANK), code, response);
    if location.None? {
      var body := SocketReadToEOF(w');
      response.SetBody(body);
    }
  }

  lemma RedirectStep(cfg: Config, reasons: nat -> string, c: Call, hops: seq<Hop>, a: Answer, next: Call,
                     tail: seq<Hop>, rest: Run)
    requires c.depth > 0 && hops != [] && hops[0] == Got(a) && IsRedirect(a)
    requires next == Followed(cfg, reasons, c, a) && tail == hops[1..]
    requires rest == Exchange(cfg, reasons, next, tail)
    ensures Exchange(cfg, reasons, c, hops) == Run(rest.status, rest.resp, [Connection(cfg, c)] + rest.conns)
  {
  }

  /** An exchange that needs no second connection. */
  lemma LastStep(cfg: Config, reasons: nat -> string, c: Call, hops: seq<Hop>)
    requires c.depth > 0 && hops != [] && hops[0].Got? && !IsRedirect(hops[0].answer)
    ensures Exchange(cfg, reasons, c, hops) == Run(OK, Received(c.resp, hops[0].answer, reasons), [Connection(cfg, c)])
  {
  }

  /** `SendRequestToServer`. */
  method SendRequestToServer(cfg: Config, host: string, port: string, request: Req, script: seq<Upstream>,
                             depth: int, response: Response)
    returns (status: Status, conns: seq<Conn>)
    modifies response
    ensures Run(status, response.Value(), conns) ==
            Exchange(cfg, response.reasons, Call(host, port, request, depth, old(response.Value())), DecodeAll(script))
    decreases |script|
  {
    ghost var c, hops := Call(host, port, request, depth, response.Value()), DecodeAll(script);
    if depth <= 0 {
      response.SetStatus(404);
      return OK, [];
    }
    if script == [] || script[0].Unreachable? {
      return BadRequest, [];
    }
    var conn := OpenConnection(cfg, host, port, request);
    var location := ReceiveAnswer(script[0].chunks, script[0].unset, response);
    if location.None? {
      LastStep(cfg, response.reasons, c, hops);
      return OK, [conn];
    }
    ghost var a := hops[0].answer;
    var newreq, newHost := RedirectRequest(request, location.value);
    var fewer := depth - 1;
    ghost var next := Call(newHost, cfg.port, newreq, fewer, response.Value());
    ghost var tail := DecodeAll(script[1..]);
    status, conns := SendRequestToServer(cfg, newHost, cfg.port, newreq, script[1..], fewer, response);
    RedirectStep(cfg, response.reasons, c, hops, a, next, tail, Run(status, response.Value(), conns));
    conns := [conn] + conns;
  }
}
