/** How the proxy rewrites a request before it forwards it. */
module ProxyRequest {
  import opened Text
  import opened SortedMap
  import opened HttpRequest
  import opened HttpMessages

  /** Strip as many characters as the prefix has; an uri shorter than the prefix is left alone. */
  function ExtractNonProxyUri(prefix: string, uri: string): string {
    if |uri| < |prefix| then uri
    else
      var rest := uri[|prefix|..];
      if rest == "" then "/" else if rest[0] != '/' then "/" + rest else rest
  }

  function Forwarded(r: Req, prefix: string, host: string, port: string): Req {
    r.(uri := ExtractNonProxyUri(prefix, r.uri),
       headers := SetIn(SetIn(r.headers, "Connection", "close"), "Host", host + ":" + port))
  }

  /** `ModifyRequestForProxy` on a copy of the request. */
  method ModifyRequestForProxy(prefix: string, host: string, port: string, request: Req, modified: MutableRequest)
    requires modified.Value() == request
    modifies modified
    ensures modified.Value() == Forwarded(request, prefix, host, port)
  {
    var uri := ExtractNonProxyUri(prefix, request.uri);
    modified.SetURI(uri);
    modified.SetHeader("Connection", "close");
    modified.SetHeader("Host", host + ":" + port);
  }

  // ---- Headers ----

  ghost predicate DistinctNames(l: Pairs) {
    forall i, j | 0 <= i < j < |l| :: l[i].0 != l[j].0
  }

  lemma SortedDistinct(l: Pairs)
    requires Sorted(l)
    ensures DistinctNames(l)
  {
    forall i, j | 0 <= i < j < |l| ensures l[i].0 != l[j].0 {
      LessTotal(l[i].0, l[j].0);
    }
  }

  lemma {:induction false} SetInNames(l: Pairs, name: string, value: string)
    requires DistinctNames(l)
    ensures DistinctNames(SetIn(l, name, value))
    ensures forall i | 0 <= i < |SetIn(l, name, value)| ::
              SetIn(l, name, value)[i].0 == name || exists j :: 0 <= j < |l| && l[j].0 == SetIn(l, name, value)[i].0
  {
    if l != [] && l[0].0 != name {
      var q := SetIn(l[1..], name, value);
      SetInNames(l[1..], name, value);
      forall i | 0 <= i < |q|
        ensures q[i].0 != l[0].0 && (q[i].0 == name || exists j :: 0 <= j < |l| && l[j].0 == q[i].0)
      {
        if q[i].0 != name {
          var j :| 0 <= j < |l[1..]| && l[1..][j].0 == q[i].0;
          assert l[j + 1].0 == q[i].0;
        }
      }
    }
  }

  lemma NotInRest(l: Pairs)
    requires DistinctNames(l) && l != []
    ensures l[0].0 !in MapOf(l[1..])
  {
    MapOfKeys(l[1..]);
  }

  /** Setting a header changes exactly that entry of the map. */
  lemma {:induction false} SetInMap(l: Pairs, name: string, value: string)
    requires DistinctNames(l)
    ensures MapOf(SetIn(l, name, value)) == MapOf(l)[name := value]
  {
    if l == [] {
      assert [(name, value)] == [(name, value)] + [];
      MapOfCons((name, value), []);
    } else {
      var t := l[1..];
      assert l == [l[0]] + t;
      MapOfCons(l[0], t);
      if l[0].0 == name {
        NotInRest(l);
        MapOfCons((name, value), t);
        UpdateFirst(map[name := l[0].1], name, value, MapOf(t));
        assert map[name := l[0].1][name := value] == map[name := value];
      } else {
        SetInMap(t, name, value);
        MapOfCons(l[0], SetIn(t, name, value));
        UpdateFirst(map[l[0].0 := l[0].1], name, value, MapOf(t));
      }
    }
  }

  /** All headers are clean but, possibly, those of one name. */
  ghost predicate CleanBut(l: Pairs, skip: string) {
    forall i | 0 <= i < |l| && l[i].0 != skip :: CleanHeader(l[i])
  }

  lemma {:induction false} SetInCleanBut(l: Pairs, name: string, value: string, skip: string)
    requires CleanBut(l, skip) && (name == skip || CleanHeader((name, value)))
    ensures CleanBut(SetIn(l, name, value), skip)
  {
    if l != [] && l[0].0 != name {
      SetInCleanBut(l[1..], name, value, skip);
    }
  }

  /** Setting the header that need not be clean to a clean value makes all of them clean. */
  lemma {:induction false} SetInClean(l: Pairs, name: string, value: string)
    requires DistinctNames(l) && CleanBut(l, name) && CleanHeader((name, value))
    ensures CleanHeaders(SetIn(l, name, value))
  {
    if l != [] && l[0].0 != name {
      SetInClean(l[1..], name, value);
    }
  }

  lemma PlainName(w: string, value: string)
    requires NoChar(w, ':') && NoChar(w, '\r') && NoCrlf(value)
    ensures CleanHeader((w, value))
  {
    NoCharFind(w, ':');
    assert [':'] == ":";
  }

  lemma ConnectionPlain()
    ensures NoChar("Connection", ':') && NoChar("Connection", '\r') && NoChar("close", '\r')
  {
  }

  lemma HostPlain()
    ensures NoChar("Host", ':') && NoChar("Host", '\r')
  {
  }

  lemma SetHeadersClean(hostPort: string)
    requires NoCrlf(hostPort)
    ensures CleanHeader(("Connection", "close")) && CleanHeader(("Host", hostPort))
  {
    var name, value := "Connection", "close";
    ConnectionPlain();
    assert NoCrlf(value);
    PlainName(name, value);
    HostPlain();
    PlainName("Host", hostPort);
  }

  // ---- The uri ----

  lemma ExtractWord(prefix: string, uri: string)
    requires Word(uri)
    ensures Word(ExtractNonProxyUri(prefix, uri))
    ensures |uri| >= |prefix| ==>
      var u := ExtractNonProxyUri(prefix, uri);
      u[0] == '/' && (u == uri[|prefix|..] || u == "/" + uri[|prefix|..])
    ensures |uri| < |prefix| ==> ExtractNonProxyUri(prefix, uri) == uri
  {
    if |uri| >= |prefix| {
      var rest := uri[|prefix|..];
      NoCrlfSlice(uri, |prefix|, |uri|);
      assert uri[|prefix|..|uri|] == rest;
      if rest == "" {
        assert "/" + rest == "/";
      } else if rest[0] != '/' {
        NoCrlfJoin("/", rest);
      }
    }
  }

  // ---- End to end ----

  /** The stripped uri starts with a slash exactly if the uri is not shorter than the prefix or has one itself. */
  lemma SlashExactly(prefix: string, uri: string)
    requires Word(uri)
    ensures ExtractNonProxyUri(prefix, uri)[0] == '/' <==> |uri| >= |prefix| || uri[0] == '/'
  {
    ExtractWord(prefix, uri);
  }

  function WithSlash(rest: string): string {
    if rest == "" || rest[0] != '/' then "/" + rest else rest
  }

  /**
   The prefix is cut off by its length. A uri that starts with it gives the remote uri, what follows the prefix
   with a slash in front; any other that is not shorter gives what the uri with the prefix in its place
   would give, so that the two cannot be told apart; a shorter one stays as it is.
   */
  lemma RemoteUriExactly(prefix: string, uri: string)
    ensures (exists rest :: uri == prefix + rest && ExtractNonProxyUri(prefix, uri) == WithSlash(rest)) <==> prefix <= uri
    ensures |uri| >= |prefix| ==>
      && ExtractNonProxyUri(prefix, uri) == WithSlash(uri[|prefix|..])
      && ExtractNonProxyUri(prefix, uri) == ExtractNonProxyUri(prefix, prefix + uri[|prefix|..])
    ensures |uri| < |prefix| ==> ExtractNonProxyUri(prefix, uri) == uri
  {
    assert "/" + "" == "/";
    if |uri| >= |prefix| {
      var rest := uri[|prefix|..];
      assert (prefix + rest)[|prefix|..] == rest;
      assert prefix <= uri ==> uri == prefix + rest;
    }
  }

  /**
   A uri that starts with a slash passes unchanged exactly if it is shorter than the prefix, if the prefix is
   empty, or if the prefix is one character and the uri does not start with two slashes.
   */
  lemma UriKeptExactly(prefix: string, uri: string)
    requires uri != "" && uri[0] == '/'
    ensures ExtractNonProxyUri(prefix, uri) == uri <==>
              |uri| < |prefix| || prefix == "" || (|prefix| == 1 && (|uri| == 1 || uri[1] != '/'))
  {
    if 1 <= |prefix| <= |uri| {
      var rest := uri[|prefix|..];
      if |prefix| == 1 {
        assert uri == "/" + rest;
        assert |uri| > 1 ==> rest[0] == uri[1];
      }
    }
  }

  /** What the backend should parse: the stripped uri, and the old headers with two entries set. */
  ghost predicate ForwardedAs(r: Req, prefix: string, hostPort: string, got: Parsed) {
    && got.Good?
    && got.req == r.(uri := ExtractNonProxyUri(prefix, r.uri), headers := got.req.headers)
    && Sorted(got.req.headers)
    && MapOf(got.req.headers) == MapOf(r.headers)["Connection" := "close"]["Host" := hostPort]
  }

  /** A request that can be forwarded as it should, once its uri is a word: its Host, which is set anew, may be anything. */
  ghost predicate Forwardable(r: Req) {
    Word(r.method') && Word(r.version) && DistinctNames(r.headers) && CleanBut(r.headers, "Host")
  }

  lemma ForwardedHeaders(l: Pairs, hostPort: string)
    requires DistinctNames(l)
    ensures var f := SetIn(SetIn(l, "Connection", "close"), "Host", hostPort);
            && (CleanBut(l, "Host") && NoCrlf(hostPort) ==> CleanHeaders(f))
            && MapOf(f) == MapOf(l)["Connection" := "close"]["Host" := hostPort]
  {
    var l' := SetIn(l, "Connection", "close");
    SetInNames(l, "Connection", "close");
    SetInMap(l, "Connection", "close");
    SetInMap(l', "Host", hostPort);
    if CleanBut(l, "Host") && NoCrlf(hostPort) {
      SetHeadersClean(hostPort);
      SetInCleanBut(l, "Connection", "close", "Host");
      SetInClean(l', "Host", hostPort);
    }
  }

  lemma PrintedParses(r: Req)
    requires Clean(r)
    ensures Parse(Print(r)).Good? && Parse(Print(r)).req == r.(headers := Parse(Print(r)).req.headers)
    ensures Sorted(Parse(Print(r)).req.headers) && MapOf(Parse(Print(r)).req.headers) == MapOf(r.headers)
  {
    ParsePrinted(r);
    PutAllSorted([], r.headers);
    assert MapOf([]) + MapOf(r.headers) == MapOf(r.headers);
  }

  /** The bytes written parse as described exactly if host and port hold no line end and the stripped uri is a word. */
  lemma ForwardableExactly(r: Req, prefix: string, host: string, port: string)
    requires Forwardable(r)
    ensures NoCrlf(host + ":" + port) && Word(ExtractNonProxyUri(prefix, r.uri)) <==>
            ForwardedAs(r, prefix, host + ":" + port, Parse(Print(Forwarded(r, prefix, host, port))))
  {
    var f, hp := Forwarded(r, prefix, host, port), host + ":" + port;
    ForwardedHeaders(r.headers, hp);
    if NoCrlf(hp) && Word(f.uri) {
      PrintedParses(f);
    }
    var got := Parse(Print(f));
    if ForwardedAs(r, prefix, hp, got) {
      ParsedIsClean(Print(f));
      MapOfEntry(got.req.headers, "Host");
    }
  }

  lemma ParsedForwardable(raw: string)
    requires Parse(raw).Good?
    ensures Forwardable(Parse(raw).req) && Word(Parse(raw).req.uri)
  {
    ParsedIsClean(raw);
    SortedDistinct(Parse(raw).req.headers);
  }

  /**
   For every parsed request, the bytes the proxy writes parse to the request with the stripped uri, the
   same method, version and body, and the old header map changed only at Connection and Host, exactly
   when the configured host and port hold no line end.
   */
  lemma ForwardedExactly(raw: string, prefix: string, host: string, port: string)
    requires Parse(raw).Good?
    ensures var r := Parse(raw).req;
            NoCrlf(host + ":" + port) <==>
            ForwardedAs(r, prefix, host + ":" + port, Parse(Print(Forwarded(r, prefix, host, port))))
  {
    ParsedForwardable(raw);
    ExtractWord(prefix, Parse(raw).req.uri);
    ForwardableExactly(Parse(raw).req, prefix, host, port);
  }

  lemma {:induction false} MapOfEntry(l: Pairs, k: string)
    requires k in MapOf(l)
    ensures exists i :: 0 <= i < |l| && l[i] == (k, MapOf(l)[k])
    decreases |l|
  {
    var n := |l| - 1;
    if l[n].0 == k {
      assert l[n] == (k, MapOf(l)[k]);
    } else {
      MapOfEntry(l[..n], k);
      var i :| 0 <= i < n && l[..n][i] == (k, MapOf(l[..n])[k]);
      assert l[i] == (k, MapOf(l)[k]);
    }
  }
}
