/** The request classes: parsing that fills fields step by step, and the mutable copy that is printed. */
module HttpMessages {
  import opened Wrappers
  import opened Text
  import opened SortedMap
  import opened HttpRequest

  /** How a call that may throw ends. */
  datatype Ending = Returned(ok: bool) | Exception

  method SkipBlanks(s: string) returns (t: string)
    ensures t == SkipSpaces(s)
  {
    var i := 0;
    while i < |s| && s[i] == ' '
      invariant i <= |s| && SkipSpaces(s) == SkipSpaces(s[i..])
    {
      var j := i + 1;
      assert s[i..][1..] == s[j..];
      i := j;
    }
    t := s[i..];
  }

  method FirstWord(t: string) returns (n: nat)
    ensures n == WordLength(t)
  {
    n := 0;
    while n < |t| && t[n] != ' '
      invariant n <= |t| && WordLength(t) == n + WordLength(t[n..])
    {
      var m := n + 1;
      assert t[n..][1..] == t[m..];
      n := m;
    }
  }

  /** One `strtok` step: the next word and the text behind it. */
  method NextToken(s: string) returns (token: Option<string>, rest: string)
    ensures token.None? ==> Fields(s) == []
    ensures token.Some? ==> |rest| < |s| && Fields(s) == [token.value] + Fields(rest)
  {
    var t := SkipBlanks(s);
    if t == "" {
      return None, "";
    }
    var n := FirstWord(t);
    token, rest := Some(t[..n]), t[n..];
  }

  /** The loop of `strtok` calls. */
  method AllFields(s: string) returns (fields: seq<string>)
    ensures fields == Fields(s)
  {
    fields := [];
    var token, rest := NextToken(s);
    while token.Some?
      invariant Fields(s) == fields + (if token.Some? then [token.value] + Fields(rest) else [])
      decreases if token.Some? then |rest| + 1 else 0
    {
      Append(fields, [token.value], Fields(rest));
      fields := fields + [token.value];
      token, rest := NextToken(rest);
    }
  }

  /** Cut a text at its line ends, erasing each line once it is stored. */
  method CutLines(text: string) returns (lines: seq<string>)
    ensures lines == SplitLines(text)
  {
    var left := text;
    lines := [];
    var cut := Find(left, CRLF);
    while cut >= 0
      invariant cut == Find(left, CRLF) && SplitLines(text) == lines + SplitLines(left)
      decreases |left|
    {
      BeforeLineEnd(left);
      lines := lines + [left[..cut]];
      left := left[cut + 2..];
      cut := Find(left, CRLF);
    }
    lines := lines + [left];
  }

  class Request {
    var headerFields: Pairs
    var headers: Pairs
    var rawRequest: string
    var requestLine: string
    var messageBody: string
    var method': string
    var version: string
    var requestUri: string

    constructor ()
      ensures headerFields == [] && headers == []
    {
      headerFields, headers := [], [];
      rawRequest, requestLine, messageBody, method', version, requestUri := "", "", "", "", "", "";
    }

    function Value(): Req
      reads this
    {
      Req(method', requestUri, version, headers, messageBody)
    }

    method ProcessRequestLine(request: string) returns (ok: bool)
      modifies this
      ensures var e := Find(request, CRLF);
              if e < 0 then !ok
              else
                var f := Fields(CString(request[..e]));
                ok == (|f| == 3) && (ok ==> method' == f[0] && requestUri == f[1] && version == f[2])
      ensures requestLine == if Find(request, CRLF) < 0 then old(requestLine) else request[..Find(request, CRLF)]
      ensures !ok ==> method' == old(method') && requestUri == old(requestUri) && version == old(version)
      ensures headerFields == old(headerFields) && headers == old(headers) && messageBody == old(messageBody)
      ensures rawRequest == old(rawRequest)
    {
      var end := Find(request, CRLF);
      if end < 0 {
        return false;
      }
      requestLine := request[..end];
      var fields := AllFields(CString(requestLine));
      if |fields| != 3 {
        return false;
      }
      method', requestUri, version := fields[0], fields[1], fields[2];
      return true;
    }

    method ProcessMessageBody(request: string) returns (ok: bool)
      modifies this`messageBody
      ensures ok == (Find(request, BLANK) >= 0)
      ensures ok ==> Find(request, BLANK) + 4 <= |request| && messageBody == request[Find(request, BLANK) + 4..]
    {
      var start := Find(request, BLANK);
      if start < 0 {
        return false;
      }
      BlankBehindLine(request);
      messageBody := request[start + 4..];
      return true;
    }

    method ProcessHeaders(request: string) returns (r: Ending)
      requires Find(request, BLANK) >= 0 && headerFields == []
      modifies this`headerFields
      ensures match HeaderBlock(request)
              case Headers(m) => r == Returned(true) && headerFields == m
              case BadHeader => r == Returned(false)
              case NoValue => r == Exception
    {
      BlankBehindLine(request);
      var start, end := Find(request, CRLF), Find(request, BLANK);
      if start == end {
        return Returned(true);
      }
      var lines := CutLines(request[start + 2..end]);
      r := PutHeaderLines(lines);
    }

    method PutHeaderLines(lines: seq<string>) returns (r: Ending)
      requires headerFields == []
      modifies this`headerFields
      ensures match PutLines([], lines)
              case Headers(m) => r == Returned(true) && headerFields == m
              case BadHeader => r == Returned(false)
              case NoValue => r == Exception
    {
      assert lines[0..] == lines;
      for i := 0 to |lines|
        invariant PutLines(headerFields, lines[i..]) == PutLines([], lines)
      {
        var line := lines[i];
        var valueCut := Find(line, ":");
        if valueCut < 0 {
          return Returned(false);
        }
        if valueCut + 2 > |line| {
          return Exception;
        }
        assert lines[i..] == [line] + lines[i + 1..];
        headerFields := Put(headerFields, line[..valueCut], line[valueCut + 2..]);
      }
      return Returned(true);
    }

    /** `ParseRequest` on a new request: the outcome and the fields are those of the function `Parse`. */
    method ParseRequest(request: string) returns (r: Ending)
      requires headerFields == [] && headers == []
      modifies this
      ensures match Parse(request)
              case Good(req) => r == Returned(true) && Value() == req && rawRequest == request
              case Refused => r == Returned(false)
              case Thrown => r == Exception
    {
      var ok := ProcessRequestLine(request);
      if !ok {
        return Returned(false);
      }
      ok := ProcessMessageBody(request);
      if !ok {
        return Returned(false);
      }
      r := ProcessHeaders(request);
      if r != Returned(true) {
        return;
      }
      rawRequest := request;
      for i := 0 to |headerFields|
        invariant headers == headerFields[..i]
        modifies this`headers
      {
        headers := headers + [headerFields[i]];
      }
    }
  }

  /** `Request::Parse`: the request, or null, unless an exception leaves it. */
  method ParseNew(raw: string) returns (req: Request?, threw: bool)
    ensures threw == Parse(raw).Thrown?
    ensures !threw ==> (req != null) == Parse(raw).Good?
    ensures req != null ==> fresh(req) && Parse(raw) == Good(req.Value())
  {
    var r := new Request();
    var ending := r.ParseRequest(raw);
    match ending
    case Returned(true) => return r, false;
    case Returned(false) => return null, false;
    case Exception => return null, true;
  }

  // ---- The mutable copy ----

  /** Overwrite the first header with the name, or append one. */
  function SetIn(l: Pairs, name: string, value: string): Pairs {
    if l == [] then [(name, value)]
    else if l[0].0 == name then [(name, value)] + l[1..]
    else [l[0]] + SetIn(l[1..], name, value)
  }

  lemma {:induction false} SetInAt(l: Pairs, i: nat, name: string, value: string)
    requires i <= |l| && forall j | 0 <= j < i :: l[j].0 != name
    requires i < |l| ==> l[i].0 == name
    ensures SetIn(l, name, value) == if i == |l| then l + [(name, value)] else l[i := (name, value)]
    decreases i
  {
    if i > 0 {
      SetInAt(l[1..], i - 1, name, value);
      assert l == [l[0]] + l[1..];
    }
  }

  /** The first header with the name stands at `i`. */
  predicate FirstWith(l: Pairs, name: string, i: nat) {
    i < |l| && l[i].0 == name && forall j | 0 <= j < i :: l[j].0 != name
  }

  class MutableRequest {
    var headers: Pairs
    var requestUri: string
    const method': string
    const version: string
    const body: string

    /** A copy of a request, given by the values of its fields. */
    constructor (other: Req)
      ensures Value() == other
    {
      headers, requestUri := other.headers, other.uri;
      method', version, body := other.method', other.version, other.body;
    }

    function Value(): Req
      reads this
    {
      Req(method', requestUri, version, headers, body)
    }

    method SetURI(uri: string)
      modifies this
      ensures Value() == old(Value()).(uri := uri)
    {
      requestUri := uri;
    }

    method SetHeader(name: string, value: string)
      modifies this
      ensures Value() == old(Value()).(headers := SetIn(old(headers), name, value))
      ensures forall i | 0 <= i < |old(headers)| && FirstWith(old(headers), name, i) ::
                headers == old(headers)[i := (name, value)]
      ensures (forall i | 0 <= i < |old(headers)| :: old(headers)[i].0 != name) ==>
        headers == old(headers) + [(name, value)]
    {
      for i := 0 to |headers|
        invariant headers == old(headers) && forall j | 0 <= j < i :: headers[j].0 != name
        invariant requestUri == old(requestUri)
      {
        if headers[i].0 == name {
          SetInAt(headers, i, name, value);
          headers := headers[i := (name, value)];
          return;
        }
      }
      SetInAt(headers, |headers|, name, value);
      headers := headers + [(name, value)];
    }

    method ToString() returns (s: string)
      ensures s == Print(Value())
      ensures s == method' + " " + requestUri + " " + version + "\r\n" + HeaderText(headers) + "\r\n" + body
    {
      s := method' + " " + requestUri + " " + version + CRLF;
      ghost var line := s;
      for i := 0 to |headers|
        invariant s == line + HeaderText(headers[..i])
      {
        assert headers[..i + 1][..i] == headers[..i];
        s := s + (headers[i].0 + ": " + headers[i].1 + CRLF);
      }
      assert headers[..|headers|] == headers;
      s := s + CRLF;
      s := s + body;
    }
  }
}
