/**
 Parsing and printing HTTP requests (section 3 of RFC 7230, implemented loosely): what the parser
 computes, as functions of the raw text.
 */
module HttpRequest {
  import opened Text
  import opened SortedMap

  datatype Req = Req(method': string, uri: string, version: string, headers: Pairs, body: string)

  /** `Thrown`: an exception leaves the parser. */
  datatype Parsed = Good(req: Req) | Refused | Thrown

  // ---- Request line ----

  /** What a C string function sees of the text. */
  function CString(s: string): string {
    var i := Find(s, "\0"); if i < 0 then s else s[..i]
  }

  function SkipSpaces(s: string): (r: string)
    ensures |r| <= |s| && (r != "" ==> r[0] != ' ')
  {
    if s != "" && s[0] == ' ' then SkipSpaces(s[1..]) else s
  }

  /** The length of the first word of a text that does not start with a space. */
  function WordLength(s: string): (n: nat)
    ensures n <= |s| && (s != "" && s[0] != ' ' ==> n > 0)
  {
    if s == "" || s[0] == ' ' then 0 else 1 + WordLength(s[1..])
  }

  /** The words between spaces, as repeated `strtok` calls deliver them. */
  function Fields(s: string): seq<string>
    decreases |s|
  {
    var t := SkipSpaces(s);
    if t == "" then [] else [t[..WordLength(t)]] + Fields(t[WordLength(t)..])
  }

  // ---- Headers ----

  datatype HeaderResult = Headers(fields: Pairs) | BadHeader | NoValue

  /** One line: the name runs to the first colon, the value starts two characters after it. */
  function PutLine(m: Pairs, line: string): HeaderResult {
    var cut := Find(line, ":");
    if cut < 0 then BadHeader
    else if cut + 2 > |line| then NoValue
    else Headers(Put(m, line[..cut], line[cut + 2..]))
  }

  function PutLines(m: Pairs, lines: seq<string>): HeaderResult
    decreases |lines|
  {
    if lines == [] then Headers(m)
    else
      match PutLine(m, lines[0])
      case Headers(m') => PutLines(m', lines[1..])
      case r => r
  }

  // ---- Request ----

  const BLANK: string := CRLF + CRLF

  /** A blank line ends a line; unless it ends the first one, that lies at least a character before. */
  lemma BlankBehindLine(s: string)
    requires Find(s, BLANK) >= 0
    ensures 0 <= Find(s, CRLF) <= Find(s, BLANK) && Find(s, BLANK) + 4 <= |s|
    ensures Find(s, CRLF) != Find(s, BLANK) ==> Find(s, CRLF) + 2 < Find(s, BLANK)
  {
    var e, b := Find(s, CRLF), Find(s, BLANK);
    FindFirst(s, CRLF);
    FindFirst(s, BLANK);
    BlankNeedsLineEnd(s, b);
    CrlfAt(s, b);
    CrlfAt(s, b + 2);
    CrlfAt(s, e);
    if b == e + 2 {
      assert s[e..][..4] == BLANK;
      assert OccursAt(s, BLANK, e);
    }
  }

  function HeaderBlock(s: string): HeaderResult
    requires Find(s, BLANK) >= 0
  {
    BlankBehindLine(s);
    var e, b := Find(s, CRLF), Find(s, BLANK);
    if e == b then Headers([]) else PutLines([], SplitLines(s[e + 2..b]))
  }

  function Parse(s: string): Parsed {
    var e, b := Find(s, CRLF), Find(s, BLANK);
    if e < 0 then Refused
    else
      var f := Fields(CString(s[..e]));
      if |f| != 3 || b < 0 then Refused
      else
        BlankBehindLine(s);
        match HeaderBlock(s)
        case Headers(m) => Good(Req(f[0], f[1], f[2], m, s[b + 4..]))
        case BadHeader => Refused
        case NoValue => Thrown
  }

  // ---- Printing ----

  function HeaderLine(h: (string, string)): string {
    h.0 + ": " + h.1
  }

  function HeaderText(l: Pairs): string {
    if l == [] then "" else HeaderText(l[..|l| - 1]) + HeaderLine(l[|l| - 1]) + CRLF
  }

  function RequestLine(r: Req): string {
    r.method' + " " + r.uri + " " + r.version
  }

  function Print(r: Req): string {
    RequestLine(r) + CRLF + HeaderText(r.headers) + CRLF + r.body
  }

  /** Every header is printed on a line of its own, wherever it stands. */
  lemma {:induction false} HeaderTextParts(a: Pairs, name: string, value: string, b: Pairs)
    ensures HeaderText([]) == ""
    ensures HeaderText(a + ([(name, value)] + b)) == HeaderText(a) + (name + ": " + value + "\r\n") + HeaderText(b)
    decreases |b|
  {
    var h := (name, value);
    var l := a + ([h] + b);
    if b == [] {
      assert l[..|l| - 1] == a && l[|l| - 1] == h;
      Append(HeaderText(a), HeaderLine(h), CRLF);
    } else {
      var init, x := b[..|b| - 1], b[|b| - 1];
      assert l[..|l| - 1] == a + ([h] + init) && l[|l| - 1] == x;
      HeaderTextParts(a, name, value, init);
      var front := HeaderText(a) + (HeaderLine(h) + CRLF);
      Append(front, HeaderText(init), HeaderLine(x));
      Append(front, HeaderText(init) + HeaderLine(x), CRLF);
    }
  }

  // ---- What a parsed request looks like ----

  /** A word of the request line. */
  ghost predicate Word(w: string) {
    w != "" && NoCrlf(w) && forall i | 0 <= i < |w| :: w[i] != ' ' && w[i] != '\0'
  }

  ghost predicate CleanHeader(h: (string, string)) {
    Find(h.0, ":") < 0 && NoCrlf(h.0) && NoCrlf(h.1)
  }

  ghost predicate CleanHeaders(l: Pairs) {
    forall i | 0 <= i < |l| :: CleanHeader(l[i])
  }

  ghost predicate Clean(r: Req) {
    Word(r.method') && Word(r.uri) && Word(r.version) && CleanHeaders(r.headers)
  }

  ghost predicate AllWords(f: seq<string>) {
    forall i | 0 <= i < |f| :: Word(f[i])
  }

  ghost predicate Tame(s: string) {
    NoCrlf(s) && forall i | 0 <= i < |s| :: s[i] != '\0'
  }

  lemma CStringTame(s: string)
    requires NoCrlf(s)
    ensures Tame(CString(s))
  {
    FindFirst(s, "\0");
    forall i | 0 <= i < |CString(s)| ensures s[i] != '\0' {
      assert !OccursAt(s, "\0", i);
      assert s[i..][0] == s[i];
    }
  }

  lemma {:induction false} SkipTame(s: string)
    requires Tame(s)
    ensures Tame(SkipSpaces(s))
  {
    if s != "" && s[0] == ' ' {
      SkipTame(s[1..]);
    }
  }

  lemma {:induction false} WordNoSpace(s: string)
    ensures forall i | 0 <= i < WordLength(s) :: s[i] != ' '
  {
    if s != "" && s[0] != ' ' {
      WordNoSpace(s[1..]);
      assert forall i | 1 <= i < |s| :: s[i] == s[1..][i - 1];
    }
  }

  lemma {:induction false} FieldsAreWords(s: string)
    requires Tame(s)
    ensures AllWords(Fields(s))
    decreases |s|
  {
    var t := SkipSpaces(s);
    SkipTame(s);
    if t != "" {
      WordNoSpace(t);
      FieldsAreWords(t[WordLength(t)..]);
    }
  }

  lemma PutKeepsClean(m: Pairs, k: string, v: string)
    requires CleanHeaders(m) && CleanHeader((k, v))
    ensures CleanHeaders(Put(m, k, v))
    decreases |m|
  {
    if m != [] && m[0].0 != k && !Less(k, m[0].0) {
      PutKeepsClean(m[1..], k, v);
    }
  }

  lemma LineParts(line: string)
    requires NoCrlf(line) && 0 <= Find(line, ":") && Find(line, ":") + 2 <= |line|
    ensures var cut := Find(line, ":"); CleanHeader((line[..cut], line[cut + 2..]))
  {
    var cut := Find(line, ":");
    FindFirst(line, ":");
    FindFirst(line[..cut], ":");
    var j := Find(line[..cut], ":");
    if j >= 0 {
      assert line[..cut][j..][0] == ':';
      assert line[j..][0] == ':';
      assert OccursAt(line, ":", j);
    }
    NoCrlfSlice(line, 0, cut);
    NoCrlfSlice(line, cut + 2, |line|);
    assert line[cut + 2..|line|] == line[cut + 2..] && line[0..cut] == line[..cut];
  }

  lemma {:induction false} LinesClean(m: Pairs, lines: seq<string>)
    requires Sorted(m) && CleanHeaders(m) && AllNoCrlf(lines) && PutLines(m, lines).Headers?
    ensures var r := PutLines(m, lines).fields; Sorted(r) && CleanHeaders(r)
    decreases |lines|
  {
    if lines != [] {
      var line := lines[0];
      var cut := Find(line, ":");
      NoCrlfFind(line);
      LineParts(line);
      PutKeepsClean(m, line[..cut], line[cut + 2..]);
      PutKeepsSorted(m, line[..cut], line[cut + 2..]);
      LinesClean(Put(m, line[..cut], line[cut + 2..]), lines[1..]);
    }
  }

  /** Every parsed request is clean, and its headers are in ascending order of their names. */
  lemma ParsedIsClean(s: string)
    requires Parse(s).Good?
    ensures Clean(Parse(s).req) && Sorted(Parse(s).req.headers) && Ascending(Parse(s).req.headers)
  {
    ParsedHeadersClean(s);
    SortedExactly(Parse(s).req.headers);
  }

  lemma ParsedHeadersClean(s: string)
    requires Parse(s).Good?
    ensures Clean(Parse(s).req) && Sorted(Parse(s).req.headers)
  {
    var e, b := Find(s, CRLF), Find(s, BLANK);
    BeforeLineEnd(s);
    CStringTame(s[..e]);
    FieldsAreWords(CString(s[..e]));
    BlankBehindLine(s);
    if e != b {
      SplitClean(s[e + 2..b]);
      LinesClean([], SplitLines(s[e + 2..b]));
    }
  }

  // ---- Which headers a text has ----

  predicate HasParts(line: string) {
    Find(line, ":") >= 0 && Find(line, ":") + 2 <= |line|
  }

  /** The names and values of the lines, in the order of the text. */
  function LinePairs(lines: seq<string>): Pairs
    requires forall i | 0 <= i < |lines| :: HasParts(lines[i])
  {
    if lines == [] then []
    else
      var line, cut := lines[0], Find(lines[0], ":");
      assert HasParts(line);
      [(line[..cut], line[cut + 2..])] + LinePairs(lines[1..])
  }

  lemma {:induction false} LinesArePairs(m: Pairs, lines: seq<string>)
    ensures PutLines(m, lines).Headers? <==> forall i | 0 <= i < |lines| :: HasParts(lines[i])
    ensures PutLines(m, lines).Headers? ==> PutLines(m, lines).fields == PutAll(m, LinePairs(lines))
    decreases |lines|
  {
    if lines != [] {
      var line, cut, rest := lines[0], Find(lines[0], ":"), lines[1..];
      assert lines == [line] + rest;
      if HasParts(line) {
        LinesArePairs(Put(m, line[..cut], line[cut + 2..]), rest);
        assert forall i | 0 <= i < |rest| :: rest[i] == lines[i + 1];
      }
    }
  }

  function LinesOf(s: string): seq<string>
    requires Find(s, BLANK) >= 0
  {
    BlankBehindLine(s);
    var e, b := Find(s, CRLF), Find(s, BLANK);
    if e == b then [] else SplitLines(s[e + 2..b])
  }

  /** The header map of a parsed request: of several lines with one name the last wins. */
  lemma LastLineWins(s: string)
    requires Parse(s).Good?
    ensures Find(s, BLANK) >= 0 && forall i | 0 <= i < |LinesOf(s)| :: HasParts(LinesOf(s)[i])
    ensures MapOf(Parse(s).req.headers) == MapOf(LinePairs(LinesOf(s)))
  {
    HeadersParsed(s);
    var lines := LinesOf(s);
    LinesArePairs([], lines);
    PutAllSorted([], LinePairs(lines));
    assert MapOf([]) + MapOf(LinePairs(lines)) == MapOf(LinePairs(lines));
  }

  lemma HeadersParsed(s: string)
    requires Parse(s).Good?
    ensures Find(s, BLANK) >= 0 && PutLines([], LinesOf(s)) == Headers(Parse(s).req.headers)
  {
    BlankBehindLine(s);
  }

  // ---- Parsing what was printed ----

  lemma {:induction false} WordLengthIs(w: string, rest: string)
    requires Word(w) && (rest == "" || rest[0] == ' ')
    ensures WordLength(w + rest) == |w|
    decreases |w|
  {
    assert (w + rest)[1..] == w[1..] + rest;
    if |w| == 1 {
      assert w[1..] + rest == rest;
    } else {
      NoCrlfSlice(w, 1, |w|);
      assert w[1..|w|] == w[1..];
      WordLengthIs(w[1..], rest);
    }
  }

  lemma FieldsOfWord(w: string, rest: string)
    requires Word(w) && (rest == "" || rest[0] == ' ')
    ensures Fields(w + rest) == [w] + Fields(rest)
  {
    var s := w + rest;
    WordLengthIs(w, rest);
    assert SkipSpaces(s) == s && s[..|w|] == w && s[|w|..] == rest;
  }

  lemma FieldsSkip(s: string)
    ensures Fields(" " + s) == Fields(s)
  {
    assert (" " + s)[1..] == s;
    assert SkipSpaces(" " + s) == SkipSpaces(s);
  }

  lemma LineTame(r: Req)
    requires Clean(r)
    ensures Tame(RequestLine(r)) && RequestLine(r) != "" && CString(RequestLine(r)) == RequestLine(r)
  {
    var s := RequestLine(r);
    NoCrlfJoin(r.method', " ");
    NoCrlfJoin(r.method' + " ", r.uri);
    NoCrlfJoin(r.method' + " " + r.uri, " ");
    NoCrlfJoin(r.method' + " " + r.uri + " ", r.version);
    FindFirst(s, "\0");
    if Find(s, "\0") >= 0 {
      assert s[Find(s, "\0")..][0] == s[Find(s, "\0")];
    }
  }

  lemma TwoFields(a: string, b: string)
    requires Word(a) && Word(b)
    ensures Fields(a + (" " + b)) == [a, b]
  {
    FieldsOfWord(a, " " + b);
    FieldsSkip(b);
    assert b == b + "";
    FieldsOfWord(b, "");
    assert Fields("") == [];
  }

  lemma LineFields(r: Req)
    requires Clean(r)
    ensures Fields(RequestLine(r)) == [r.method', r.uri, r.version]
  {
    var rest := r.uri + (" " + r.version);
    assert RequestLine(r) == r.method' + (" " + rest);
    FieldsOfWord(r.method', " " + rest);
    FieldsSkip(rest);
    TwoFields(r.uri, r.version);
  }

  function HeaderLines(l: Pairs): seq<string> {
    seq(|l|, i requires 0 <= i < |l| => HeaderLine(l[i]))
  }

  lemma HeaderLineClean(h: (string, string))
    requires CleanHeader(h)
    ensures NoCrlf(HeaderLine(h)) && HeaderLine(h) != "" && Find(HeaderLine(h), ":") == |h.0|
  {
    NoCrlfJoin(h.0, ": ");
    NoCrlfJoin(h.0 + ": ", h.1);
    var s := HeaderLine(h);
    FindFirst(h.0, ":");
    forall j | 0 <= j < |h.0| ensures !OccursAt(s, ":", j) {
      assert !OccursAt(h.0, ":", j);
      assert s[j..][0] == s[j] == h.0[j] == h.0[j..][0];
    }
    assert s[|h.0|..][0] == ':';
    FindIs(s, ":", |h.0|);
  }

  lemma {:induction false} PutPrinted(m: Pairs, l: Pairs)
    requires CleanHeaders(l)
    ensures PutLines(m, HeaderLines(l)) == Headers(PutAll(m, l))
    decreases |l|
  {
    if l != [] {
      var line := HeaderLine(l[0]);
      HeaderLineClean(l[0]);
      assert line[..|l[0].0|] == l[0].0 && line[|l[0].0| + 2..] == l[0].1;
      assert HeaderLines(l)[1..] == HeaderLines(l[1..]);
      PutPrinted(Put(m, l[0].0, l[0].1), l[1..]);
    }
  }

  lemma {:induction false} JoinHeaderText(l: Pairs)
    requires l != []
    ensures HeaderText(l) == JoinLines(HeaderLines(l)) + CRLF
    decreases |l|
  {
    var lines := HeaderLines(l);
    var init := l[..|l| - 1];
    if |l| == 1 {
      assert HeaderText(init) == "";
      assert lines == [HeaderLine(l[0])];
    } else {
      JoinHeaderText(init);
      assert lines == HeaderLines(init) + [HeaderLine(l[|l| - 1])];
      JoinSnoc(HeaderLines(init), HeaderLine(l[|l| - 1]));
    }
  }

  lemma {:induction false} JoinSnoc(lines: seq<string>, x: string)
    requires lines != []
    ensures JoinLines(lines + [x]) == JoinLines(lines) + CRLF + x
    decreases |lines|
  {
    if |lines| == 1 {
      assert (lines + [x])[1..] == [x];
    } else {
      assert (lines + [x])[1..] == lines[1..] + [x];
      JoinSnoc(lines[1..], x);
    }
  }

  /** The printed text is the request line and the header lines, a blank line and the body. */
  lemma PrintedLines(r: Req)
    ensures Print(r) == JoinLines([RequestLine(r)] + HeaderLines(r.headers)) + (BLANK + r.body)
    ensures r.headers != [] ==>
      JoinLines([RequestLine(r)] + HeaderLines(r.headers)) == RequestLine(r) + CRLF + JoinLines(HeaderLines(r.headers))
  {
    var lines := [RequestLine(r)] + HeaderLines(r.headers);
    assert lines[1..] == HeaderLines(r.headers);
    if r.headers != [] {
      JoinHeaderText(r.headers);
    }
  }

  lemma HeaderLinesClean(l: Pairs)
    requires CleanHeaders(l)
    ensures AllNoCrlf(HeaderLines(l)) && forall i | 0 <= i < |l| :: HeaderLines(l)[i] != ""
  {
    forall i | 0 <= i < |l| ensures HeaderLines(l)[i] != "" && Find(HeaderLines(l)[i], CRLF) < 0 {
      HeaderLineClean(l[i]);
      NoCrlfFind(HeaderLine(l[i]));
    }
  }

  lemma PrintedLineEnd(r: Req)
    requires Clean(r)
    ensures Find(Print(r), CRLF) == |RequestLine(r)|
  {
    LineTame(r);
    FindLineEnd(RequestLine(r), HeaderText(r.headers) + CRLF + r.body);
    assert Print(r) == RequestLine(r) + CRLF + (HeaderText(r.headers) + CRLF + r.body);
  }

  lemma PrintedBlank(r: Req)
    requires Clean(r)
    ensures Find(Print(r), BLANK) == |JoinLines([RequestLine(r)] + HeaderLines(r.headers))|
  {
    var all := [RequestLine(r)] + HeaderLines(r.headers);
    LineTame(r);
    NoCrlfFind(RequestLine(r));
    HeaderLinesClean(r.headers);
    FindBlankLine(all, r.body);
    PrintedLines(r);
  }

  lemma PrintedBody(r: Req)
    requires Clean(r)
    ensures 0 <= Find(Print(r), BLANK) && Find(Print(r), BLANK) + 4 <= |Print(r)|
    ensures Print(r)[Find(Print(r), BLANK) + 4..] == r.body
  {
    PrintedBlank(r);
    PrintedLines(r);
    var head := JoinLines([RequestLine(r)] + HeaderLines(r.headers));
    assert Print(r) == (head + BLANK) + r.body;
  }

  lemma PrintedHeaders(r: Req)
    requires Clean(r)
    ensures Find(Print(r), BLANK) >= 0 && HeaderBlock(Print(r)) == Headers(PutAll([], r.headers))
  {
    var line, hl := RequestLine(r), HeaderLines(r.headers);
    PrintedLineEnd(r);
    PrintedBlank(r);
    if r.headers == [] {
      assert [line] + hl == [line];
    } else {
      PrintedLines(r);
      SliceIs(Print(r), line + CRLF, JoinLines(hl), BLANK + r.body);
      HeaderLinesClean(r.headers);
      SplitJoin(hl);
      PutPrinted([], r.headers);
    }
  }

  lemma SliceIs(s: string, a: string, b: string, c: string)
    requires s == a + b + c
    ensures s[|a|..|a| + |b|] == b
  {
  }

  /** Printing a clean request and parsing the text gives its parts back, the headers put into a map. */
  lemma ParsePrinted(r: Req)
    requires Clean(r)
    ensures Parse(Print(r)) == Good(r.(headers := PutAll([], r.headers)))
  {
    LineTame(r);
    LineFields(r);
    PrintedLineEnd(r);
    PrintedBody(r);
    PrintedHeaders(r);
    assert Print(r)[..|RequestLine(r)|] == RequestLine(r);
  }

  /**
   Normal form: whatever parses can be printed and parsed again, and keeps method, uri, version, body
   and the sorted headers.
   */
  lemma NormalForm(s: string)
    requires Parse(s).Good?
    ensures Parse(Print(Parse(s).req)) == Parse(s)
  {
    var r := Parse(s).req;
    ParsedIsClean(s);
    ParsePrinted(r);
    assert [] + r.headers == r.headers;
    PutAllInOrder([], r.headers);
  }
}
