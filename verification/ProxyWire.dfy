/**
 What the proxy reads from a backend: bytes that arrive in chunks, taken from a buffer with the
 operations of an input stream. The library's operations are functions on the state of the stream.
 */
module ProxyWire {
  import opened Wrappers
  import opened Decimals
  import opened Text
  import opened SortedMap
  import opened HttpRequest
  import opened HttpResponse

  /**
   The buffer, the chunks still to come, and the stream's state: `good` until the end of the buffer was
   met or an operation failed, `fail` once one failed.
   */
  datatype Wire = Wire(buf: string, incoming: seq<Chunk>, good: bool, fail: bool)

  /** What one receive delivers: at least one byte. */
  type Chunk = s: string | s != "" witness "x"

  function Concat(chunks: seq<Chunk>): string {
    if chunks == [] then "" else chunks[0] + Concat(chunks[1..])
  }

  /** Everything not yet taken. */
  function Rest(w: Wire): string {
    w.buf + Concat(w.incoming)
  }

  /** White space of the C locale. */
  predicate Space(c: char) {
    c in {' ', '\t', '\n', '\U{0B}', '\U{0C}', '\r'}
  }

  // ---- Library operations ----

  /** Receive chunks until the buffer holds `sep` or the connection is at its end. */
  function ReadUntil(w: Wire, sep: string): Wire
    decreases |w.incoming|
  {
    if Find(w.buf, sep) >= 0 || w.incoming == [] then w
    else ReadUntil(w.(buf := w.buf + w.incoming[0], incoming := w.incoming[1..]), sep)
  }

  function TrimLeft(s: string): (r: string)
    ensures |r| <= |s|
  {
    if s != "" && Space(s[0]) then TrimLeft(s[1..]) else s
  }

  function TrimRight(s: string): string {
    if s != "" && Space(s[|s| - 1]) then TrimRight(s[..|s| - 1]) else s
  }

  function Trim(s: string): string {
    TrimRight(TrimLeft(s))
  }

  /** The length of the longest prefix without white space. */
  function SolidLength(s: string): (n: nat)
    ensures n <= |s|
  {
    if s == "" || Space(s[0]) then 0 else 1 + SolidLength(s[1..])
  }

  function DigitsLength(s: string): (n: nat)
    ensures n <= |s| && forall i | 0 <= i < n :: IsDigit(s[i])
  {
    if s == "" || !IsDigit(s[0]) then 0 else 1 + DigitsLength(s[1..])
  }

  /** `stream >> word`. */
  function TakeWord(w: Wire): (Wire, string) {
    var t := TrimLeft(w.buf);
    if !w.good then (w.(fail := true), "")
    else if t == "" then (w.(buf := "", good := false, fail := true), "")
    else
      var n := SolidLength(t);
      (w.(buf := t[n..], good := n < |t|), t[..n])
  }

  const TWO_TO_THE_32: nat := 0x1_0000_0000

  /** The number at the start of a nonempty text: a sign and digits, 0 without digits, the largest if too large. */
  function NumberAt(w: Wire, t: string): (Wire, Option<nat>)
    requires t != ""
  {
    var sign := if t[0] in {'+', '-'} then 1 else 0;
    var n := DigitsLength(t[sign..]);
    var digits, rest := t[sign..][..n], t[sign..][n..];
    if n == 0 then (w.(buf := rest, good := false, fail := true), Some(0))
    else
      var v := NumberOf(digits);
      if v >= TWO_TO_THE_32 then (w.(buf := rest, good := false, fail := true), Some(TWO_TO_THE_32 - 1))
      else (w.(buf := rest, good := rest != ""), Some(if t[0] == '-' then (TWO_TO_THE_32 - v) % TWO_TO_THE_32 else v))
  }

  /** `stream >> number` for a 32-bit unsigned number; `None` where the number is not assigned. */
  function TakeNumber(w: Wire): (Wire, Option<nat>) {
    var t := TrimLeft(w.buf);
    if !w.good then (w.(fail := true), None)
    else if t == "" then (w.(buf := "", good := false, fail := true), None)
    else NumberAt(w, t)
  }

  /** `getline` up to a delimiter, which is taken but not part of the line. */
  function TakeLine(w: Wire, delim: char): (Wire, string) {
    var i := Find(w.buf, [delim]);
    if !w.good then (w.(fail := true), "")
    else if i < 0 then (w.(buf := "", good := false, fail := w.buf == ""), w.buf)
    else if i < |w.buf| then (w.(buf := w.buf[i + 1..]), w.buf[..i])
    else (w, "")
  }

  /** `ignore(1)`. */
  function SkipOne(w: Wire): Wire {
    if !w.good then w.(fail := true)
    else if w.buf == "" then w.(good := false)
    else w.(buf := w.buf[1..])
  }

  // ---- The proxy's reading ----

  /** The status line; no code if there is nothing to read a number from. */
  function TakeStatus(w: Wire): (Wire, Option<nat>) {
    var (w1, version) := TakeWord(ReadUntil(w, CRLF));
    var (w2, code) := TakeNumber(w1);
    var (w3, message) := TakeLine(w2, '\r');
    (SkipOne(w3), code)
  }

  /** `ReadNextHeader`: a line without a colon gives an empty name and value. */
  function NextHeader(w: Wire): (Wire, Option<(string, string)>) {
    var (w', line) := TakeLine(w, '\n');
    if w'.fail || line == "\r" then (w', None)
    else
      var colon := Find(line, ":");
      if 0 <= colon < |line| then (w', Some((line[..colon], Trim(line[colon + 1..])))) else (w', Some(("", "")))
  }

  lemma HeaderProgress(w: Wire)
    ensures NextHeader(w).1.Some? ==> |NextHeader(w).0.buf| < |w.buf| && NextHeader(w).0.incoming == w.incoming
  {
    FindFirst(w.buf, "\n");
  }

  /** All headers up to the blank line or the end of the buffer. */
  function TakeHeaders(w: Wire): (Wire, Pairs)
    decreases |w.buf|
  {
    HeaderProgress(w);
    match NextHeader(w)
    case (w', None) => (w', [])
    case (w', Some(h)) => var (w'', l) := TakeHeaders(w'); (w'', [h] + l)
  }

  /** One backend's answer: status code, headers in the order they were read, and what follows them. */
  datatype Answer = Answer(code: nat, headers: Pairs, rest: string)

  /** `unset` is what the variable for the code holds before it is read; it keeps that if no number is assigned. */
  function ReadAnswer(chunks: seq<Chunk>, unset: nat): Answer {
    var (w, code) := TakeStatus(Wire("", chunks, true, false));
    var (w', headers) := TakeHeaders(ReadUntil(w, BLANK));
    Answer(if code.Some? then code.value else unset, headers, Rest(w'))
  }

  // ---- Reading a printed response ----

  predicate Trimmed(s: string) {
    s == "" || (!Space(s[0]) && !Space(s[|s| - 1]))
  }

  ghost predicate ReadableHeader(h: (string, string)) {
    NoChar(h.0, ':') && NoChar(h.0, '\n') && NoChar(h.1, '\n') && Trimmed(h.1)
  }

  /** A response as handlers fill it: a table code and phrase, a sorted map of readable headers. */
  ghost predicate Readable(r: Resp) {
    && r.code < TWO_TO_THE_32 && NoChar(r.reason, '\r') && Sorted(r.fields)
    && forall i | 0 <= i < |r.fields| :: ReadableHeader(r.fields[i])
  }

  lemma {:induction false} ReadUntilRest(w: Wire, sep: string)
    ensures var r := ReadUntil(w, sep);
            && Rest(r) == Rest(w) && r.good == w.good && r.fail == w.fail
            && (Find(r.buf, sep) >= 0 || r.incoming == [])
    decreases |w.incoming|
  {
    if Find(w.buf, sep) < 0 && w.incoming != [] {
      var w' := w.(buf := w.buf + w.incoming[0], incoming := w.incoming[1..]);
      assert Rest(w') == Rest(w);
      ReadUntilRest(w', sep);
    }
  }

  lemma {:induction false} SolidIs(a: string, rest: string)
    requires (forall i | 0 <= i < |a| :: !Space(a[i])) && rest != "" && Space(rest[0])
    ensures SolidLength(a + rest) == |a|
  {
    if a == "" {
      assert a + rest == rest;
    } else {
      assert (a + rest)[1..] == a[1..] + rest;
      SolidIs(a[1..], rest);
    }
  }

  lemma {:induction false} DigitsAre(a: string, rest: string)
    requires (forall i | 0 <= i < |a| :: IsDigit(a[i])) && rest != "" && !IsDigit(rest[0])
    ensures DigitsLength(a + rest) == |a|
  {
    if a == "" {
      assert a + rest == rest;
    } else {
      assert (a + rest)[1..] == a[1..] + rest;
      DigitsAre(a[1..], rest);
    }
  }

  lemma {:induction false} DigitsRun(a: string, rest: string)
    requires (forall i | 0 <= i < |a| :: IsDigit(a[i])) && (rest == "" || !IsDigit(rest[0]))
    ensures DigitsLength(a + rest) == |a|
  {
    if a == "" {
      assert a + rest == rest;
    } else {
      assert (a + rest)[1..] == a[1..] + rest;
      DigitsRun(a[1..], rest);
    }
  }

  /**
   A number is a sign, which may be missing, and digits; it ends at the first character that is no digit. It is held in
   32 bits, the largest one instead if it is too large, and negated in them behind a minus sign.
   */
  lemma NumberValue(w: Wire, s: string, sign: nat, digits: string, rest: string)
    requires s != "" && sign == (if s[0] in {'+', '-'} then 1 else 0) && s[sign..] == digits + rest
    requires digits != "" && (forall i | 0 <= i < |digits| :: IsDigit(digits[i])) && (rest == "" || !IsDigit(rest[0]))
    ensures NumberAt(w, s).0.buf == rest
    ensures NumberAt(w, s).1 ==
            var v := NumberOf(digits);
            Some(if v >= 4294967296 then 4294967295 else if s[0] == '-' then (4294967296 - v) % 4294967296 else v)
  {
    DigitsRun(digits, rest);
    var t := s[sign..];
    assert t[..|digits|] == digits && t[|digits|..] == rest;
  }

  lemma TakePrintedVersion(w: Wire, rest: string)
    requires w.good && w.buf == "HTTP/1.1" + rest && rest != "" && Space(rest[0])
    ensures TakeWord(w) == (w.(buf := rest), "HTTP/1.1")
  {
    SolidIs("HTTP/1.1", rest);
    assert TrimLeft(w.buf) == w.buf;
  }

  lemma NumberPrinted(w: Wire, code: nat, rest: string)
    requires code < TWO_TO_THE_32 && rest != "" && !IsDigit(rest[0])
    ensures NumberAt(w, Decimal(code) + rest) == (w.(buf := rest, good := true), Some(code))
  {
    var digits := Decimal(code);
    var t := digits + rest;
    assert t[0] == digits[0] && IsDigit(t[0]);
    DigitsAre(digits, rest);
    DecimalNumber(code);
    assert t[0..] == t && t[..|digits|] == digits && t[|digits|..] == rest;
  }

  lemma TakePrintedCode(w: Wire, code: nat, rest: string)
    requires w.good && w.buf == " " + Decimal(code) + rest && code < TWO_TO_THE_32
    requires rest != "" && !IsDigit(rest[0])
    ensures TakeNumber(w) == (w.(buf := rest), Some(code))
  {
    var t := Decimal(code) + rest;
    assert w.buf[1..] == t && w.buf[0] == ' ' && IsDigit(Decimal(code)[0]);
    assert TrimLeft(w.buf) == TrimLeft(t) == t;
    NumberPrinted(w, code, rest);
  }

  lemma StatusParts(r: Resp, x: string)
    ensures StatusLine(r) + CRLF + x ==
            "HTTP/1.1" + (" " + Decimal(r.code) + (" " + r.reason + ['\r'] + (['\n'] + x)))
  {
  }

  /** The status line of a printed response is read completely, and its code is the one printed. */
  lemma TakePrintedStatus(w: Wire, r: Resp, x: string)
    requires w.good && !w.fail && w.buf == StatusLine(r) + CRLF + x
    requires r.code < TWO_TO_THE_32 && NoChar(r.reason, '\r')
    ensures var (w1, version) := TakeWord(w);
            var (w2, code) := TakeNumber(w1);
            var (w3, message) := TakeLine(w2, '\r');
            code == Some(r.code) && SkipOne(w3) == w.(buf := x)
  {
    var end := " " + r.reason + ['\r'] + (['\n'] + x);
    var tail := " " + Decimal(r.code) + end;
    StatusParts(r, x);
    TakePrintedVersion(w, tail);
    TakePrintedCode(w.(buf := tail), r.code, end);
    FindChar(end, " " + r.reason, '\r', ['\n'] + x);
    assert (['\n'] + x)[1..] == x;
  }

  /** A buffer in which the separator was found, or that holds everything, reaches behind it. */
  lemma BufferReaches(buf: string, more: string, pat: string)
    requires Find(buf + more, pat) >= 0 && (Find(buf, pat) >= 0 || more == "")
    ensures Find(buf + more, pat) + |pat| <= |buf|
  {
    var s := buf + more;
    FindFirst(s, pat);
    FindFirst(buf, pat);
    if more == "" {
      assert s == buf;
    } else {
      var p := Find(buf, pat);
      assert buf[p..] <= s[p..];
      assert OccursAt(s, pat, p);
    }
  }

  lemma StatusLineClean(r: Resp)
    requires NoChar(r.reason, '\r')
    ensures NoCrlf(StatusLine(r))
  {
    var a, b := "HTTP/1.1" + " ", Decimal(r.code);
    assert StatusLine(r) == a + b + (" " + r.reason);
    assert NoChar(a, '\r') && NoChar(b, '\r');
    NoCrlfJoin(a, b);
    NoCrlfJoin(a + b, " " + r.reason);
  }

  /** However the bytes of a printed response arrive, its status line is taken and the rest is left. */
  lemma StatusTaken(w: Wire, r: Resp, rest: string)
    requires w.good && !w.fail && Rest(w) == StatusLine(r) + CRLF + rest
    requires r.code < TWO_TO_THE_32 && NoChar(r.reason, '\r')
    ensures var (w', code) := TakeStatus(w);
            code == Some(r.code) && w'.good && !w'.fail && Rest(w') == rest
  {
    var line := StatusLine(r);
    var w0 := ReadUntil(w, CRLF);
    ReadUntilRest(w, CRLF);
    StatusLineClean(r);
    FindLineEnd(line, rest);
    BufferReaches(w0.buf, Concat(w0.incoming), CRLF);
    var x := w0.buf[|line| + 2..];
    CutFront(w0.buf, Concat(w0.incoming), line + CRLF, rest);
    TakePrintedStatus(w0, r, x);
  }

  lemma CutFront(buf: string, more: string, head: string, rest: string)
    requires buf + more == head + rest && |head| <= |buf|
    ensures buf == head + buf[|head|..] && buf[|head|..] + more == rest
  {
    var s := buf + more;
    assert buf == s[..|buf|];
    assert s[..|head|] == head && s[|head|..] == rest;
    assert buf[..|head|] == s[..|head|];
    assert s[|head|..] == buf[|head|..] + more;
  }

  // ---- Headers ----

  lemma {:induction false} HeaderTextCons(h: (string, string), l: Pairs)
    ensures HeaderText([h] + l) == HeaderLine(h) + CRLF + HeaderText(l)
    decreases |l|
  {
    if l == [] {
      assert [h] + l == [h] && [h][..0] == [];
      assert HeaderText([]) == "";
    } else {
      var init, x := l[..|l| - 1], l[|l| - 1];
      assert ([h] + l)[..|[h] + l| - 1] == [h] + init;
      HeaderTextCons(h, init);
    }
  }

  /** White space only. */
  predicate White(s: string) {
    forall i | 0 <= i < |s| :: s[i] in {' ', '\t', '\n', '\U{0B}', '\U{0C}', '\r'}
  }

  /** No white space at either end. */
  predicate Solid(s: string) {
    s == "" || (!White(s[..1]) && !White(s[|s| - 1..]))
  }

  lemma SolidEnds(s: string)
    ensures Solid(s) <==> s == "" || (!Space(s[0]) && !Space(s[|s| - 1]))
  {
  }

  lemma {:induction false} TrimLeftIs(a: string, s: string)
    requires White(a) && (s == "" || !Space(s[0]))
    ensures TrimLeft(a + s) == s
  {
    if a == "" {
      assert a + s == s;
    } else {
      assert (a + s)[1..] == a[1..] + s;
      TrimLeftIs(a[1..], s);
    }
  }

  lemma {:induction false} TrimRightIs(s: string, b: string)
    requires White(b) && (s == "" || !Space(s[|s| - 1]))
    ensures TrimRight(s + b) == s
    decreases |b|
  {
    if b == "" {
      assert s + b == s;
    } else {
      var n := |b| - 1;
      assert (s + b)[..|s + b| - 1] == s + b[..n];
      TrimRightIs(s, b[..n]);
    }
  }

  /** Trimming takes the white space off both ends and nothing else. */
  lemma TrimIs(a: string, s: string, b: string)
    requires White(a) && White(b) && Solid(s)
    ensures Trim(a + s + b) == s
  {
    SolidEnds(s);
    Append(a, s, b);
    if s == "" {
      assert s + b == b;
      TrimLeftIs(a + b, "");
      assert a + b + "" == a + b;
    } else {
      TrimLeftIs(a, s + b);
      TrimRightIs(s, b);
    }
  }

  /** A line with a colon: the name runs up to the first one, the value is trimmed. */
  lemma HeaderRead(w: Wire, name: string, a: string, value: string, b: string, rest: string)
    requires w.good && !w.fail && w.buf == name + ":" + (a + value + b) + "\n" + rest
    requires NoChar(name, ':') && NoChar(name, '\n') && NoChar(a + value + b, '\n')
    requires White(a) && White(b) && Solid(value)
    ensures NextHeader(w) == (w.(buf := rest), Some((name, value)))
  {
    var text := a + value + b;
    var line := name + ":" + text;
    assert w.buf == line + ['\n'] + rest;
    FindChar(w.buf, line, '\n', rest);
    assert ":" == [':'] && line == name + [':'] + text;
    FindChar(line, name, ':', text);
    assert line[|name|] == ':';
    TrimIs(a, value, b);
  }

  /** A line without a colon: the blank one ends the headers, any other is read as a header without name and value. */
  lemma NoColonRead(w: Wire, line: string, rest: string)
    requires w.good && !w.fail && w.buf == line + "\n" + rest && NoChar(line, '\n') && NoChar(line, ':')
    ensures NextHeader(w) == (w.(buf := rest), if line == "\r" then None else Some(("", "")))
  {
    assert w.buf == line + ['\n'] + rest;
    FindChar(w.buf, line, '\n', rest);
    NoCharFind(line, ':');
    assert ":" == [':'];
  }

  lemma TrimValue(v: string)
    requires Trimmed(v)
    ensures Trim(" " + v + "\r") == v
  {
    var s := " " + v + "\r";
    assert s[1..] == v + "\r";
    if v == "" {
      assert s[1..] == "\r" && "\r"[1..] == "";
      assert TrimLeft(s[1..]) == "" && TrimLeft(s) == "";
    } else {
      var t := v + "\r";
      assert s[0] == ' ' && TrimLeft(s) == TrimLeft(t) == t;
      assert t[|v|] == '\r' && t[..|v|] == v;
      assert TrimRight(t) == TrimRight(v) == v;
    }
  }

  lemma ColonOf(h: (string, string))
    requires NoChar(h.0, ':')
    ensures var line := HeaderLine(h) + "\r";
            Find(line, ":") == |h.0| && line[..|h.0|] == h.0 && line[|h.0| + 1..] == " " + h.1 + "\r"
  {
    var line := HeaderLine(h) + "\r";
    assert line == h.0 + [':'] + (" " + h.1 + "\r");
    assert ":" == [':'];
    FindChar(line, h.0, ':', " " + h.1 + "\r");
  }

  lemma NextPrintedHeader(w: Wire, h: (string, string), rest: string)
    requires w.good && !w.fail && w.buf == HeaderLine(h) + CRLF + rest && ReadableHeader(h)
    ensures NextHeader(w) == (w.(buf := rest), Some(h))
  {
    var line := HeaderLine(h) + "\r";
    assert w.buf == line + ['\n'] + rest;
    FindChar(w.buf, line, '\n', rest);
    assert line[|h.0|] == ':';
    assert line != "\r";
    ColonOf(h);
    TrimValue(h.1);
  }

  lemma BlankLineEndsHeaders(w: Wire, rest: string)
    requires w.good && !w.fail && w.buf == CRLF + rest
    ensures NextHeader(w) == (w.(buf := rest), None)
  {
    assert w.buf == "\r" + ['\n'] + rest;
    FindChar(w.buf, "\r", '\n', rest);
  }

  lemma {:induction false} HeadersTaken(w: Wire, l: Pairs, rest: string)
    requires w.good && !w.fail && w.buf == HeaderText(l) + CRLF + rest
    requires forall i | 0 <= i < |l| :: ReadableHeader(l[i])
    ensures TakeHeaders(w) == (w.(buf := rest), l)
    decreases |l|
  {
    if l == [] {
      assert w.buf == CRLF + rest;
      BlankLineEndsHeaders(w, rest);
    } else {
      var t := l[1..];
      assert l == [l[0]] + t;
      HeaderTextCons(l[0], t);
      var x := HeaderText(t) + CRLF + rest;
      assert w.buf == HeaderLine(l[0]) + CRLF + x;
      NextPrintedHeader(w, l[0], x);
      HeadersTaken(w.(buf := x), t, rest);
    }
  }

  lemma ReadableIsClean(l: Pairs)
    requires forall i | 0 <= i < |l| :: ReadableHeader(l[i])
    ensures CleanHeaders(l)
  {
    forall i | 0 <= i < |l| ensures CleanHeader(l[i]) {
      NoCharFind(l[i].0, ':');
    }
  }

  /** The buffer holds all headers once a blank line was found in it or everything has arrived. */
  lemma HeadersBuffered(w: Wire, l: Pairs, body: string)
    requires Rest(w) == HeaderText(l) + CRLF + body && (Find(w.buf, BLANK) >= 0 || w.incoming == [])
    requires forall i | 0 <= i < |l| :: ReadableHeader(l[i])
    ensures |HeaderText(l)| + 2 <= |w.buf|
  {
    if w.incoming == [] {
      assert Rest(w) == w.buf;
    } else if l == [] {
      FindFirst(w.buf, BLANK);
    } else {
      ReadableIsClean(l);
      HeaderLinesClean(l);
      JoinHeaderText(l);
      FindBlankLine(HeaderLines(l), body);
      assert Rest(w) == JoinLines(HeaderLines(l)) + (CRLF + CRLF + body);
      BufferReaches(w.buf, Concat(w.incoming), BLANK);
    }
  }

  /**
   A printed response, arriving in any chunks, is read as its status code, its headers in order and its
   body.
   */
  lemma ReadPrinted(chunks: seq<Chunk>, unset: nat, r: Resp)
    requires Readable(r) && Concat(chunks) == PrintResponse(r)
    ensures ReadAnswer(chunks, unset) == Answer(r.code, r.fields, r.body)
  {
    var w := Wire("", chunks, true, false);
    var rest := HeaderText(r.fields) + CRLF + r.body;
    assert Rest(w) == StatusLine(r) + CRLF + rest;
    StatusTaken(w, r, rest);
    var w1 := TakeStatus(w).0;
    var w2 := ReadUntil(w1, BLANK);
    ReadUntilRest(w1, BLANK);
    HeadersBuffered(w2, r.fields, r.body);
    var head := HeaderText(r.fields) + CRLF;
    CutFront(w2.buf, Concat(w2.incoming), head, r.body);
    HeadersTaken(w2, r.fields, w2.buf[|head|..]);
  }
}
