/** Which texts are requests: the form a text must have to be parsed, stated without the parser. */
module HttpGrammar {
  import opened Text
  import opened SortedMap
  import opened HttpRequest

  // ---- The form of a request ----

  predicate Blanks(s: string) {
    forall i | 0 <= i < |s| :: s[i] == ' '
  }

  /** The text is these words, with blanks in front of them, between them and behind them. */
  ghost predicate Spaced(s: string, words: seq<string>)
    decreases |words|
  {
    if words == [] then Blanks(s)
    else
      && words[0] != "" && NoChar(words[0], ' ')
      && exists x, rest :: Front(s, x, words[0], rest) && Spaced(rest, words[1..])
  }

  predicate Front(s: string, x: string, w: string, rest: string) {
    s == x + w + rest && Blanks(x) && (rest == "" || rest[0] == ' ')
  }

  /** The text up to the first NUL character. */
  predicate UpToNul(s: string, t: string) {
    t <= s && NoChar(t, '\0') && (t == s || s[|t|] == '\0')
  }

  /** The text is a line, more lines that are not empty, a blank line and a body. */
  ghost predicate Framed(s: string, line: string, lines: seq<string>, body: string) {
    && line != "" && NoCrlf(line) && (forall i | 0 <= i < |lines| :: lines[i] != "" && NoCrlf(lines[i]))
    && s == JoinLines([line] + lines) + (CRLF + CRLF + body)
  }

  /** A name without colons, a colon, any character, and the value. */
  ghost predicate HeaderParts(line: string, h: (string, string)) {
    NoChar(h.0, ':') && exists c: char :: line == h.0 + [':', c] + h.1
  }

  /** A line that ends at its first colon. */
  ghost predicate NoValueLine(line: string) {
    line != "" && line[|line| - 1] == ':' && NoChar(line[..|line| - 1], ':')
  }

  ghost predicate ThreeWords(line: string, r: Req) {
    exists t :: UpToNul(line, t) && Spaced(t, [r.method', r.uri, r.version])
  }

  ghost predicate PairsOf(lines: seq<string>, pairs: Pairs) {
    |pairs| == |lines| && forall i | 0 <= i < |lines| :: HeaderParts(lines[i], pairs[i])
  }

  ghost predicate RequestText(s: string, r: Req, line: string, lines: seq<string>, pairs: Pairs) {
    && Framed(s, line, lines, r.body) && ThreeWords(line, r) && PairsOf(lines, pairs)
    && Ascending(r.headers) && MapOf(r.headers) == MapOf(pairs)
  }

  // ---- Words ----

  lemma {:induction false} SkipFront(x: string, s: string)
    requires Blanks(x) && (s == "" || s[0] != ' ')
    ensures SkipSpaces(x + s) == s
  {
    if x == "" {
      assert x + s == s;
    } else {
      assert (x + s)[1..] == x[1..] + s;
      SkipFront(x[1..], s);
    }
  }

  lemma {:induction false} Skipped(s: string) returns (x: string)
    ensures Blanks(x) && s == x + SkipSpaces(s)
  {
    if s != "" && s[0] == ' ' {
      x := Skipped(s[1..]);
      x := [' '] + x;
    } else {
      x := "";
    }
  }

  lemma {:induction false} WordStops(w: string, rest: string)
    requires NoChar(w, ' ') && (rest == "" || rest[0] == ' ')
    ensures WordLength(w + rest) == |w|
  {
    if w == "" {
      assert w + rest == rest;
    } else {
      assert (w + rest)[1..] == w[1..] + rest;
      WordStops(w[1..], rest);
    }
  }

  lemma {:induction false} WordEnds(s: string)
    ensures NoChar(s[..WordLength(s)], ' ') && (s[WordLength(s)..] == "" || s[WordLength(s)..][0] == ' ')
  {
    if s != "" && s[0] != ' ' {
      WordEnds(s[1..]);
      assert s[..WordLength(s)] == [s[0]] + s[1..][..WordLength(s[1..])];
      assert s[WordLength(s)..] == s[1..][WordLength(s[1..])..];
    }
  }

  lemma FieldsFront(s: string, x: string, w: string, rest: string)
    requires Front(s, x, w, rest) && w != "" && NoChar(w, ' ')
    ensures Fields(s) == [w] + Fields(rest)
  {
    var t := w + rest;
    assert s == x + t;
    SkipFront(x, t);
    WordStops(w, rest);
    assert t[..|w|] == w && t[|w|..] == rest;
  }

  lemma FieldsStep(s: string, t: string, w: string, rest: string)
    requires t == SkipSpaces(s) && t != "" && w == t[..WordLength(t)] && rest == t[WordLength(t)..]
    ensures Fields(s) == [w] + Fields(rest)
  {
  }

  lemma FrontOf(s: string) returns (x: string, w: string, rest: string)
    requires Fields(s) != []
    ensures Front(s, x, w, rest) && w != "" && NoChar(w, ' ') && Fields(s) == [w] + Fields(rest)
  {
    x := Skipped(s);
    var t := SkipSpaces(s);
    WordEnds(t);
    var n := WordLength(t);
    w, rest := t[..n], t[n..];
    FieldsStep(s, t, w, rest);
    FrontParts(s, x, t, w, rest, n);
  }

  lemma FrontParts(s: string, x: string, t: string, w: string, rest: string, n: nat)
    requires s == x + t && Blanks(x) && n <= |t| && w == t[..n] && rest == t[n..] && (rest == "" || rest[0] == ' ')
    ensures Front(s, x, w, rest)
  {
    assert t == w + rest;
  }

  lemma {:induction false} BlanksHaveNoFields(s: string)
    ensures Blanks(s) <==> Fields(s) == []
  {
    var x := Skipped(s);
    if Blanks(s) {
      SkipFront(s, "");
      assert s + "" == s;
    }
  }

  /** The words that `strtok` delivers are those between the blanks. */
  lemma {:induction false} FieldsExactly(s: string, words: seq<string>)
    ensures Fields(s) == words <==> Spaced(s, words)
    decreases |words|
  {
    BlanksHaveNoFields(s);
    if words != [] {
      var more := words[1..];
      assert words == [words[0]] + more;
      if Fields(s) == words {
        var x, w, rest := FrontOf(s);
        FieldsExactly(rest, more);
        assert ([w] + Fields(rest))[1..] == Fields(rest);
        assert Front(s, x, words[0], rest) && Spaced(rest, more);
      }
      if Spaced(s, words) {
        var x, rest :| Front(s, x, words[0], rest) && Spaced(rest, more);
        FieldsFront(s, x, words[0], rest);
        FieldsExactly(rest, more);
      }
    }
  }

  lemma CStringExactly(s: string, t: string)
    ensures CString(s) == t <==> UpToNul(s, t)
  {
    assert "\0" == ['\0'];
    FindFirst(s, "\0");
    var i := Find(s, "\0");
    if i < 0 {
      NulFree(s, s);
    } else {
      NulFree(s, s[..i]);
      assert s[i..][0] == s[i];
    }
    if UpToNul(s, t) && t != s {
      assert s == t + ['\0'] + s[|t| + 1..];
      FindChar(s, t, '\0', s[|t| + 1..]);
    }
    if UpToNul(s, s) && t == s {
      NoCharFind(s, '\0');
    }
  }

  lemma NulFree(s: string, t: string)
    requires t <= s && (Find(s, "\0") < 0 || |t| <= Find(s, "\0"))
    ensures NoChar(t, '\0')
  {
    FindFirst(s, "\0");
    forall j | 0 <= j < |t| ensures t[j] != '\0' {
      assert !OccursAt(s, "\0", j);
      assert s[j..][0] == t[j];
    }
  }

  // ---- The frame ----

  lemma {:induction false} JoinSplit(s: string)
    ensures JoinLines(SplitLines(s)) == s
    decreases |s|
  {
    var cut := Find(s, CRLF);
    if cut >= 0 {
      BeforeLineEnd(s);
      var rest := s[cut + 2..];
      JoinSplit(rest);
      assert s == s[..cut] + CRLF + rest;
      assert SplitLines(s)[1..] == SplitLines(rest);
    }
  }

  lemma EmptyFirst(x: string, more: string, t: string)
    requires t == CRLF + (x + (BLANK + more)) && (x == "" || CRLF <= x)
    ensures Find(t, BLANK) == 0
  {
    assert t[2..] == x + (BLANK + more);
    assert t[..4] == BLANK;
  }

  lemma RestFrame(x: string, more: string, cut: nat, rest: string)
    requires cut + 2 <= |x| && x[cut..][..2] == CRLF && rest == x[cut + 2..]
    ensures x == x[..cut] + CRLF + rest
    ensures (CRLF + (x + more))[cut + 2..] == CRLF + (rest + more)
  {
  }

  /** Between a line end and the first blank line there is no empty line. */
  lemma {:induction false} NoEmptyLine(x: string, body: string, t: string)
    requires t == CRLF + (x + (BLANK + body)) && Find(t, BLANK) == |x| + 2
    ensures forall i | 0 <= i < |SplitLines(x)| :: SplitLines(x)[i] != ""
    decreases |x|
  {
    var cut := Find(x, CRLF);
    FindFirst(x, CRLF);
    if x == "" || CRLF <= x {
      EmptyFirst(x, body, t);
    } else if cut > 0 {
      var rest := x[cut + 2..];
      BeforeLineEnd(x);
      RestFrame(x, BLANK + body, cut, rest);
      var u := CRLF + (rest + (BLANK + body));
      FindBehind(t, u, BLANK, cut + 2);
      NoEmptyLine(rest, body, u);
      assert SplitLines(x) == [x[..cut]] + SplitLines(rest);
    }
  }

  /** Cutting a stretch in front of the first occurrence off. */
  lemma FindBehind(t: string, u: string, pat: string, d: nat)
    requires d <= |t| && t[d..] == u && Find(t, pat) >= d
    ensures Find(u, pat) == Find(t, pat) - d
  {
    var k := Find(t, pat) - d;
    FindFirst(t, pat);
    assert u[k..] == t[k + d..];
    forall j | 0 <= j < k ensures !OccursAt(u, pat, j) {
      assert u[j..] == t[j + d..];
      assert !OccursAt(t, pat, j + d);
    }
    FindIs(u, pat, k);
  }

  lemma BlankParts(s: string, b: nat)
    requires Find(s, BLANK) == b
    ensures b + 4 <= |s| && s == s[..b] + (BLANK + s[b + 4..])
  {
    FindFirst(s, BLANK);
    assert s[b..][..4] == BLANK;
    assert s[b..] == BLANK + s[b + 4..];
  }

  lemma CutParts(s: string, e: nat, b: nat, line: string, x: string, more: string)
    requires e + 2 <= b <= |s| && s[e..][..2] == CRLF && s == s[..b] + more
    requires line == s[..e] && x == s[e + 2..b]
    ensures s == line + CRLF + x + more && s[e..] == CRLF + (x + more)
  {
    assert s[e..] == CRLF + s[e + 2..];
    assert s[e + 2..] == x + more;
  }

  lemma FrameParts(s: string, e: nat, b: nat, line: string, x: string, more: string)
    requires Find(s, CRLF) == e && Find(s, BLANK) == b && e + 2 <= b
    requires line == s[..e] && x == s[e + 2..b] && b + 4 <= |s| && more == BLANK + s[b + 4..]
    ensures s == line + CRLF + x + more && s[e..] == CRLF + (x + more)
    ensures Find(s[e..], BLANK) == |x| + 2
  {
    BlankBehindLine(s);
    BeforeLineEnd(s);
    BlankParts(s, b);
    CutParts(s, e, b, line, x, more);
    FindBehind(s, s[e..], BLANK, e);
  }

  lemma JoinFront(line: string, lines: seq<string>)
    ensures JoinLines([line] + lines) == if lines == [] then line else line + CRLF + JoinLines(lines)
  {
    assert ([line] + lines)[1..] == lines;
  }

  lemma SplitFrame(x: string, body: string, t: string)
    requires t == CRLF + (x + (BLANK + body)) && Find(t, BLANK) == |x| + 2
    ensures JoinLines(SplitLines(x)) == x
    ensures forall i | 0 <= i < |SplitLines(x)| :: SplitLines(x)[i] != "" && NoCrlf(SplitLines(x)[i])
  {
    JoinSplit(x);
    NoEmptyLine(x, body, t);
    SplitClean(x);
    LinesAreClean(SplitLines(x));
  }

  /** A text with a first line and a blank line is framed, by what the parser cuts out of it. */
  lemma FrameOf(s: string, e: nat, b: nat)
    requires Find(s, CRLF) == e > 0 && Find(s, BLANK) == b
    ensures b + 4 <= |s| && Framed(s, s[..e], LinesOf(s), s[b + 4..])
  {
    BlankBehindLine(s);
    BeforeLineEnd(s);
    BlankParts(s, b);
    var line, body := s[..e], s[b + 4..];
    JoinFront(line, LinesOf(s));
    if e < b {
      var x := s[e + 2..b];
      FrameParts(s, e, b, line, x, BLANK + body);
      SplitFrame(x, body, s[e..]);
    }
  }

  lemma LinesAreClean(lines: seq<string>)
    ensures AllNoCrlf(lines) <==> forall i | 0 <= i < |lines| :: NoCrlf(lines[i])
  {
    forall i | 0 <= i < |lines| ensures NoCrlf(lines[i]) <==> Find(lines[i], CRLF) < 0 {
      NoCrlfFind(lines[i]);
    }
  }

  /** What the parser cuts out of a framed text. */
  lemma FrameIs(s: string, line: string, lines: seq<string>, body: string)
    requires Framed(s, line, lines, body)
    ensures Find(s, CRLF) == |line| && s[..|line|] == line
    ensures Find(s, BLANK) == |JoinLines([line] + lines)| && s[Find(s, BLANK) + 4..] == body
    ensures LinesOf(s) == lines
  {
    var all := [line] + lines;
    LinesAreClean(all);
    FindBlankLine(all, body);
    JoinFront(line, lines);
    var head, b := JoinLines(all), |JoinLines(all)|;
    var more := if lines == [] then CRLF + body else JoinLines(lines) + (BLANK + body);
    assert s == line + CRLF + more;
    FindLineEnd(line, more);
    assert s[b + 4..] == body;
    if lines != [] {
      assert s[|line| + 2..b] == JoinLines(lines);
      LinesAreClean(lines);
      SplitJoin(lines);
    }
  }

  /** What the parser makes of a framed text. */
  lemma ParseFramed(s: string, line: string, lines: seq<string>, body: string)
    requires Framed(s, line, lines, body)
    ensures Parse(s) ==
      var f := Fields(CString(line));
      if |f| != 3 then Refused
      else
        match PutLines([], lines)
        case Headers(m) => Good(Req(f[0], f[1], f[2], m, body))
        case BadHeader => Refused
        case NoValue => Thrown
  {
    FrameIs(s, line, lines, body);
    BlankBehindLine(s);
  }

  // ---- Header lines ----

  lemma PartsExactly(line: string, h: (string, string))
    ensures HeaderParts(line, h) <==>
            HasParts(line) && h == (line[..Find(line, ":")], line[Find(line, ":") + 2..])
  {
    assert ":" == [':'];
    FindFirst(line, ":");
    if HeaderParts(line, h) {
      var c: char :| line == h.0 + [':', c] + h.1;
      assert line == h.0 + [':'] + ([c] + h.1);
      FindChar(line, h.0, ':', [c] + h.1);
    }
    if HasParts(line) {
      var cut := Find(line, ":");
      assert line[cut..][0] == ':';
      NoColonBefore(line, cut);
      assert line == line[..cut] + [':', line[cut + 1]] + line[cut + 2..];
    }
  }

  lemma NoColonBefore(line: string, cut: nat)
    requires cut <= |line| && Find(line, ":") == cut
    ensures NoChar(line[..cut], ':')
  {
    FindFirst(line, ":");
    forall j | 0 <= j < cut ensures line[j] != ':' {
      assert !OccursAt(line, ":", j);
      assert line[j..][0] == line[j];
    }
  }

  lemma {:induction false} PairsExactly(lines: seq<string>, pairs: Pairs)
    ensures PairsOf(lines, pairs) <==>
            (forall i | 0 <= i < |lines| :: HasParts(lines[i])) && pairs == LinePairs(lines)
  {
    forall i | 0 <= i < |lines| && i < |pairs|
      ensures HeaderParts(lines[i], pairs[i]) <==>
        HasParts(lines[i]) && pairs[i] == (lines[i][..Find(lines[i], ":")], lines[i][Find(lines[i], ":") + 2..])
    {
      PartsExactly(lines[i], pairs[i]);
    }
    if forall i | 0 <= i < |lines| :: HasParts(lines[i]) {
      PairsAt(lines);
    }
  }

  lemma {:induction false} PairsAt(lines: seq<string>)
    requires forall i | 0 <= i < |lines| :: HasParts(lines[i])
    ensures |LinePairs(lines)| == |lines|
    ensures forall i | 0 <= i < |lines| ::
              && HasParts(lines[i])
              && LinePairs(lines)[i] == (lines[i][..Find(lines[i], ":")], lines[i][Find(lines[i], ":") + 2..])
  {
    if lines != [] {
      PairsAt(lines[1..]);
    }
  }

  // ---- Sorted maps ----

  /** A map has one list in ascending order. */
  lemma {:induction false} SortedUnique(a: Pairs, b: Pairs)
    requires Sorted(a) && Sorted(b) && MapOf(a) == MapOf(b)
    ensures a == b
  {
    if a == [] {
      if b != [] { FirstKey(b); }
    } else {
      FirstKey(a);
      FirstIsLeast(a, b);
      FirstIsLeast(b, a);
      LessTotal(a[0].0, b[0].0);
      SameTails(a, b);
      SortedUnique(a[1..], b[1..]);
      assert a == [a[0]] + a[1..] && b == [b[0]] + b[1..];
    }
  }

  lemma FirstKey(m: Pairs)
    requires m != []
    ensures m[0].0 in MapOf(m)
  {
    MapOfKeys(m);
  }

  lemma FirstIsLeast(a: Pairs, b: Pairs)
    requires Sorted(b) && a != [] && b != [] && MapOf(a) == MapOf(b)
    ensures a[0].0 == b[0].0 || Less(b[0].0, a[0].0)
  {
    MapOfKeys(a);
    MapOfKeys(b);
    assert a[0].0 in MapOf(a);
    var i :| 0 <= i < |b| && b[i].0 == a[0].0;
  }

  lemma TailMap(a: Pairs, m: map<string, string>, t: map<string, string>)
    requires Sorted(a) && a != [] && m == MapOf(a) && t == MapOf(a[1..])
    ensures a[0].0 in m && m[a[0].0] == a[0].1 && t == m - {a[0].0}
  {
    NotInTail(a);
    MapOfCons(a[0], a[1..]);
    assert a == [a[0]] + a[1..];
  }

  lemma SameTails(a: Pairs, b: Pairs)
    requires Sorted(a) && Sorted(b) && a != [] && b != [] && MapOf(a) == MapOf(b) && a[0].0 == b[0].0
    ensures a[0] == b[0] && MapOf(a[1..]) == MapOf(b[1..])
  {
    TailMap(a, MapOf(a), MapOf(a[1..]));
    TailMap(b, MapOf(b), MapOf(b[1..]));
  }

  // ---- Requests, exactly ----

  lemma WordsExactly(line: string, r: Req)
    ensures ThreeWords(line, r) <==> Fields(CString(line)) == [r.method', r.uri, r.version]
  {
    var words := [r.method', r.uri, r.version];
    if ThreeWords(line, r) {
      var t :| UpToNul(line, t) && Spaced(t, words);
      CStringExactly(line, t);
      FieldsExactly(t, words);
    }
    if Fields(CString(line)) == words {
      CStringExactly(line, CString(line));
      FieldsExactly(CString(line), words);
    }
  }

  lemma HeadersPut(lines: seq<string>, pairs: Pairs, m: Pairs)
    requires PairsOf(lines, pairs) && m == PutAll([], pairs)
    ensures PutLines([], lines) == Headers(m) && Sorted(m) && MapOf(m) == MapOf(pairs)
  {
    PairsExactly(lines, pairs);
    LinesArePairs([], lines);
    PutIntoNone(pairs, m);
  }

  lemma PutIntoNone(pairs: Pairs, m: Pairs)
    requires m == PutAll([], pairs)
    ensures Sorted(m) && MapOf(m) == MapOf(pairs)
  {
    PutAllSorted([], pairs);
    assert MapOf([]) + MapOf(pairs) == MapOf(pairs);
  }

  /** The header map, once the lines have parts. */
  lemma HeadersAre(lines: seq<string>, pairs: Pairs, headers: Pairs)
    requires PairsOf(lines, pairs)
    ensures PutLines([], lines) == Headers(headers) <==> Ascending(headers) && MapOf(headers) == MapOf(pairs)
  {
    var m := PutAll([], pairs);
    HeadersPut(lines, pairs, m);
    SortedExactly(headers);
    if Sorted(headers) && MapOf(headers) == MapOf(pairs) {
      SortedUnique(headers, m);
    }
  }

  lemma RequestTextParses(s: string, r: Req, line: string, lines: seq<string>, pairs: Pairs)
    requires RequestText(s, r, line, lines, pairs)
    ensures Parse(s) == Good(r)
  {
    ParseFramed(s, line, lines, r.body);
    WordsExactly(line, r);
    HeadersAre(lines, pairs, r.headers);
  }

  lemma ParsedIsRequestText(s: string, r: Req) returns (line: string, lines: seq<string>, pairs: Pairs)
    requires Parse(s) == Good(r)
    ensures RequestText(s, r, line, lines, pairs)
  {
    var e, b := Find(s, CRLF), Find(s, BLANK);
    NoFieldsInNothing();
    FrameOf(s, e, b);
    line, lines := s[..e], LinesOf(s);
    ParseFramed(s, line, lines, s[b + 4..]);
    WordsExactly(line, r);
    LinesArePairs([], lines);
    pairs := LinePairs(lines);
    PairsExactly(lines, pairs);
    HeadersAre(lines, pairs, r.headers);
  }

  lemma NoFieldsInNothing()
    ensures forall s | |s| == 0 :: Fields(CString(s)) == []
  {
    BlanksHaveNoFields("");
  }

  /**
   Requests, exactly: a text parses to `r` if and only if it is a line whose part up to a NUL holds the three words of
   `r` between blanks, nonempty lines with a name, a colon, a character and a value each, a blank line and the body
   of `r`, and the headers of `r` are the map of the lines in ascending order.
   */
  lemma RequestsExactly(s: string, r: Req)
    ensures Parse(s) == Good(r) <==> exists line, lines, pairs :: RequestText(s, r, line, lines, pairs)
  {
    if Parse(s) == Good(r) {
      var line, lines, pairs := ParsedIsRequestText(s, r);
    }
    if line, lines, pairs :| RequestText(s, r, line, lines, pairs) {
      RequestTextParses(s, r, line, lines, pairs);
    }
  }

  // ---- The exception ----

  ghost predicate IsHeader(line: string) {
    exists h :: HeaderParts(line, h)
  }

  /** The `k`-th header line ends at its first colon, and all lines before it have a value. */
  ghost predicate FirstWithoutValue(lines: seq<string>, k: nat) {
    k < |lines| && NoValueLine(lines[k]) && forall i | 0 <= i < k :: IsHeader(lines[i])
  }

  ghost predicate ThrowingText(s: string, line: string, lines: seq<string>, body: string, r: Req, k: nat) {
    Framed(s, line, lines, body) && ThreeWords(line, r) && FirstWithoutValue(lines, k)
  }

  lemma HeaderIsParts(line: string, cut: int)
    requires cut == Find(line, ":")
    ensures HasParts(line) <==> IsHeader(line)
  {
    if HasParts(line) {
      var h := (line[..cut], line[cut + 2..]);
      PartsExactly(line, h);
      assert HeaderParts(line, h);
    }
    if IsHeader(line) {
      var h :| HeaderParts(line, h);
      PartsExactly(line, h);
    }
  }

  lemma NoValueExactly(line: string)
    ensures NoValueLine(line) <==> Find(line, ":") >= 0 && !HasParts(line)
    ensures HasParts(line) <==> IsHeader(line)
  {
    assert ":" == [':'];
    FindFirst(line, ":");
    var cut := Find(line, ":");
    if NoValueLine(line) {
      var n := |line| - 1;
      assert line == line[..n] + [':'] + "";
      FindChar(line, line[..n], ':', "");
    }
    if cut >= 0 && !HasParts(line) {
      assert line[cut..][0] == ':';
      NoColonBefore(line, cut);
    }
    HeaderIsParts(line, cut);
  }

  lemma {:induction false} PutLinesThrows(m: Pairs, lines: seq<string>)
    ensures PutLines(m, lines).NoValue? <==> exists k: nat :: FirstWithoutValue(lines, k)
    decreases |lines|
  {
    if lines != [] {
      var line, rest, cut := lines[0], lines[1..], Find(lines[0], ":");
      NoValueExactly(line);
      if HasParts(line) {
        PutLinesThrows(Put(m, line[..cut], line[cut + 2..]), rest);
        ThrowsLater(lines, rest);
      } else {
        assert NoValueLine(line) ==> FirstWithoutValue(lines, 0);
        forall k: nat | FirstWithoutValue(lines, k) ensures k == 0 {
          assert IsHeader(lines[0]) <==> HasParts(lines[0]);
        }
      }
    }
  }

  lemma ThrowsLater(lines: seq<string>, rest: seq<string>)
    requires lines != [] && rest == lines[1..] && HasParts(lines[0])
    ensures (exists k: nat :: FirstWithoutValue(lines, k)) <==> exists k: nat :: FirstWithoutValue(rest, k)
  {
    NoValueExactly(lines[0]);
    if k: nat :| FirstWithoutValue(lines, k) {
      assert k > 0;
      var j := k - 1;
      forall i | 0 <= i < j ensures IsHeader(rest[i]) {
        assert rest[i] == lines[i + 1];
      }
      assert FirstWithoutValue(rest, j);
    }
    if j: nat :| FirstWithoutValue(rest, j) {
      var k := j + 1;
      forall i | 0 <= i < k ensures IsHeader(lines[i]) {
        if i > 0 {
          assert lines[i] == rest[i - 1];
        }
      }
      assert FirstWithoutValue(lines, k);
    }
  }

  lemma ThrownIsThrowing(s: string) returns (line: string, lines: seq<string>, body: string, r: Req, k: nat)
    requires Parse(s).Thrown?
    ensures ThrowingText(s, line, lines, body, r, k)
  {
    var e, b := Find(s, CRLF), Find(s, BLANK);
    NoFieldsInNothing();
    FrameOf(s, e, b);
    line, lines, body := s[..e], LinesOf(s), s[b + 4..];
    ParseFramed(s, line, lines, body);
    PutLinesThrows([], lines);
    k :| FirstWithoutValue(lines, k);
    var f := Fields(CString(line));
    r := Req(f[0], f[1], f[2], [], "");
    WordsExactly(line, r);
  }

  lemma ThrowingThrows(s: string, line: string, lines: seq<string>, body: string, r: Req, k: nat)
    requires ThrowingText(s, line, lines, body, r, k)
    ensures Parse(s).Thrown?
  {
    ParseFramed(s, line, lines, body);
    WordsExactly(line, r);
    PutLinesThrows([], lines);
  }

  /** The exception, exactly: the text is framed as a request, and the first faulty header line ends at its colon. */
  lemma ThrowsExactly(s: string)
    ensures Parse(s).Thrown? <==> exists line, lines, body, r, k: nat :: ThrowingText(s, line, lines, body, r, k)
  {
    if Parse(s).Thrown? {
      var line, lines, body, r, k := ThrownIsThrowing(s);
    }
    if line, lines, body, r, k: nat :| ThrowingText(s, line, lines, body, r, k) {
      ThrowingThrows(s, line, lines, body, r, k);
    }
  }
}
