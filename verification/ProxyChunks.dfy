/**
 When what the proxy reads depends on how the bytes of a backend are cut into chunks, and when it finds no
 number in the status line.
 */
module ProxyChunks {
  import opened Wrappers
  import opened Decimals
  import opened Text
  import opened SortedMap
  import opened HttpRequest
  import opened ProxyWire

  // ---- The status code ----

  /** The text from its second word on. */
  function SecondWord(s: string): string {
    var t := TrimLeft(s); TrimLeft(t[SolidLength(t)..])
  }

  /** The status line as it is read from the buffer. */
  function TakeStatusLine(w: Wire): (Wire, Option<nat>) {
    var (w1, version) := TakeWord(w);
    var (w2, code) := TakeNumber(w1);
    var (w3, message) := TakeLine(w2, '\r');
    (SkipOne(w3), code)
  }

  /**
   No number is read exactly if the buffer holds no second word; it is then used up, and the stream fails. Else
   the number is the one at the start of that word, which is 0 if there are no digits.
   */
  lemma NumberExactly(w: Wire)
    requires w.good
    ensures TakeStatusLine(w).1.None? <==> SecondWord(w.buf) == ""
    ensures SecondWord(w.buf) == "" ==> TakeStatusLine(w).0 == w.(buf := "", good := false, fail := true)
    ensures SecondWord(w.buf) != "" ==> TakeStatusLine(w).1 == NumberAt(w, SecondWord(w.buf)).1
  {
    var t := TrimLeft(w.buf);
    assert t == "" ==> t[SolidLength(t)..] == "";
  }

  predicate AllSpace(s: string) {
    forall i | 0 <= i < |s| :: Space(s[i])
  }

  lemma {:induction false} TrimKeeps(s: string) returns (lead: string)
    ensures s == lead + TrimLeft(s) && AllSpace(lead) && (TrimLeft(s) != "" ==> !Space(TrimLeft(s)[0]))
  {
    lead := "";
    if s != "" && Space(s[0]) {
      var l := TrimKeeps(s[1..]);
      lead := [s[0]] + l;
      assert s == [s[0]] + s[1..];
    }
  }

  lemma {:induction false} SolidPrefix(s: string)
    ensures var n := SolidLength(s);
            (forall i | 0 <= i < n :: !Space(s[i])) && (n < |s| ==> Space(s[n]))
  {
    if s != "" && !Space(s[0]) {
      SolidPrefix(s[1..]);
    }
  }

  /** White space at `j`, and characters that are none on both sides of it. */
  ghost predicate TwoWords(s: string, i: int, j: int, k: int) {
    0 <= i < j < k < |s| && !Space(s[i]) && Space(s[j]) && !Space(s[k])
  }

  /** The first word is at `a..b`, and the second one starts at `m`. */
  ghost predicate WordsAt(s: string, a: int, b: int, m: int) {
    && 0 <= a <= b <= m <= |s| && (a == b ==> m == |s|) && (m < |s| ==> b < m && !Space(s[m]))
    && (forall i | 0 <= i < a :: Space(s[i])) && (forall i | a <= i < b :: !Space(s[i]))
    && (forall i | b <= i < m :: Space(s[i]))
  }

  lemma WordsJoined(lead: string, word: string, gap: string, rest: string)
    requires AllSpace(lead) && AllSpace(gap) && forall i | 0 <= i < |word| :: !Space(word[i])
    requires (word == "" ==> rest == "") && (rest != "" ==> gap != "" && !Space(rest[0]))
    ensures WordsAt(lead + (word + (gap + rest)), |lead|, |lead + word|, |lead + word + gap|)
  {
  }

  lemma FirstWord(t: string) returns (word: string, behind: string)
    requires t != "" ==> !Space(t[0])
    ensures t == word + behind && behind == t[SolidLength(t)..] && forall i | 0 <= i < |word| :: !Space(word[i])
    ensures (word == "" ==> behind == "") && (behind != "" ==> Space(behind[0]))
  {
    var n := SolidLength(t);
    SolidPrefix(t);
    word, behind := t[..n], t[n..];
  }

  lemma WordPlaces(s: string) returns (a: nat, b: nat, m: nat)
    ensures WordsAt(s, a, b, m) && (SecondWord(s) == "" <==> m == |s|)
  {
    var lead := TrimKeeps(s);
    var word, behind := FirstWord(TrimLeft(s));
    var gap := TrimKeeps(behind);
    var rest := TrimLeft(behind);
    GapBehind(behind, gap, rest);
    WordsJoined(lead, word, gap, rest);
    a, b, m := |lead|, |lead + word|, |lead + word + gap|;
  }

  lemma GapBehind(behind: string, gap: string, rest: string)
    requires behind == gap + rest && (behind != "" ==> Space(behind[0])) && (rest != "" ==> !Space(rest[0]))
    ensures rest != "" ==> gap != ""
  {
    assert gap == "" ==> behind == rest;
  }

  /** There is a second word exactly if white space lies between two characters that are none. */
  lemma SecondWordExactly(s: string)
    ensures SecondWord(s) != "" <==> exists i, j, k :: TwoWords(s, i, j, k)
  {
    var a, b, m := WordPlaces(s);
    if m < |s| {
      assert TwoWords(s, a, b, m);
    }
  }

  /**
   The code stays what the variable held exactly if, in what is buffered once a line end has arrived, no white
   space lies between two characters that are none.
   */
  lemma UnsetExactly(chunks: seq<Chunk>)
    ensures var w := Wire("", chunks, true, false);
            TakeStatus(w).1.None? <==> !exists i, j, k :: TwoWords(ReadUntil(w, CRLF).buf, i, j, k)
  {
    var w := Wire("", chunks, true, false);
    ReadUntilRest(w, CRLF);
    NumberExactly(ReadUntil(w, CRLF));
    SecondWordExactly(ReadUntil(w, CRLF).buf);
  }

  // ---- Longer buffers ----

  lemma {:induction false} TrimMore(s: string, x: string)
    ensures TrimLeft(s + x) == if TrimLeft(s) == "" then TrimLeft(x) else TrimLeft(s) + x
  {
    if s == "" {
      assert s + x == x;
    } else if Space(s[0]) {
      assert (s + x)[1..] == s[1..] + x;
      TrimMore(s[1..], x);
    }
  }

  lemma {:induction false} SolidMore(s: string, x: string)
    requires SolidLength(s) < |s|
    ensures SolidLength(s + x) == SolidLength(s)
  {
    if !Space(s[0]) {
      assert (s + x)[1..] == s[1..] + x;
      SolidMore(s[1..], x);
    }
  }

  lemma {:induction false} DigitsMore(s: string, x: string)
    requires DigitsLength(s) < |s|
    ensures DigitsLength(s + x) == DigitsLength(s)
  {
    if IsDigit(s[0]) {
      assert (s + x)[1..] == s[1..] + x;
      DigitsMore(s[1..], x);
    }
  }

  lemma {:induction false} DigitsStop(s: string, x: string)
    requires x != "" && !IsDigit(x[0])
    ensures DigitsLength(s + x) <= |s|
  {
    if s == "" {
      assert s + x == x;
    } else if IsDigit(s[0]) {
      assert (s + x)[1..] == s[1..] + x;
      DigitsStop(s[1..], x);
    }
  }

  /** The first occurrence stays the first. */
  lemma OccursMore(s: string, pat: string, x: string, j: nat)
    requires j + |pat| <= |s|
    ensures OccursAt(s, pat, j) <==> OccursAt(s + x, pat, j)
  {
    assert (s + x)[j..] == s[j..] + x;
    assert pat <= s[j..] + x ==> pat == (s[j..] + x)[..|pat|] == s[j..][..|pat|];
  }

  lemma FindMore(s: string, pat: string, x: string)
    requires Find(s, pat) >= 0
    ensures Find(s + x, pat) == Find(s, pat) && Find(s, pat) + |pat| <= |s|
  {
    var r := Find(s, pat);
    FindFirst(s, pat);
    OccursMore(s, pat, x, r);
    forall j | 0 <= j < r ensures !OccursAt(s + x, pat, j) {
      OccursMore(s, pat, x, j);
    }
    FindIs(s + x, pat, r);
  }

  /** The stream with everything that is still to come in its buffer. */
  function Whole(w: Wire): Wire {
    w.(buf := Rest(w), incoming := [])
  }

  function WholeOf<T>(r: (Wire, T)): (Wire, T) {
    (Whole(r.0), r.1)
  }

  lemma WordMore(w: Wire)
    requires w.good && TrimLeft(w.buf) != "" && SolidLength(TrimLeft(w.buf)) < |TrimLeft(w.buf)|
    ensures TakeWord(Whole(w)) == WholeOf(TakeWord(w)) && TakeWord(w).0.good
  {
    var x := Concat(w.incoming);
    var t := TrimLeft(w.buf);
    var n := SolidLength(t);
    TrimMore(w.buf, x);
    SolidMore(t, x);
    assert (t + x)[n..] == t[n..] + x && (t + x)[..n] == t[..n];
  }

  function Sign(t: string): nat
    requires t != ""
  {
    if t[0] in {'+', '-'} then 1 else 0
  }

  lemma NumberAtMore(w: Wire, t: string)
    requires t != "" && DigitsLength(t[Sign(t)..]) < |t| - Sign(t)
    ensures NumberAt(Whole(w), t + Concat(w.incoming)) == WholeOf(NumberAt(w, t))
  {
    var x := Concat(w.incoming);
    var u := t[Sign(t)..];
    var n := DigitsLength(u);
    assert (t + x)[0] == t[0] && (t + x)[Sign(t)..] == u + x;
    DigitsMore(u, x);
    assert (u + x)[..n] == u[..n] && (u + x)[n..] == u[n..] + x;
  }

  lemma NumberMore(w: Wire)
    requires w.good && TrimLeft(w.buf) != ""
    requires var t := TrimLeft(w.buf); DigitsLength(t[Sign(t)..]) < |t| - Sign(t)
    ensures TakeNumber(Whole(w)) == WholeOf(TakeNumber(w))
  {
    var x := Concat(w.incoming);
    TrimMore(w.buf, x);
    NumberAtMore(w, TrimLeft(w.buf));
  }

  lemma LineMore(w: Wire, c: char)
    requires w.good ==> Find(w.buf, [c]) >= 0
    ensures TakeLine(Whole(w), c) == WholeOf(TakeLine(w, c))
    ensures TakeLine(w, c).0.good == w.good && TakeLine(w, c).0.fail == (w.fail || !w.good)
  {
    var x := Concat(w.incoming);
    if w.good {
      var i := Find(w.buf, [c]);
      FindMore(w.buf, [c], x);
      assert (w.buf + x)[i + 1..] == w.buf[i + 1..] + x && (w.buf + x)[..i] == w.buf[..i];
    }
  }

  lemma SkipMore(w: Wire)
    requires w.good ==> w.buf != ""
    ensures SkipOne(Whole(w)) == Whole(SkipOne(w))
  {
    var x := Concat(w.incoming);
    if w.good {
      assert (w.buf + x)[1..] == w.buf[1..] + x;
    }
  }

  // ---- The status line, however it arrives ----

  /** With a second word in its first line, the buffer can be longer: nothing behind the line is looked at. */
  lemma StatusMore(w: Wire, line: string, y: string)
    requires w.good && w.buf == line + (CRLF + y) && SecondWord(line) != ""
    ensures TakeStatusLine(Whole(w)) == WholeOf(TakeStatusLine(w))
  {
    var end := CRLF + y;
    var behind := WordLeft(w, line, end);
    NumberLine(TakeWord(w).0, behind, end);
    var w2 := TakeNumber(TakeWord(w).0).0;
    LineMore(w2, '\r');
    SkipMore(TakeLine(w2, '\r').0);
  }

  /** Behind the first word the line goes on with white space and the second one. */
  lemma WordLeft(w: Wire, line: string, end: string) returns (behind: string)
    requires w.good && w.buf == line + end && SecondWord(line) != ""
    ensures TakeWord(Whole(w)) == WholeOf(TakeWord(w))
    ensures TakeWord(w).0 == w.(buf := behind + end) && TrimLeft(behind) != ""
  {
    var lt := TrimLeft(line);
    var n := SolidLength(lt);
    behind := lt[n..];
    TrimMore(line, end);
    SolidMore(lt, end);
    assert (lt + end)[n..] == behind + end;
    WordMore(w);
  }

  /** The number ends inside the line. */
  lemma NumberEnds(u: string, end: string)
    requires u != "" && CRLF <= end
    ensures (u + end)[0] == u[0] && Sign(u + end) == Sign(u)
    ensures var n := DigitsLength((u + end)[Sign(u)..]);
            n <= |u| - Sign(u) && (u + end)[Sign(u)..][n..] == u[Sign(u)..][n..] + end
  {
    var v := u[Sign(u)..];
    assert (u + end)[Sign(u)..] == v + end;
    DigitsStop(v, end);
    var n := DigitsLength(v + end);
    assert (v + end)[n..] == v[n..] + end;
  }

  lemma NumberBuffer(w: Wire, t: string)
    requires t != ""
    ensures NumberAt(w, t).0.buf == t[Sign(t)..][DigitsLength(t[Sign(t)..])..]
  {
  }

  /** A line end and a character behind the number are left in the buffer. */
  lemma NumberLine(w: Wire, text: string, end: string)
    requires w.good && w.buf == text + end && TrimLeft(text) != "" && CRLF <= end
    ensures TakeNumber(Whole(w)) == WholeOf(TakeNumber(w))
    ensures var r := TakeNumber(w).0;
            Find(r.buf, ['\r']) >= 0 && (r.good ==> TakeLine(r, '\r').0.good && TakeLine(r, '\r').0.buf != "")
  {
    var u := TrimLeft(text);
    TrimMore(text, end);
    NumberEnds(u, end);
    NumberMore(w);
    NumberBuffer(w, u + end);
    var n := DigitsLength((u + end)[Sign(u)..]);
    ReturnAhead(u[Sign(u)..][n..], end);
  }

  lemma ReturnAhead(a: string, end: string)
    requires CRLF <= end
    ensures var i := Find(a + end, ['\r']); 0 <= i <= |a| && i + 1 < |a + end|
  {
    var s := a + end;
    FindFirst(s, ['\r']);
    assert s[|a|..] == end && OccursAt(s, ['\r'], |a|);
  }

  // ---- The headers, however they arrive ----

  /** The headers in the buffer end there. */
  predicate EndsHere(s: string) {
    CRLF <= s || Find(s, BLANK) >= 0
  }

  lemma EndsLater(s: string)
    requires Find(s, BLANK) >= 0 && !(CRLF <= s)
    ensures var i := Find(s, ['\n']); 0 <= i < |s| && EndsHere(s[i + 1..])
  {
    var q, i := Find(s, BLANK), Find(s, ['\n']);
    FindFirst(s, BLANK);
    BlankNeedsLineEnd(s, q);
    CrlfAt(s, q);
    CrlfAt(s, q + 2);
    FeedBefore(s, q + 1);
    var k := i + 1;
    if i == q + 1 {
      LineEndAt(s, k);
    } else {
      BlankLater(s, q, k);
    }
  }

  lemma FeedBefore(s: string, k: nat)
    requires k < |s| && s[k] == '\n'
    ensures 0 <= Find(s, ['\n']) <= k && s[Find(s, ['\n'])] == '\n'
  {
    FindFirst(s, ['\n']);
    assert s[k..][0] == '\n' && OccursAt(s, ['\n'], k);
    var i := Find(s, ['\n']);
    assert s[i..][0] == s[i];
  }

  lemma LineEndAt(s: string, k: nat)
    requires k + 1 < |s| && s[k] == '\r' && s[k + 1] == '\n'
    ensures CRLF <= s[k..]
  {
    assert s[k..][0] == '\r' && s[k..][1] == '\n';
  }

  lemma BlankLater(s: string, q: nat, k: nat)
    requires OccursAt(s, BLANK, q) && k <= q
    ensures Find(s[k..], BLANK) >= 0
  {
    var t, j := s[k..], q - k;
    assert t[j..] == s[q..];
    assert OccursAt(t, BLANK, j);
    FindFirst(t, BLANK);
  }

  lemma HeaderMore(w: Wire)
    requires w.good && EndsHere(w.buf)
    ensures NextHeader(Whole(w)) == WholeOf(NextHeader(w))
    ensures NextHeader(w).1.Some? ==> NextHeader(w).0.good && EndsHere(NextHeader(w).0.buf)
  {
    if CRLF <= w.buf {
      FirstLineBlank(w.buf);
    } else {
      EndsLater(w.buf);
    }
    LineMore(w, '\n');
  }

  lemma FirstLineBlank(s: string)
    requires CRLF <= s
    ensures Find(s, ['\n']) == 1 && s[..1] == "\r"
  {
    FindChar(s, "\r", '\n', s[2..]);
  }

  lemma {:induction false} HeadersMore(w: Wire)
    requires w.good && EndsHere(w.buf)
    ensures TakeHeaders(Whole(w)) == WholeOf(TakeHeaders(w))
    decreases |w.buf|
  {
    HeaderProgress(w);
    HeaderMore(w);
    var (v, h) := NextHeader(w);
    if h.Some? {
      HeadersMore(v);
    }
  }

  /** Whatever is buffered, the headers and what is left behind them are those of the whole text. */
  lemma HeadersWhole(w: Wire)
    ensures var (v, l) := TakeHeaders(ReadUntil(w, BLANK));
            var (v', l') := TakeHeaders(Whole(w));
            l == l' && Rest(v) == Rest(v')
  {
    var r := ReadUntil(w, BLANK);
    ReadUntilRest(w, BLANK);
    assert Whole(r) == Whole(w);
    if r.incoming == [] {
      assert Whole(r) == r;
    } else if w.good {
      HeadersMore(r);
      WholeRest(TakeHeaders(r).0);
    }
  }

  lemma WholeRest(w: Wire)
    ensures Rest(Whole(w)) == Rest(w)
  {
    assert Rest(w) + "" == Rest(w);
  }

  // ---- Which texts read the same in all chunks ----

  /** There is no line end, or nothing behind the first one, or a second word in front of it. */
  predicate Steady(all: string) {
    var e := Find(all, CRLF);
    e < 0 || e + 2 >= |all| || SecondWord(all[..e]) != ""
  }

  function Opened(chunks: seq<Chunk>): Wire {
    Wire("", chunks, true, false)
  }

  lemma ConcatNothing(chunks: seq<Chunk>)
    requires Concat(chunks) == ""
    ensures chunks == []
  {
  }

  /** What arrives until the first line end holds it, or is everything. */
  lemma FirstRead(chunks: seq<Chunk>)
    ensures var w, all := ReadUntil(Opened(chunks), CRLF), Concat(chunks);
            && Rest(w) == all && w.good && !w.fail
            && (w.incoming != [] ==> 0 <= Find(all, CRLF) == Find(w.buf, CRLF) && Find(all, CRLF) + 2 < |all|)
  {
    var w, all := ReadUntil(Opened(chunks), CRLF), Concat(chunks);
    assert Rest(Opened(chunks)) == all;
    ReadUntilRest(Opened(chunks), CRLF);
    if w.incoming != [] {
      FindMore(w.buf, CRLF, Concat(w.incoming));
      if Concat(w.incoming) == "" {
        ConcatNothing(w.incoming);
      }
    }
  }

  /** The stream reads the status line of a steady text as if the text had arrived as a whole. */
  lemma StatusWhole(chunks: seq<Chunk>)
    requires Steady(Concat(chunks))
    ensures var w := ReadUntil(Opened(chunks), CRLF);
            TakeStatusLine(Whole(w)) == WholeOf(TakeStatusLine(w))
  {
    var w := ReadUntil(Opened(chunks), CRLF);
    FirstRead(chunks);
    if w.incoming == [] {
      StatusAlone(w);
    } else {
      var e := Find(w.buf, CRLF);
      FirstLine(w.buf, Concat(w.incoming));
      StatusMore(w, w.buf[..e], w.buf[e + 2..]);
    }
  }

  lemma FirstLine(buf: string, more: string)
    requires Find(buf, CRLF) >= 0
    ensures var e := Find(buf, CRLF);
            e + 2 <= |buf| && buf == buf[..e] + (CRLF + buf[e + 2..]) && (buf + more)[..e] == buf[..e]
  {
    BeforeLineEnd(buf);
    CutAt(buf, Find(buf, CRLF), CRLF);
    SameFront(buf, more, Find(buf, CRLF));
  }

  lemma CutAt(s: string, e: nat, pat: string)
    requires e + |pat| <= |s| && s[e..][..|pat|] == pat
    ensures s == s[..e] + (pat + s[e + |pat|..])
  {
    assert s[e..] == s[e..][..|pat|] + s[e + |pat|..];
  }

  lemma SameFront(s: string, more: string, e: nat)
    requires e <= |s|
    ensures (s + more)[..e] == s[..e]
  {
  }

  /** Without more to come the operations have nothing to add. */
  lemma StatusAlone(w: Wire)
    requires w.incoming == []
    ensures Whole(w) == w && WholeOf(TakeStatusLine(w)) == TakeStatusLine(w)
  {
    WholeAlready(w);
    StatusKeeps(w);
    WholeAlready(TakeStatusLine(w).0);
  }

  lemma WholeAlready(w: Wire)
    requires w.incoming == []
    ensures Whole(w) == w
  {
    assert w.buf + "" == w.buf;
  }

  /** The operations only take from the buffer. */
  lemma StatusKeeps(w: Wire)
    ensures TakeStatusLine(w).0.incoming == w.incoming
  {
    var w1 := TakeWord(w).0;
    assert w1.incoming == w.incoming;
    var w2 := TakeNumber(w1).0;
    assert w2.incoming == w.incoming;
    var w3 := TakeLine(w2, '\r').0;
    assert w3.incoming == w.incoming;
  }

  /** The answer read from a text that has arrived as a whole. */
  function WholeAnswer(all: string, unset: nat): Answer {
    var (w, code) := TakeStatusLine(Wire(all, [], true, false));
    var (w', headers) := TakeHeaders(w);
    Answer(if code.Some? then code.value else unset, headers, Rest(w'))
  }

  lemma SteadyAnswer(chunks: seq<Chunk>, unset: nat)
    requires Steady(Concat(chunks))
    ensures ReadAnswer(chunks, unset) == WholeAnswer(Concat(chunks), unset)
  {
    var w := ReadUntil(Opened(chunks), CRLF);
    FirstRead(chunks);
    StatusWhole(chunks);
    HeadersWhole(TakeStatusLine(w).0);
    assert Whole(w) == Wire(Concat(chunks), [], true, false);
  }

  // ---- The other texts ----

  lemma SecondWordBehind(line: string)
    requires SecondWord(line) == ""
    ensures SecondWord(line + CRLF) == ""
  {
    var t := TrimLeft(line);
    var n := SolidLength(t);
    TrimMore(line, CRLF);
    assert TrimLeft(CRLF) == "" by {
      assert CRLF[1..] == "\n" && "\n"[1..] == "";
    }
    if t != "" {
      if n == |t| {
        SolidPrefix(t);
        SolidIs(t, CRLF);
      } else {
        SolidMore(t, CRLF);
      }
      assert (t + CRLF)[n..] == t[n..] + CRLF;
      TrimMore(t[n..], CRLF);
    }
  }

  /** A stream that has failed has no headers, and leaves what is still to come. */
  lemma FailedHeaders(w: Wire)
    requires !w.good && w.buf == ""
    ensures var (v, l) := TakeHeaders(ReadUntil(w, BLANK)); l == [] && Rest(v) == Concat(w.incoming)
  {
    ReadUntilRest(w, BLANK);
  }

  /** Cut behind its first line end, such a text leaves the code unset and everything else to the body. */
  lemma CutAnswer(line: string, rest: Chunk, unset: nat)
    requires Find(line + CRLF, CRLF) >= 0 && SecondWord(line) == ""
    ensures ReadAnswer([line + CRLF, rest], unset) == Answer(unset, [], rest)
  {
    var first: Chunk := line + CRLF;
    var w := Wire(first, [rest], true, false);
    OneChunkRead(first, [rest]);
    SecondWordBehind(line);
    NumberExactly(w);
    FailedHeaders(TakeStatusLine(w).0);
    assert Concat([rest]) == rest + "";
  }

  lemma OneChunkRead(first: Chunk, more: seq<Chunk>)
    requires Find(first, CRLF) >= 0
    ensures ReadUntil(Opened([first] + more), CRLF) == Wire(first, more, true, false)
  {
    assert ([first] + more)[1..] == more && "" + first == first;
    assert Find("", CRLF) < 0;
  }

  /** Arriving as a whole, it has a number, or nothing is left for the body. */
  lemma WholeHasNumber(all: Chunk, unset: nat)
    requires Find(all, CRLF) >= 0
    ensures var r := TakeStatusLine(Wire(all, [], true, false)).1;
            if r.Some? then ReadAnswer([all], unset).code == r.value else ReadAnswer([all], unset) == Answer(unset, [], "")
  {
    var w := Wire(all, [], true, false);
    OneChunkRead(all, []);
    assert [all] + [] == [all];
    NumberExactly(w);
    if TakeStatusLine(w).1.None? {
      FailedHeaders(TakeStatusLine(w).0);
    }
  }

  /** All ways to cut the text, and all values of the variable, give one answer. */
  ghost predicate SameInAllChunks(all: string) {
    forall a: seq<Chunk>, b: seq<Chunk>, unset: nat | Concat(a) == all && Concat(b) == all ::
      ReadAnswer(a, unset) == ReadAnswer(b, unset)
  }

  lemma UnsteadyDiffers(all: string)
    requires !Steady(all)
    ensures !SameInAllChunks(all)
  {
    var e := Find(all, CRLF);
    FirstLine(all, "");
    var line, rest: Chunk, whole: Chunk := all[..e], all[e + 2..], all;
    Append(line, CRLF, rest);
    LineEndFound(line, rest);
    var unset := CutsDiffer(line, rest, whole);
    TwoCuts(line + CRLF, rest, whole);
  }

  /** The text cut behind its first line, and the text as a whole. */
  lemma CutsDiffer(line: string, rest: Chunk, whole: Chunk) returns (unset: nat)
    requires whole == line + CRLF + rest && Find(whole, CRLF) >= 0
    requires Find(line + CRLF, CRLF) >= 0 && SecondWord(line) == ""
    ensures ReadAnswer([line + CRLF, rest], unset) != ReadAnswer([whole], unset)
  {
    var code := TakeStatusLine(Wire(whole, [], true, false)).1;
    unset := if code == Some(0) then 1 else 0;
    CutAnswer(line, rest, unset);
    WholeHasNumber(whole, unset);
  }

  lemma LineEndFound(line: string, rest: string)
    requires Find(line + CRLF + rest, CRLF) == |line|
    ensures Find(line + CRLF, CRLF) >= 0
  {
    FindFirst(line + CRLF, CRLF);
    assert (line + CRLF)[|line|..] == CRLF;
    assert OccursAt(line + CRLF, CRLF, |line|);
  }

  lemma TwoCuts(first: Chunk, rest: Chunk, whole: Chunk)
    requires whole == first + rest
    ensures Concat([first, rest]) == whole && Concat([whole]) == whole
  {
    assert [first, rest][1..] == [rest] && [rest][1..] == [] && [whole][1..] == [];
    assert rest + "" == rest && whole + "" == whole;
    assert Concat([rest]) == rest;
  }

  /**
   The answer is independent of how the bytes arrive exactly if there is no line end, or nothing behind the
   first one, or a second word in front of it.
   */
  lemma ChunksExactly(all: string)
    ensures SameInAllChunks(all) <==> Steady(all)
  {
    if Steady(all) {
      forall a: seq<Chunk>, b: seq<Chunk>, unset: nat | Concat(a) == all && Concat(b) == all
        ensures ReadAnswer(a, unset) == ReadAnswer(b, unset)
      {
        SteadyAnswer(a, unset);
        SteadyAnswer(b, unset);
      }
    } else {
      UnsteadyDiffers(all);
    }
  }

  /**
   A status line of one word: if it arrives alone the code is unset, and if more arrives with it the number is
   read from there.
   */
  lemma LineWithoutNumber(line: string, rest: Chunk, cut: seq<Chunk>, whole: Chunk, unset: nat)
    requires line != "" && forall i | 0 <= i < |line| :: !Space(line[i])
    requires !Space(rest[0]) && !IsDigit(rest[0]) && rest[0] !in {'+', '-'}
    requires cut == [line + CRLF, rest] && whole == line + (CRLF + rest)
    ensures ReadAnswer(cut, unset) == Answer(unset, [], rest)
    ensures ReadAnswer([whole], unset).code == 0
  {
    VersionAlone(line);
    CutAnswer(line, rest, unset);
    Append(line, CRLF, rest);
    assert NoCrlf(line);
    FindLineEnd(line, rest);
    LaterNumber(line, rest);
    WholeHasNumber(whole, unset);
  }

  lemma NoNumber(unset: nat)
    ensures ReadAnswer(["HTTP/1.1\r\n", "X: y\r\n\r\nb"], unset) == Answer(unset, [], "X: y\r\n\r\nb")
    ensures ReadAnswer(["HTTP/1.1\r\nX: y\r\n\r\nb"], unset).code == 0
  {
    var line, rest: Chunk, whole: Chunk := "HTTP/1.1", "X: y\r\n\r\nb", "HTTP/1.1\r\nX: y\r\n\r\nb";
    var first: Chunk := "HTTP/1.1\r\n";
    assert first == line + CRLF && whole == line + (CRLF + rest);
    LineWithoutNumber(line, rest, [first, rest], whole, unset);
  }

  lemma VersionAlone(line: string)
    requires line != "" && forall i | 0 <= i < |line| :: !Space(line[i])
    ensures SecondWord(line) == "" && Find(line + CRLF, CRLF) >= 0
  {
    SolidPrefix(line);
    assert TrimLeft(line) == line;
    assert NoCrlf(line);
    FindLineEnd(line, "");
    assert line + CRLF + "" == line + CRLF;
  }

  /** Words on later lines are read as the number: without digits at their start it is 0. */
  lemma LaterNumber(line: string, rest: string)
    requires line != "" && forall i | 0 <= i < |line| :: !Space(line[i])
    requires rest != "" && !Space(rest[0]) && !IsDigit(rest[0]) && rest[0] !in {'+', '-'}
    ensures TakeStatusLine(Wire(line + (CRLF + rest), [], true, false)).1 == Some(0)
  {
    var t := line + (CRLF + rest);
    var behind := CRLF + rest;
    assert TrimLeft(t) == t && t[0] == line[0];
    SolidIs(line, behind);
    assert t[|line|..] == behind;
    TrimMore(CRLF, rest);
    assert CRLF[1..] == "\n" && "\n"[1..] == "";
    assert TrimLeft(CRLF) == "" && TrimLeft(rest) == rest;
  }
}
