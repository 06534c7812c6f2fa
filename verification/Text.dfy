/** Searching in strings, as `std::string::find` and `substr` do. */
module Text {

  const CRLF: string := "\r\n"

  /** The smallest position at which `pat` occurs, or -1. */
  function Find(s: string, pat: string): (r: int)
    ensures -1 <= r <= |s|
  {
    if pat <= s then 0
    else if s == "" then -1
    else var r := Find(s[1..], pat); if r < 0 then -1 else r + 1
  }

  ghost predicate OccursAt(s: string, pat: string, i: int) {
    0 <= i <= |s| && pat <= s[i..]
  }

  /** `Find` is the first occurrence. */
  lemma {:induction false} FindFirst(s: string, pat: string)
    ensures var r := Find(s, pat);
            && (r >= 0 ==> OccursAt(s, pat, r))
            && (forall j | 0 <= j <= |s| && (r < 0 || j < r) :: !OccursAt(s, pat, j))
    decreases |s|
  {
    var r := Find(s, pat);
    assert s[0..] == s;
    if !(pat <= s) && s != "" {
      FindFirst(s[1..], pat);
      forall j | 0 <= j <= |s| && (r < 0 || j < r) ensures !OccursAt(s, pat, j) {
        if j > 0 {
          assert s[1..][j - 1..] == s[j..];
          assert !OccursAt(s[1..], pat, j - 1);
        }
      }
      if r > 0 {
        assert s[1..][r - 1..] == s[r..];
      }
    }
  }

  lemma FindIs(s: string, pat: string, i: nat)
    requires OccursAt(s, pat, i) && forall j | 0 <= j < i :: !OccursAt(s, pat, j)
    ensures Find(s, pat) == i
  {
    FindFirst(s, pat);
  }

  /** The string holds no line end. */
  ghost predicate NoCrlf(s: string) {
    forall i | 0 <= i < |s| - 1 :: !(s[i] == '\r' && s[i + 1] == '\n')
  }

  lemma CrlfAt(s: string, i: int)
    requires 0 <= i <= |s|
    ensures OccursAt(s, CRLF, i) <==> i + 1 < |s| && s[i] == '\r' && s[i + 1] == '\n'
  {
    if i + 1 < |s| {
      assert s[i..][0] == s[i] && s[i..][1] == s[i + 1];
    }
  }

  lemma NoCrlfFind(s: string)
    ensures NoCrlf(s) <==> Find(s, CRLF) < 0
  {
    FindFirst(s, CRLF);
    if Find(s, CRLF) < 0 {
      forall i | 0 <= i < |s| - 1 ensures !(s[i] == '\r' && s[i + 1] == '\n') {
        CrlfAt(s, i);
        assert !OccursAt(s, CRLF, i);
      }
    } else {
      CrlfAt(s, Find(s, CRLF));
    }
  }

  /** The first line end of a line without one, followed by a line end, is that one. */
  lemma FindLineEnd(a: string, rest: string)
    requires NoCrlf(a)
    ensures Find(a + CRLF + rest, CRLF) == |a|
  {
    var s := a + CRLF + rest;
    forall j | 0 <= j < |a| ensures !OccursAt(s, CRLF, j) {
      CrlfAt(s, j);
      if j + 1 < |a| {
        assert s[j] == a[j] && s[j + 1] == a[j + 1];
      } else {
        assert s[j + 1] == '\r';
      }
    }
    CrlfAt(s, |a|);
    assert s[|a|] == '\r' && s[|a| + 1] == '\n';
    FindIs(s, CRLF, |a|);
  }

  lemma NoCrlfSlice(s: string, i: nat, j: nat)
    requires NoCrlf(s) && i <= j <= |s|
    ensures NoCrlf(s[i..j])
  {
  }

  /** Everything before the first line end is free of line ends. */
  lemma BeforeLineEnd(s: string)
    requires Find(s, CRLF) >= 0
    ensures NoCrlf(s[..Find(s, CRLF)])
    ensures Find(s, CRLF) + 2 <= |s| && s[Find(s, CRLF)..][..2] == CRLF
  {
    var r := Find(s, CRLF);
    FindFirst(s, CRLF);
    CrlfAt(s, r);
    forall i | 0 <= i < r - 1 ensures !(s[i] == '\r' && s[i + 1] == '\n') {
      CrlfAt(s, i);
      assert !OccursAt(s, CRLF, i);
    }
    assert s[r..][..2] == [s[r], s[r + 1]];
  }

  /** A line end does not arise where two strings meet, unless at a CR and an LF. */
  lemma NoCrlfJoin(a: string, b: string)
    requires NoCrlf(a) && NoCrlf(b) && (a == "" || b == "" || a[|a| - 1] != '\r' || b[0] != '\n')
    ensures NoCrlf(a + b)
  {
    var s := a + b;
    forall i | 0 <= i < |s| - 1 ensures !(s[i] == '\r' && s[i + 1] == '\n') {
      if i + 1 < |a| {
        assert s[i] == a[i] && s[i + 1] == a[i + 1];
      } else if i >= |a| {
        assert s[i] == b[i - |a|] && s[i + 1] == b[i + 1 - |a|];
      }
    }
  }

  predicate NoChar(s: string, c: char) {
    forall i | 0 <= i < |s| :: s[i] != c
  }

  lemma NoCharFind(s: string, c: char)
    requires NoChar(s, c)
    ensures Find(s, [c]) < 0
  {
    FindFirst(s, [c]);
    forall j | 0 <= j < |s| ensures !OccursAt(s, [c], j) {
      assert s[j..][0] == s[j];
    }
  }

  lemma FindChar(s: string, a: string, c: char, rest: string)
    requires s == a + [c] + rest && NoChar(a, c)
    ensures Find(s, [c]) == |a| && s[..|a|] == a && s[|a| + 1..] == rest
  {
    forall j | 0 <= j < |a| ensures !OccursAt(s, [c], j) {
      assert s[j..][0] == a[j];
    }
    assert s[|a|..][0] == c;
    FindIs(s, [c], |a|);
  }

  // ---- Lines ----

  predicate AllNoCrlf(lines: seq<string>) {
    forall i | 0 <= i < |lines| :: Find(lines[i], CRLF) < 0
  }

  /** The lines with a line end between each two. */
  function JoinLines(lines: seq<string>): string {
    if lines == [] then ""
    else if |lines| == 1 then lines[0]
    else lines[0] + CRLF + JoinLines(lines[1..])
  }

  function SplitLines(s: string): (lines: seq<string>)
    ensures lines != []
    decreases |s|
  {
    var cut := Find(s, CRLF);
    if cut < 0 then [s]
    else BeforeLineEnd(s); [s[..cut]] + SplitLines(s[cut + 2..])
  }

  lemma {:induction false} SplitClean(s: string)
    ensures AllNoCrlf(SplitLines(s))
    decreases |s|
  {
    var cut := Find(s, CRLF);
    if cut >= 0 {
      BeforeLineEnd(s);
      NoCrlfFind(s[..cut]);
      SplitClean(s[cut + 2..]);
    }
  }

  lemma {:induction false} SplitJoin(lines: seq<string>)
    requires lines != [] && AllNoCrlf(lines)
    ensures SplitLines(JoinLines(lines)) == lines
  {
    if |lines| == 1 {
      assert lines == [lines[0]];
    } else {
      var a, t := lines[0], JoinLines(lines[1..]);
      NoCrlfFind(a);
      FindLineEnd(a, t);
      assert (a + CRLF + t)[..|a|] == a && (a + CRLF + t)[|a| + 2..] == t;
      SplitJoin(lines[1..]);
    }
  }

  /** Searching on behind a stretch in which nothing begins. */
  lemma FindShift(a: string, t: string, pat: string)
    requires Find(t, pat) >= 0 && forall j | 0 <= j < |a| :: !OccursAt(a + t, pat, j)
    ensures Find(a + t, pat) == |a| + Find(t, pat)
  {
    FindFirst(t, pat);
    var s, r := a + t, Find(t, pat);
    forall j | |a| <= j <= |s| ensures OccursAt(s, pat, j) <==> OccursAt(t, pat, j - |a|) {
      assert s[j..] == t[j - |a|..];
    }
    assert OccursAt(s, pat, |a| + r);
    forall j | 0 <= j < |a| + r ensures !OccursAt(s, pat, j) {
      if j >= |a| {
        assert !OccursAt(t, pat, j - |a|);
      }
    }
    FindIs(s, pat, |a| + r);
  }

  /** What follows a line starts with a line end only if that line is empty. */
  lemma LineStart(a: string, rest: string)
    requires NoCrlf(a) && a != "" && (rest == "" || rest[0] == '\r')
    ensures !(CRLF <= a + rest)
  {
    var s := a + rest;
    if |a| >= 2 {
      assert s[0] == a[0] && s[1] == a[1];
    } else if rest != "" {
      assert s[0] == a[0] && s[1] == rest[0];
    }
  }

  lemma BlankNeedsLineEnd(s: string, i: int)
    ensures OccursAt(s, CRLF + CRLF, i) ==> OccursAt(s, CRLF, i) && OccursAt(s, CRLF, i + 2)
  {
    if OccursAt(s, CRLF + CRLF, i) {
      assert s[i + 2..] == s[i..][2..];
      assert (CRLF + CRLF)[2..] == CRLF;
    }
  }

  lemma JoinLinesHead(lines: seq<string>, tail: string)
    requires |lines| > 1
    ensures JoinLines(lines) + tail == lines[0] + CRLF + (JoinLines(lines[1..]) + tail)
    ensures |JoinLines(lines)| == |lines[0] + CRLF| + |JoinLines(lines[1..])|
  {
  }

  /** The first blank line is the one behind the last of some nonempty lines. */
  lemma {:induction false} FindBlankLine(lines: seq<string>, body: string)
    requires lines != [] && AllNoCrlf(lines) && forall i | 0 <= i < |lines| :: lines[i] != ""
    ensures Find(JoinLines(lines) + (CRLF + CRLF + body), CRLF + CRLF) == |JoinLines(lines)|
  {
    var a, blank := lines[0], CRLF + CRLF + body;
    NoCrlfFind(a);
    if |lines| == 1 {
      assert a + blank == a + CRLF + (CRLF + body) && CRLF + CRLF <= blank;
      FindLineEnd(a, CRLF + body);
      BlankBehind(a, blank, lines, body);
    } else {
      var rest := JoinLines(lines[1..]) + blank;
      JoinLinesHead(lines, blank);
      FindLineEnd(a, rest);
      FindBlankLine(lines[1..], body);
      BlankBehind(a + CRLF, rest, lines, body);
    }
  }

  lemma BlankBehind(head: string, rest: string, lines: seq<string>, body: string)
    requires lines != [] && AllNoCrlf(lines) && forall i | 0 <= i < |lines| :: lines[i] != ""
    requires head == (if |lines| == 1 then lines[0] else lines[0] + CRLF)
    requires rest == (if |lines| == 1 then CRLF + CRLF + body else JoinLines(lines[1..]) + (CRLF + CRLF + body))
    requires Find(head + rest, CRLF) == |lines[0]| && Find(rest, CRLF + CRLF) >= 0
    ensures Find(head + rest, CRLF + CRLF) == |head| + Find(rest, CRLF + CRLF)
  {
    forall j | 0 <= j < |head| ensures !OccursAt(head + rest, CRLF + CRLF, j) {
      NoBlankIn(lines[0], head, rest, lines, body, j);
    }
    FindShift(head, rest, CRLF + CRLF);
  }

  /** Behind the first of several nonempty lines there is no second line end. */
  lemma NextLineStarts(lines: seq<string>, body: string)
    requires |lines| > 1 && AllNoCrlf(lines) && lines[1] != ""
    ensures !(CRLF <= JoinLines(lines[1..]) + (CRLF + CRLF + body))
  {
    var b, blank := lines[1], CRLF + CRLF + body;
    var tail := if |lines| == 2 then blank else CRLF + JoinLines(lines[2..]) + blank;
    NoCrlfFind(b);
    assert lines[1..][1..] == lines[2..];
    assert JoinLines(lines[1..]) + blank == b + tail;
    LineStart(b, tail);
  }

  lemma NoBlankIn(a: string, head: string, rest: string, lines: seq<string>, body: string, j: int)
    requires lines != [] && AllNoCrlf(lines) && forall i | 0 <= i < |lines| :: lines[i] != ""
    requires a == lines[0] && 0 <= j < |head|
    requires head == (if |lines| == 1 then a else a + CRLF)
    requires rest == (if |lines| == 1 then CRLF + CRLF + body else JoinLines(lines[1..]) + (CRLF + CRLF + body))
    requires Find(head + rest, CRLF) == |a|
    ensures !OccursAt(head + rest, CRLF + CRLF, j)
  {
    var s := head + rest;
    FindFirst(s, CRLF);
    BlankNeedsLineEnd(s, j);
    if j == |a| {
      NextLineStarts(lines, body);
      var k := |head|;
      assert k == j + 2 && s[k..] == rest;
    } else if j > |a| {
      assert head[j] == CRLF[1];
      CrlfAt(s, j);
    }
  }

  lemma Append<T>(a: seq<T>, b: seq<T>, c: seq<T>)
    ensures a + (b + c) == a + b + c
  {
  }
}
