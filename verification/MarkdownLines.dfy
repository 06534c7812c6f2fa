/** Reading the lines of a Markdown document: any line ending, tabs expanded to spaces. */
module MarkdownLines {
  import opened Streams
  import Text

  const SPACES_PER_INITIAL_TAB: nat := 4

  function Spaces(n: nat): (s: string)
    ensures |s| == n
  {
    seq(n, _ => ' ')
  }

  /** Spaces up to the next multiple of the width. */
  function AddTab(line: string, width: nat): string
    requires width > 0
  {
    line + Spaces(width - |line| % width)
  }

  /** What one character other than a line end adds to the line; `initial` while only white space was read. */
  function AddChar(line: string, initial: bool, c: char, perTab: nat): string
    requires perTab > 0
  {
    if c == '\t' then AddTab(line, if initial then SPACES_PER_INITIAL_TAB else perTab) else line + [c]
  }

  function StillInitial(initial: bool, c: char): bool {
    initial && (c == '\t' || c == ' ')
  }

  /** The line read so far, the text behind its end, and whether there was a line. */
  datatype Got = Got(line: string, rest: string, found: bool)

  /** `_getline` from the middle of a line: a CR or LF takes one LF or CR behind it along. */
  function LineFrom(s: string, line: string, initial: bool, perTab: nat): (r: Got)
    requires perTab > 0
    ensures |r.rest| <= |s| && (r.found && line == "" ==> |r.rest| < |s|)
    decreases |s|
  {
    if s == "" then Got(line, "", line != "")
    else
      var c, t := s[0], s[1..];
      if c == '\r' then Got(line, if t != "" && t[0] == '\n' then t[1..] else t, true)
      else if c == '\n' then Got(line, if t != "" && t[0] == '\r' then t[1..] else t, true)
      else LineFrom(t, AddChar(line, initial, c, perTab), StillInitial(initial, c), perTab)
  }

  /** `Document::_getline`. */
  method GetLine(input: InputStream, perTab: nat) returns (line: string, found: bool)
    requires input.Valid() && perTab > 0
    modifies input
    ensures input.Valid() && Got(line, input.Rest(), found) == LineFrom(old(input.Rest()), "", true, perTab)
  {
    line := "";
    var initialWhitespace := true;
    ghost var result := LineFrom(input.Rest(), "", true, perTab);
    while input.good
      invariant input.Valid() && LineFrom(input.Rest(), line, initialWhitespace, perTab) == result
      decreases input.good, |input.Rest()|
    {
      ghost var before := input.Rest();
      var c := input.Get();
      if !input.good {
        break;
      }
      assert before[0] == c && before[1..] == input.Rest();
      if c == '\r' || c == '\n' {
        TakeOther(input, if c == '\r' then '\n' else '\r');
        return line, true;
      } else if c == '\t' {
        var convert := if initialWhitespace then SPACES_PER_INITIAL_TAB else perTab;
        line := AddTab(line, convert);
      } else {
        line := line + [c];
        if c != ' ' {
          initialWhitespace := false;
        }
      }
    }
    found := line != "";
  }

  /** Take the next character if it is `other`, and put it back if it is not. */
  method TakeOther(input: InputStream, other: char)
    requires input.Valid() && input.good
    modifies input
    ensures input.Valid()
    ensures input.Rest() == var t := old(input.Rest()); if t != "" && t[0] == other then t[1..] else t
  {
    ghost var t := input.Rest();
    var c := input.Get();
    if input.good {
      assert t[0] == c && t[1..] == input.Rest();
      if c != other {
        input.Unget();
        assert input.Rest() == t;
      }
    }
  }

  // ---- Whole documents ----

  function ReadLines(s: string, perTab: nat): seq<string>
    requires perTab > 0
    decreases |s|
  {
    var r := LineFrom(s, "", true, perTab);
    if r.found then [r.line] + ReadLines(r.rest, perTab) else []
  }

  /** A line as a token: blank, comments included, or text that may hold markup. */
  datatype LineToken = BlankLine(text: string) | RawText(text: string)

  function Wrap(line: string): LineToken {
    if IsBlankLine(line) then BlankLine(line) else RawText(line)
  }

  function WrapAll(lines: seq<string>): (tokens: seq<LineToken>)
    ensures |tokens| == |lines| && forall i | 0 <= i < |lines| :: tokens[i] == Wrap(lines[i])
  {
    if lines == [] then [] else [Wrap(lines[0])] + WrapAll(lines[1..])
  }

  /** The reading loop. */
  method Read(input: InputStream, perTab: nat) returns (tokens: seq<LineToken>)
    requires input.Valid() && perTab > 0
    modifies input
    ensures tokens == WrapAll(ReadLines(old(input.Rest()), perTab))
  {
    tokens := [];
    ghost var all := WrapAll(ReadLines(input.Rest(), perTab));
    var line, found := GetLine(input, perTab);
    while found
      invariant input.Valid()
      invariant all == tokens + (if found then WrapAll([line] + ReadLines(input.Rest(), perTab)) else [])
      decreases if found then |input.Rest()| + 1 else 0
    {
      ghost var left := ReadLines(input.Rest(), perTab);
      assert ([line] + left)[1..] == left;
      Text.Append(tokens, [Wrap(line)], WrapAll(left));
      tokens := tokens + [Wrap(line)];
      line, found := GetLine(input, perTab);
    }
  }

  class Document {
    const spacesPerTab: nat
    var tokens: seq<LineToken>
    var processed: bool

    constructor (spacesPerTab: nat)
      ensures this.spacesPerTab == spacesPerTab && tokens == [] && !processed
    {
      this.spacesPerTab := spacesPerTab;
      tokens, processed := [], false;
    }

    /** `Document::read`: a document that has been processed reads nothing more. */
    method ReadFrom(input: InputStream) returns (ok: bool)
      requires input.Valid() && spacesPerTab > 0
      modifies this`tokens, input
      ensures ok == !processed
      ensures ok ==> tokens == old(tokens) + WrapAll(ReadLines(old(input.Rest()), spacesPerTab))
      ensures !ok ==> tokens == old(tokens) && input.Valid() && input.Rest() == old(input.Rest())
    {
      if processed {
        return false;
      }
      var read := Read(input, spacesPerTab);
      tokens := tokens + read;
      ok := true;
    }
  }

  // ---- Blank lines ----

  function LeadingSpaces(s: string): (n: nat)
    ensures n <= |s| && (forall i | 0 <= i < n :: s[i] == ' ') && (n < |s| ==> s[n] != ' ')
  {
    if s == "" || s[0] != ' ' then 0 else 1 + LeadingSpaces(s[1..])
  }

  function TrimEnd(s: string): (r: string)
    ensures r <= s && (r != "" ==> r[|r| - 1] != ' ') && forall i | |r| <= i < |s| :: s[i] == ' '
  {
    if s == "" || s[|s| - 1] != ' ' then s else TrimEnd(s[..|s| - 1])
  }

  predicate EndsDashes(s: string) {
    var b := TrimEnd(s);
    |b| >= 2 && b[|b| - 2] == '-' && b[|b| - 1] == '-'
  }

  /** The text ends in `--`, spaces, `>` and spaces. */
  predicate EndsComment(s: string) {
    var a := TrimEnd(s);
    a != "" && a[|a| - 1] == '>' && EndsDashes(a[..|a| - 1])
  }

  /** The test for blank lines: spaces only, or at most three spaces and then one or more comments. */
  predicate IsBlankLine(line: string) {
    var n := LeadingSpaces(line);
    n == |line| || (n <= 3 && "<--" <= line[n..] && EndsComment(line[n + 3..]))
  }

  /** One comment of the expression for blank lines, with the spaces behind it. */
  predicate Comment(s: string) {
    "<--" <= s && EndsComment(s[3..])
  }

  ghost predicate Comments(s: string)
    decreases |s|
  {
    s == "" || exists k: nat :: 0 < k <= |s| && Comment(s[..k]) && Comments(s[k..])
  }

  ghost predicate AllSpaces(s: string) {
    forall i | 0 <= i < |s| :: s[i] == ' '
  }

  /** The expression itself: up to three spaces, any number of comments, any number of spaces. */
  ghost predicate MatchesBlank(line: string, a: nat, b: nat) {
    a <= 3 && a <= b <= |line| && AllSpaces(line[..a]) && Comments(line[a..b]) && AllSpaces(line[b..])
  }

  lemma {:induction false} TrimSpaces(s: string, n: nat)
    requires n <= |s| && AllSpaces(s[n..])
    ensures TrimEnd(s) == TrimEnd(s[..n])
    decreases |s|
  {
    if n < |s| {
      var m := |s| - 1;
      assert s[n..][m - n] == s[m];
      assert s[..m][..n] == s[..n] && s[..m][n..] == s[n..][..m - n];
      TrimSpaces(s[..m], n);
    } else {
      assert s[..n] == s;
    }
  }

  lemma {:induction false} TrimMore(x: string, s: string)
    requires TrimEnd(s) != ""
    ensures TrimEnd(x + s) == x + TrimEnd(s)
    decreases |s|
  {
    if s[|s| - 1] != ' ' {
      assert (x + s)[|x + s| - 1] == s[|s| - 1];
    } else {
      var init := s[..|s| - 1];
      assert (x + s)[..|x + s| - 1] == x + init;
      TrimMore(x, init);
    }
  }

  lemma DashesMore(x: string, s: string)
    requires EndsDashes(s)
    ensures EndsDashes(x + s)
  {
    TrimMore(x, s);
  }

  lemma InitJoin(x: string, a: string)
    requires a != ""
    ensures (x + a)[..|x + a| - 1] == x + a[..|a| - 1] && (x + a)[|x + a| - 1] == a[|a| - 1]
  {
  }

  /** Whatever stands in front, a text that ends a comment ends one. */
  lemma EndsMore(x: string, s: string)
    requires EndsComment(s)
    ensures EndsComment(x + s)
  {
    var a := TrimEnd(s);
    TrimMore(x, s);
    InitJoin(x, a);
    DashesMore(x, a[..|a| - 1]);
  }

  lemma CommentFirst(s: string, k: nat)
    requires 3 <= k <= |s| && "<--" <= s[k..] && EndsComment(s[k..][3..])
    ensures EndsComment(s[3..])
  {
    assert "<--" + s[k..][3..] == s[k..];
    EndsMore("<--", s[k..][3..]);
    assert s[3..k] + s[k..] == s[3..];
    EndsMore(s[3..k], s[k..]);
  }

  lemma {:induction false} CommentsEnd(s: string)
    requires Comments(s) && s != ""
    ensures "<--" <= s && EndsComment(s[3..])
    decreases |s|
  {
    var k: nat :| 0 < k <= |s| && Comment(s[..k]) && Comments(s[k..]);
    assert "<--" <= s[..k] && s[..k] <= s;
    if k == |s| {
      assert s[..k] == s;
    } else {
      CommentsEnd(s[k..]);
      CommentFirst(s, k);
    }
  }

  /** The test accepts exactly the lines the expression matches as a whole. */
  lemma BlankExactly(line: string)
    ensures IsBlankLine(line) <==> exists a: nat, b: nat :: MatchesBlank(line, a, b)
  {
    var n := LeadingSpaces(line);
    if IsBlankLine(line) {
      if n == |line| {
        assert MatchesBlank(line, 0, 0);
      } else {
        var s := line[n..];
        assert s[..|s|] == s && Comment(s[..|s|]) && Comments(s[|s|..]);
        assert Comments(s);
        assert line[n..|line|] == s;
        assert MatchesBlank(line, n, |line|);
      }
    }
    if a: nat, b: nat :| MatchesBlank(line, a, b) {
      MatchedIsBlank(line, a, b);
    }
  }

  lemma MatchedIsBlank(line: string, a: nat, b: nat)
    requires MatchesBlank(line, a, b)
    ensures IsBlankLine(line)
  {
    var s := line[a..b];
    if s == "" {
      assert line == line[..a] + line[b..];
      SpacesLead(line, |line|);
    } else {
      CommentsEnd(s);
      FrontOf(line, a, b);
      assert forall i | 0 <= i < a :: line[i] == line[..a][i];
      SpacesLead(line, a);
      SpacesBehind(line, a + 3, b, s[3..]);
    }
  }

  lemma SpacesBehind(line: string, from: nat, b: nat, s: string)
    requires from <= b <= |line| && line[from..b] == s && EndsComment(s) && AllSpaces(line[b..])
    ensures EndsComment(line[from..])
  {
    var t, n := line[from..], b - from;
    assert t[..n] == s && t[n..] == line[b..];
    TrimSpaces(t, n);
  }

  lemma FrontOf(line: string, a: nat, b: nat)
    requires a <= b <= |line| && "<--" <= line[a..b]
    ensures "<--" <= line[a..] && line[a] == '<'
  {
    assert line[a..b] <= line[a..];
    assert line[a..b][0] == '<';
  }

  lemma {:induction false} SpacesLead(s: string, n: nat)
    requires n <= |s| && (forall i | 0 <= i < n :: s[i] == ' ') && (n < |s| ==> s[n] != ' ')
    ensures LeadingSpaces(s) == n
  {
  }

  // ---- Tab expansion ----

  /** The line that a text without line ends becomes. */
  function Expand(s: string, line: string, initial: bool, perTab: nat): string
    requires perTab > 0
    decreases |s|
  {
    if s == "" then line
    else Expand(s[1..], AddChar(line, initial, s[0], perTab), StillInitial(initial, s[0]), perTab)
  }

  function ExpandLine(s: string, perTab: nat): string
    requires perTab > 0
  {
    Expand(s, "", true, perTab)
  }

  predicate Unbroken(s: string) {
    forall i | 0 <= i < |s| :: s[i] != '\r' && s[i] != '\n'
  }

  predicate Untabbed(s: string) {
    Unbroken(s) && forall i | 0 <= i < |s| :: s[i] != '\t'
  }

  /** A tab advances, by at least one column, to the next multiple of the tab width in force. */
  lemma TabStops(line: string, initial: bool, perTab: nat)
    requires perTab > 0
    ensures var width := if initial then SPACES_PER_INITIAL_TAB else perTab;
            var r := AddChar(line, initial, '\t', perTab);
            && |r| % width == 0 && |line| < |r| <= |line| + width
            && r == line + Spaces(|r| - |line|)
  {
    var width := if initial then SPACES_PER_INITIAL_TAB else perTab;
    var q, m := |line| / width, |line| % width;
    assert |line| + (width - m) == width * (q + 1);
    MultipleMod(width, q + 1);
  }

  lemma MultipleMod(w: nat, q: nat)
    requires w > 0
    ensures (w * q) % w == 0
  {
    var e, r := (w * q) / w, (w * q) % w;
    Distribute(w, q, e);
    AtLeastWidth(w, q - e);
  }

  lemma Distribute(w: int, a: int, b: int)
    ensures w * a - w * b == w * (a - b)
  {
  }

  lemma AtLeastWidth(w: int, k: int)
    requires w >= 0
    ensures k >= 1 ==> w * k >= w
    ensures k <= -1 ==> w * k <= -w
  {
    if k >= 1 {
      Distribute(w, k, 1);
    } else if k <= -1 {
      Distribute(w, k, -1);
    }
  }

  lemma {:induction false} ExpandUntabbed(s: string, line: string, initial: bool, perTab: nat)
    requires perTab > 0 && Unbroken(s) && Untabbed(line)
    ensures Untabbed(Expand(s, line, initial, perTab))
    decreases |s|
  {
    if s != "" {
      ExpandUntabbed(s[1..], AddChar(line, initial, s[0], perTab), StillInitial(initial, s[0]), perTab);
    }
  }

  // ---- Line endings ----

  /** A text without line ends, followed by a line end or by nothing, is one line. */
  lemma {:induction false} LineEnds(s: string, rest: string, line: string, initial: bool, perTab: nat)
    requires perTab > 0 && Unbroken(s) && rest != "" && rest[0] in {'\r', '\n'}
    ensures LineFrom(s + rest, line, initial, perTab) == LineFrom(rest, Expand(s, line, initial, perTab), false, perTab)
    decreases |s|
  {
    if s == "" {
      assert s + rest == rest;
    } else {
      assert (s + rest)[1..] == s[1..] + rest;
      LineEnds(s[1..], rest, AddChar(line, initial, s[0], perTab), StillInitial(initial, s[0]), perTab);
    }
  }

  predicate IsLineEnd(eol: string) {
    eol in {"\n", "\r", "\r\n", "\n\r"}
  }

  function Ended(lines: seq<string>, eol: string): string {
    if lines == [] then "" else lines[0] + eol + Ended(lines[1..], eol)
  }

  /** What follows a line end in one convention does not start with its other half. */
  lemma EndStart(lines: seq<string>, eol: string, last: string)
    requires IsLineEnd(eol) && Unbroken(last) && forall i | 0 <= i < |lines| :: Unbroken(lines[i])
    ensures var s := Ended(lines, eol) + last;
            s != "" ==> s[0] == eol[0] || (s[0] != '\r' && s[0] != '\n')
  {
    if lines != [] && lines[0] != "" {
      assert (lines[0] + eol + Ended(lines[1..], eol))[0] == lines[0][0];
    }
  }

  lemma TakeEnd(eol: string, rest: string, line: string, perTab: nat)
    requires perTab > 0 && IsLineEnd(eol)
    requires rest != "" ==> rest[0] == eol[0] || (rest[0] != '\r' && rest[0] != '\n')
    ensures LineFrom(eol + rest, line, false, perTab) == Got(line, rest, true)
  {
    var s := eol + rest;
    assert s[0] == eol[0];
    if |eol| == 1 {
      assert s[1..] == rest;
    } else {
      assert s[1..][0] == eol[1] && s[1..][1..] == rest;
    }
  }

  /** A text without line ends that nothing follows is a line, unless it is empty. */
  lemma {:induction false} LastLine(s: string, line: string, initial: bool, perTab: nat)
    requires perTab > 0 && Unbroken(s)
    ensures var r := Expand(s, line, initial, perTab);
            LineFrom(s, line, initial, perTab) == Got(r, "", r != "") && |line| + |s| <= |r|
    decreases |s|
  {
    if s != "" {
      LastLine(s[1..], AddChar(line, initial, s[0], perTab), StillInitial(initial, s[0]), perTab);
    }
  }

  /** The last line counts as one if it is not empty. */
  function LastLines(last: string, perTab: nat): seq<string>
    requires perTab > 0
  {
    if last == "" then [] else [ExpandLine(last, perTab)]
  }

  function ExpandAll(lines: seq<string>, perTab: nat): (r: seq<string>)
    requires perTab > 0
    ensures |r| == |lines| && forall i | 0 <= i < |lines| :: r[i] == ExpandLine(lines[i], perTab)
  {
    if lines == [] then [] else [ExpandLine(lines[0], perTab)] + ExpandAll(lines[1..], perTab)
  }

  lemma OnlyLast(last: string, perTab: nat)
    requires perTab > 0 && Unbroken(last)
    ensures ReadLines(last, perTab) == LastLines(last, perTab)
  {
    LastLine(last, "", true, perTab);
    assert ReadLines("", perTab) == [];
  }

  lemma FirstLine(l: string, eol: string, rest: string, perTab: nat)
    requires perTab > 0 && IsLineEnd(eol) && Unbroken(l)
    requires rest != "" ==> rest[0] == eol[0] || (rest[0] != '\r' && rest[0] != '\n')
    ensures ReadLines(l + (eol + rest), perTab) == [ExpandLine(l, perTab)] + ReadLines(rest, perTab)
  {
    LineEnds(l, eol + rest, "", true, perTab);
    TakeEnd(eol, rest, ExpandLine(l, perTab), perTab);
  }

  lemma FrontLine(lines: seq<string>, eol: string, last: string)
    requires lines != []
    ensures Ended(lines, eol) + last == lines[0] + (eol + (Ended(lines[1..], eol) + last))
  {
    Text.Append(lines[0], eol, Ended(lines[1..], eol));
    Text.Append(lines[0], eol + Ended(lines[1..], eol), last);
    Text.Append(eol, Ended(lines[1..], eol), last);
  }

  /**
   Lines are read the same whichever convention ends them: LF, CR, CRLF or LFCR, one throughout. The last line
   may lack its end.
   */
  lemma {:induction false} AnyConvention(lines: seq<string>, last: string, eol: string, perTab: nat)
    requires perTab > 0 && IsLineEnd(eol) && Unbroken(last) && forall i | 0 <= i < |lines| :: Unbroken(lines[i])
    ensures ReadLines(Ended(lines, eol) + last, perTab) == ExpandAll(lines, perTab) + LastLines(last, perTab)
    decreases |lines|
  {
    if lines == [] {
      assert "" + last == last;
      OnlyLast(last, perTab);
    } else {
      var l, t := lines[0], lines[1..];
      var rest := Ended(t, eol) + last;
      FrontLine(lines, eol, last);
      EndStart(t, eol, last);
      FirstLine(l, eol, rest, perTab);
      AnyConvention(t, last, eol, perTab);
      Text.Append([ExpandLine(l, perTab)], ExpandAll(t, perTab), LastLines(last, perTab));
    }
  }

  /** No line holds a line end or a tab, whatever the text. */
  lemma {:induction false} LineFromUntabbed(s: string, line: string, initial: bool, perTab: nat)
    requires perTab > 0 && Untabbed(line)
    ensures Untabbed(LineFrom(s, line, initial, perTab).line)
    decreases |s|
  {
    if s != "" && s[0] != '\r' && s[0] != '\n' {
      LineFromUntabbed(s[1..], AddChar(line, initial, s[0], perTab), StillInitial(initial, s[0]), perTab);
    }
  }

  lemma {:induction false} ReadLinesUntabbed(s: string, perTab: nat)
    requires perTab > 0
    ensures forall i | 0 <= i < |ReadLines(s, perTab)| :: Untabbed(ReadLines(s, perTab)[i])
    decreases |s|
  {
    var r := LineFrom(s, "", true, perTab);
    LineFromUntabbed(s, "", true, perTab);
    if r.found {
      ReadLinesUntabbed(r.rest, perTab);
    }
  }
}
