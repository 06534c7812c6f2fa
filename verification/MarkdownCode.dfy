/** Collecting code blocks from the lines of a Markdown document. */
module MarkdownCode {
  import opened Wrappers
  import opened Text

  /** A line token: blank, text that may hold markup, or anything else. */
  datatype Line = Blank | Text(text: string) | Other

  predicate IsCode(l: Line) {
    l.Text? && |l.text| >= 4 && l.text[..4] == "    "
  }

  // ---- The source's reading ----

  /** A code line behind any number of blank ones, with the position behind it. */
  function CodeLine(ls: seq<Line>, i: nat): Option<(string, nat)>
    requires i < |ls|
    decreases |ls| - i
  {
    if ls[i].Blank? then
      if i + 1 < |ls| then
        match CodeLine(ls, i + 1)
        case None => None
        case Some((r, j)) => Some(("\n" + r, j))
      else None
    else if IsCode(ls[i]) then Some((ls[i].text[4..], i + 1))
    else None
  }

  /** `isCodeBlockLine`: the iterator moves behind the line it finds, or is back where it was. */
  method IsCodeBlockLine(ls: seq<Line>, i: nat) returns (r: Option<string>, i': nat)
    requires i < |ls|
    ensures match CodeLine(ls, i)
            case None => r == None && i' == i
            case Some((s, j)) => r == Some(s) && i' == j
    decreases |ls| - i
  {
    i' := i;
    if ls[i'].Blank? {
      i' := i' + 1;
      if i' != |ls| {
        r, i' := IsCodeBlockLine(ls, i');
        if r.Some? {
          return Some("\n" + r.value), i';
        }
      }
      i' := i' - 1;
    } else if ls[i'].Text? {
      var line := ls[i'].text;
      if |line| >= 4 {
        var k := 0;
        while k != 4 && line[k] == ' '
          invariant k <= 4 && forall j | 0 <= j < k :: line[j] == ' '
        {
          k := k + 1;
        }
        if k == 4 {
          assert line[..4] == "    ";
          i' := i' + 1;
          return Some(line[4..]), i';
        }
      }
    }
    r := None;
  }

  // ---- What a code block is ----

  /** A stretch of blank and code lines that starts and ends with a code line. */
  predicate IsBlock(ls: seq<Line>, i: nat, j: nat) {
    i < j <= |ls| && IsCode(ls[i]) && IsCode(ls[j - 1]) && forall k | i <= k < j :: ls[k].Blank? || IsCode(ls[k])
  }

  ghost predicate IsLongestBlock(ls: seq<Line>, i: nat, j: nat) {
    IsBlock(ls, i, j) && forall k | j < k <= |ls| :: !IsBlock(ls, i, k)
  }

  /** What a line of a block becomes: code less its indentation, nothing for a blank line, then a newline. */
  function LineText(x: Line): string {
    (if IsCode(x) then x.text[4..] else "") + "\n"
  }

  function BlockText(ls: seq<Line>): string {
    if ls == [] then "" else BlockText(ls[..|ls| - 1]) + LineText(ls[|ls| - 1])
  }

  lemma {:induction false} BlockTextConcat(a: seq<Line>, b: seq<Line>)
    ensures BlockText(a + b) == BlockText(a) + BlockText(b)
    decreases |b|
  {
    if b == [] {
      assert a + b == a;
    } else {
      var n := |b| - 1;
      assert (a + b)[..|a + b| - 1] == a + b[..n];
      BlockTextConcat(a, b[..n]);
      Append(BlockText(a), BlockText(b[..n]), LineText(b[n]));
    }
  }

  /** From `i` there are only blank lines up to `k`, and then the end or a line that is not code. */
  predicate StopsAt(ls: seq<Line>, i: int, k: int) {
    0 <= i <= k <= |ls| && (forall n | i <= n < k :: ls[n].Blank?) && (k == |ls| || (!ls[k].Blank? && !IsCode(ls[k])))
  }

  /** The next code line, behind blank lines only, read up to `j` with the text `r`. */
  predicate ReadsUpTo(ls: seq<Line>, i: nat, r: string, j: nat) {
    && i < j <= |ls| && IsCode(ls[j - 1]) && (forall k | i <= k < j - 1 :: ls[k].Blank?)
    && BlockText(ls[i..j]) == r + "\n"
  }

  lemma BlockTextOne(x: Line)
    ensures BlockText([x]) == LineText(x)
  {
    assert [x][..0] == [];
    assert BlockText([]) == "" && "" + LineText(x) == LineText(x);
  }

  lemma BlankBefore(ls: seq<Line>, i: nat, r: string, j: nat)
    requires i < |ls| && ls[i].Blank? && ReadsUpTo(ls, i + 1, r, j)
    ensures ReadsUpTo(ls, i, "\n" + r, j)
  {
    assert ls[i..j] == [ls[i]] + ls[i + 1..j];
    BlockTextConcat([ls[i]], ls[i + 1..j]);
    BlockTextOne(ls[i]);
    assert "" + "\n" + (r + "\n") == ("\n" + r) + "\n";
  }

  /** What `CodeLine` finds is the next code line, behind blank lines only; or there is none. */
  lemma {:induction false} CodeLineSpec(ls: seq<Line>, i: nat)
    requires i < |ls|
    ensures CodeLine(ls, i).Some? ==> ReadsUpTo(ls, i, CodeLine(ls, i).value.0, CodeLine(ls, i).value.1)
    ensures CodeLine(ls, i).None? ==> exists k :: StopsAt(ls, i, k)
    decreases |ls| - i
  {
    if ls[i].Blank? {
      if i + 1 < |ls| {
        CodeLineSpec(ls, i + 1);
        match CodeLine(ls, i + 1)
        case Some((r, j)) =>
          BlankBefore(ls, i, r, j);
        case None =>
          var next := i + 1;
          var k :| StopsAt(ls, next, k);
          assert StopsAt(ls, i, k);
      } else {
        assert StopsAt(ls, i, |ls|);
      }
    } else if IsCode(ls[i]) {
      assert ls[i..i + 1] == [ls[i]];
      BlockTextOne(ls[i]);
    } else {
      assert StopsAt(ls, i, i);
    }
  }

  lemma BlockGrows(ls: seq<Line>, i: nat, j: nat, r: string, j': nat)
    requires IsBlock(ls, i, j) && ReadsUpTo(ls, j, r, j')
    ensures IsBlock(ls, i, j') && BlockText(ls[i..j']) == BlockText(ls[i..j]) + (r + "\n")
  {
    assert ls[i..j'] == ls[i..j] + ls[j..j'];
    BlockTextConcat(ls[i..j], ls[j..j']);
  }

  /** `parseCodeBlock`: the longest block at the iterator, with its text; or nothing, and nothing moves. */
  method ParseCodeBlock(ls: seq<Line>, i: nat) returns (r: Option<string>, i': nat)
    requires i < |ls|
    ensures if IsCode(ls[i]) then IsLongestBlock(ls, i, i') && r == Some(BlockText(ls[i..i'])) else r == None && i' == i
  {
    i', r := i, None;
    if !ls[i].Blank? {
      var contents;
      CodeLineSpec(ls, i);
      contents, i' := IsCodeBlockLine(ls, i);
      if contents.Some? {
        var out := contents.value + "\n";
        while i' != |ls|
          invariant IsBlock(ls, i, i') && out == BlockText(ls[i..i'])
          decreases |ls| - i'
        {
          CodeLineSpec(ls, i');
          ghost var before := i';
          contents, i' := IsCodeBlockLine(ls, i');
          if contents.Some? {
            BlockGrows(ls, i, before, contents.value, i');
            out := out + (contents.value + "\n");
          } else {
            BlockEnds(ls, i, i');
            break;
          }
        }
        r := Some(out);
      }
    }
  }

  lemma BlockEnds(ls: seq<Line>, i: nat, j: nat)
    requires IsBlock(ls, i, j) && j < |ls| && CodeLine(ls, j).None?
    ensures IsLongestBlock(ls, i, j)
  {
    CodeLineSpec(ls, j);
    var m :| StopsAt(ls, j, m);
    forall k | j < k <= |ls| ensures !IsBlock(ls, i, k) {
      if k <= m {
        assert ls[k - 1].Blank?;
      } else {
        assert !ls[m].Blank? && !IsCode(ls[m]);
      }
    }
  }

  // ---- Indented text ----

  /** A line of text indented by four blanks, or a blank line. */
  function Indented(x: Option<string>): Line {
    match x
    case None => Blank
    case Some(s) => Text("    " + s)
  }

  function AllIndented(xs: seq<Option<string>>): (ls: seq<Line>)
    ensures |ls| == |xs| && forall i | 0 <= i < |xs| :: ls[i] == Indented(xs[i])
  {
    if xs == [] then [] else AllIndented(xs[..|xs| - 1]) + [Indented(xs[|xs| - 1])]
  }

  /** The lines as text, each with its newline. */
  function Lined(xs: seq<Option<string>>): string {
    if xs == [] then ""
    else
      var x := xs[|xs| - 1];
      Lined(xs[..|xs| - 1]) + (if x.Some? then x.value + "\n" else "\n")
  }

  lemma IndentedText(x: Option<string>)
    ensures IsCode(Indented(x)) <==> x.Some?
    ensures LineText(Indented(x)) == if x.Some? then x.value + "\n" else "\n"
  {
    if x.Some? {
      var t := "    " + x.value;
      assert t[..4] == "    " && t[4..] == x.value;
    } else {
      assert "" + "\n" == "\n";
    }
  }

  lemma {:induction false} BlockTextIndented(xs: seq<Option<string>>)
    ensures BlockText(AllIndented(xs)) == Lined(xs)
    decreases |xs|
  {
    if xs != [] {
      var init, x := xs[..|xs| - 1], xs[|xs| - 1];
      BlockTextIndented(init);
      IndentedText(x);
      assert AllIndented(xs)[..|xs| - 1] == AllIndented(init);
    }
  }

  /** Round trip: text indented by four blanks, which starts and ends with a line, is a block, and stands for that text. */
  lemma BlockRoundTrip(xs: seq<Option<string>>)
    requires xs != [] && xs[0].Some? && xs[|xs| - 1].Some?
    ensures IsLongestBlock(AllIndented(xs), 0, |xs|) && BlockText(AllIndented(xs)[0..|xs|]) == Lined(xs)
  {
    var ls := AllIndented(xs);
    forall k | 0 <= k < |ls| ensures ls[k].Blank? || IsCode(ls[k]) {
      IndentedText(xs[k]);
    }
    IndentedText(xs[0]);
    IndentedText(xs[|xs| - 1]);
    BlockTextIndented(xs);
    assert ls[0..|xs|] == ls;
  }
}
