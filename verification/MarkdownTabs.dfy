/** What reading a line does to its characters: tabs become blanks, everything else is kept. */
module MarkdownTabs {
  import opened MarkdownLines

  predicate OnlyBlanks(s: string) {
    forall i | 0 <= i < |s| :: s[i] in {' ', '\t'}
  }

  lemma {:induction false} ExpandSnoc(a: string, c: char, line: string, initial: bool, perTab: nat)
    requires perTab > 0
    ensures Expand(a + [c], line, initial, perTab)
         == AddChar(Expand(a, line, initial, perTab), initial && OnlyBlanks(a), c, perTab)
    decreases |a|
  {
    if a == "" {
      assert (a + [c])[1..] == "";
    } else {
      var d, b := a[0], a[1..];
      assert (a + [c])[1..] == b + [c] && (a + [c])[0] == d;
      ExpandSnoc(b, c, AddChar(line, initial, d, perTab), StillInitial(initial, d), perTab);
      assert a == [d] + b;
      assert OnlyBlanks(a) <==> d in {' ', '\t'} && OnlyBlanks(b);
    }
  }

  /** `r` is `line` with blanks up to the next multiple of the width behind it. */
  ghost predicate PaddedTo(line: string, r: string, width: nat)
    requires width > 0
  {
    line < r && |r| % width == 0 && |r| <= |line| + width && forall j | |line| <= j < |r| :: r[j] == ' '
  }

  /**
   What becomes of one more character, from the text in front of it: a tab fills up with blanks, to the next multiple
   of 4 if only blanks and tabs precede it and of the configured width otherwise; any other is kept.
   */
  lemma CharExactly(front: string, c: char, perTab: nat)
    requires perTab > 0
    ensures ExpandLine("", perTab) == ""
    ensures c != '\t' ==> ExpandLine(front + [c], perTab) == ExpandLine(front, perTab) + [c]
    ensures c == '\t' ==>
      PaddedTo(ExpandLine(front, perTab), ExpandLine(front + [c], perTab), if OnlyBlanks(front) then 4 else perTab)
  {
    ExpandSnoc(front, c, "", true, perTab);
    var line := ExpandLine(front, perTab);
    TabStops(line, OnlyBlanks(front), perTab);
  }

  /** A line without tabs is read as it is. */
  lemma {:induction false} PlainLine(s: string, perTab: nat)
    requires perTab > 0 && Untabbed(s)
    ensures ExpandLine(s, perTab) == s
    decreases |s|
  {
    CharExactly("", ' ', perTab);
    if s != "" {
      var n := |s| - 1;
      PlainLine(s[..n], perTab);
      CharExactly(s[..n], s[n], perTab);
      assert s == s[..n] + [s[n]];
    }
  }

  /** Lines without tabs are read as they are, in every convention. */
  lemma PlainLines(lines: seq<string>, last: string, eol: string, perTab: nat)
    requires perTab > 0 && IsLineEnd(eol) && Untabbed(last) && forall i | 0 <= i < |lines| :: Untabbed(lines[i])
    ensures ReadLines(Ended(lines, eol) + last, perTab) == lines + (if last == "" then [] else [last])
  {
    AnyConvention(lines, last, eol, perTab);
    PlainLine(last, perTab);
    forall i | 0 <= i < |lines| ensures ExpandLine(lines[i], perTab) == lines[i] {
      PlainLine(lines[i], perTab);
    }
  }

  predicate Ink(c: char) {
    c != ' ' && c != '\t'
  }

  /** The characters that are neither blanks nor tabs. */
  function InkOf(s: string): string {
    if s == "" then "" else InkOf(s[..|s| - 1]) + (if Ink(s[|s| - 1]) then [s[|s| - 1]] else "")
  }

  lemma {:induction false} PaddingHasNoInk(s: string, r: string)
    requires s <= r && forall j | |s| <= j < |r| :: r[j] == ' '
    ensures InkOf(r) == InkOf(s)
    decreases |r|
  {
    if |r| > |s| {
      var n := |r| - 1;
      PaddingHasNoInk(s, r[..n]);
      assert !Ink(r[n]);
    } else {
      assert r == s;
    }
  }

  /** Whatever the tabs, all other characters but blanks come out in order. */
  lemma {:induction false} InkKept(s: string, perTab: nat)
    requires perTab > 0
    ensures InkOf(ExpandLine(s, perTab)) == InkOf(s)
    decreases |s|
  {
    CharExactly("", ' ', perTab);
    if s != "" {
      var n := |s| - 1;
      var front, c := s[..n], s[n];
      InkKept(front, perTab);
      CharExactly(front, c, perTab);
      assert s == front + [c];
      var p := ExpandLine(front, perTab);
      if c == '\t' {
        PaddingHasNoInk(p, ExpandLine(s, perTab));
      } else {
        assert (p + [c])[..|p|] == p;
      }
    }
  }
}
