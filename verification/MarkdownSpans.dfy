/**
 The passes of `RawText::processSpanElements` over the working text: escaping, and the passes that
 replace matches by placeholders while a table of replacements grows.
 */
module MarkdownSpans {
  import opened Wrappers
  import opened Text
  import opened MarkdownPlaceholders

  // ---- Escaping ----

  function EscapeIndex(c: char): (e: int)
    ensures e < |ESCAPABLE| && (e >= 0 ==> ESCAPABLE[e] == c)
    ensures e < 0 <==> NoChar(ESCAPABLE, c)
  {
    var e := Find(ESCAPABLE, [c]);
    if e >= 0 then CutAt(ESCAPABLE, c); e else AbsentIsPlain(ESCAPABLE, c); e
  }

  function EscapeMark(e: nat): Segment {
    Placeholder(Escaped(e), "escaped")
  }

  /** A backslash before an escapable character becomes a placeholder; any other backslash stays. */
  function Escape(s: string): string
    decreases |s|
  {
    if s == "" then ""
    else if s[0] != '\\' then [s[0]] + Escape(s[1..])
    else if |s| == 1 then "\\"
    else (if EscapeIndex(s[1]) >= 0 then Spelled(EscapeMark(EscapeIndex(s[1]))) else ['\\', s[1]]) + Escape(s[2..])
  }

  lemma {:induction false} EscapePlain(a: string, rest: string)
    requires NoChar(a, '\\')
    ensures Escape(a + rest) == a + Escape(rest)
    decreases |a|
  {
    if a == "" {
      assert a + rest == rest;
    } else {
      assert (a + rest)[1..] == a[1..] + rest;
      EscapePlain(a[1..], rest);
    }
  }

  lemma CutAt(s: string, c: char)
    requires Find(s, [c]) >= 0
    ensures Find(s, [c]) < |s| && s[Find(s, [c])] == c && NoChar(s[..Find(s, [c])], c)
  {
    FindFirst(s, [c]);
    var i := Find(s, [c]);
    assert s[i..][0] == c;
    forall j | 0 <= j < i ensures s[j] != c {
      assert !OccursAt(s, [c], j);
      assert s[j..] != "" && ([c] <= s[j..] <==> s[j..][0] == c);
    }
  }

  lemma AbsentIsPlain(s: string, c: char)
    requires Find(s, [c]) < 0
    ensures NoChar(s, c)
  {
    FindFirst(s, [c]);
    forall j | 0 <= j < |s| ensures s[j] != c {
      assert !OccursAt(s, [c], j);
      assert [c] <= s[j..] <==> s[j..][0] == c;
    }
  }

  /** What the loop does at a backslash that is not the last character. */
  method EscapeOne(left: string) returns (out: string)
    requires |left| >= 2 && left[0] == '\\'
    ensures Escape(left) == out + Escape(left[2..])
  {
    var e := EscapeIndex(left[1]);
    if e >= 0 {
      out := Spelled(EscapeMark(e));
    } else {
      out := ['\\', left[1]];
    }
  }

  /** `_processEscapedCharacters`: the loop over the backslashes. */
  method ProcessEscapedCharacters(src: string) returns (tgt: string)
    ensures tgt == Escape(src)
  {
    tgt := "";
    var left := src;
    while true
      invariant Escape(src) == tgt + Escape(left)
      decreases |left|
    {
      var i := Find(left, ['\\']);
      if i < 0 {
        AbsentIsPlain(left, '\\');
        EscapePlain(left, "");
        assert left + "" == left && left + Escape("") == left;
        return tgt + left;
      }
      CutAt(left, '\\');
      assert left == left[..i] + left[i..];
      EscapePlain(left[..i], left[i..]);
      Append(tgt, left[..i], Escape(left[i..]));
      tgt := tgt + left[..i];
      left := left[i..];
      if |left| == 1 {
        return tgt + "\\";
      }
      var out := EscapeOne(left);
      Append(tgt, out, Escape(left[2..]));
      tgt := tgt + out;
      left := left[2..];
    }
  }

  predicate PlainTag(g: Segment) {
    g.Placeholder? ==> NoChar(g.tag, '\\')
  }

  /** The working text of a pass: clean, with every reference inside the table. */
  predicate Good(segs: seq<Segment>, size: nat) {
    Clean(segs) && Inside(segs, size) && forall i | 0 <= i < |segs| :: PlainTag(segs[i])
  }

  function EscapeSegments(segs: seq<Segment>): seq<Segment> {
    if segs == [] then []
    else if segs[0] != Char('\\') || |segs| == 1 then [segs[0]] + EscapeSegments(segs[1..])
    else if segs[1].Char? && EscapeIndex(segs[1].c) >= 0 then
      [EscapeMark(EscapeIndex(segs[1].c))] + EscapeSegments(segs[2..])
    else segs[..2] + EscapeSegments(segs[2..])
  }

  lemma SpelledPlain(g: Segment)
    requires PlainTag(g) && g != Char('\\')
    ensures NoChar(Spelled(g), '\\')
  {
  }

  lemma FlatCons(g: Segment, segs: seq<Segment>)
    ensures Flat([g] + segs) == Spelled(g) + Flat(segs)
  {
    assert ([g] + segs)[1..] == segs;
  }

  lemma EscapeMarked(c: char, rest: string)
    requires EscapeIndex(c) >= 0
    ensures Escape(['\\'] + ([c] + rest)) == Spelled(EscapeMark(EscapeIndex(c))) + Escape(rest)
  {
    var s := ['\\'] + ([c] + rest);
    assert s[1] == c && s[2..] == rest;
  }

  lemma EscapeUnmarked(w: string, rest: string)
    requires w != "" && NoChar(w[1..], '\\') && EscapeIndex(w[0]) < 0
    ensures Escape(['\\'] + (w + rest)) == ['\\'] + (w + Escape(rest))
  {
    var s := ['\\'] + (w + rest);
    assert s[1] == w[0] && s[2..] == w[1..] + rest;
    EscapePlain(w[1..], rest);
    HeadMoved('\\', w, Escape(rest));
  }

  lemma HeadMoved(c: char, w: string, rest: string)
    requires w != ""
    ensures [c, w[0]] + (w[1..] + rest) == [c] + (w + rest)
  {
  }

  lemma FlatPair(g: Segment, tail: seq<Segment>)
    ensures Flat([Char('\\')] + ([g] + tail)) == ['\\'] + (Spelled(g) + Flat(tail))
  {
    FlatCons(Char('\\'), [g] + tail);
    FlatCons(g, tail);
  }

  lemma EscapeSegmentsPair(g: Segment, tail: seq<Segment>)
    ensures EscapeSegments([Char('\\')] + ([g] + tail)) ==
            if g.Char? && EscapeIndex(g.c) >= 0 then [EscapeMark(EscapeIndex(g.c))] + EscapeSegments(tail)
            else [Char('\\')] + ([g] + EscapeSegments(tail))
  {
    var segs := [Char('\\')] + ([g] + tail);
    assert segs[1] == g && segs[2..] == tail;
    assert segs[..2] + EscapeSegments(tail) == [Char('\\')] + ([g] + EscapeSegments(tail));
  }

  lemma SpelledUnmarked(g: Segment)
    requires PlainTag(g) && (g.Char? ==> EscapeIndex(g.c) < 0)
    ensures NoChar(Spelled(g)[1..], '\\') && EscapeIndex(Spelled(g)[0]) < 0
  {
    if g.Placeholder? {
      SpelledPlain(g);
      assert Spelled(g)[0] == MARK;
      assert NoChar(ESCAPABLE, MARK);
    }
  }

  lemma EscapePair(g: Segment, tail: seq<Segment>)
    requires PlainTag(g) && Escape(Flat(tail)) == Flat(EscapeSegments(tail))
    ensures Escape(['\\'] + (Spelled(g) + Flat(tail))) == Flat(EscapeSegments([Char('\\')] + ([g] + tail)))
  {
    EscapeSegmentsPair(g, tail);
    if g.Char? && EscapeIndex(g.c) >= 0 {
      EscapeMarked(g.c, Flat(tail));
      FlatCons(EscapeMark(EscapeIndex(g.c)), EscapeSegments(tail));
    } else {
      SpelledUnmarked(g);
      EscapeUnmarked(Spelled(g), Flat(tail));
      FlatPair(g, EscapeSegments(tail));
    }
  }

  /** Escaping works on the characters of the text and leaves its placeholders alone. */
  lemma {:induction false} EscapeFlat(segs: seq<Segment>)
    requires forall i | 0 <= i < |segs| :: PlainTag(segs[i])
    ensures Escape(Flat(segs)) == Flat(EscapeSegments(segs))
  {
    if segs != [] {
      if segs[0] != Char('\\') || |segs| == 1 {
        EscapeFlat(segs[1..]);
        FlatCons(segs[0], EscapeSegments(segs[1..]));
        if segs[0] != Char('\\') {
          SpelledPlain(segs[0]);
          EscapePlain(Spelled(segs[0]), Flat(segs[1..]));
        }
      } else {
        EscapeFlat(segs[2..]);
        EscapePair(segs[1], segs[2..]);
        FlatPair(segs[1], segs[2..]);
        assert segs == [Char('\\')] + ([segs[1]] + segs[2..]);
      }
    }
  }

  lemma GoodJoin(a: seq<Segment>, b: seq<Segment>, size: nat)
    requires Good(a, size) && Good(b, size)
    ensures Good(a + b, size)
  {
  }

  lemma {:induction false} EscapeGood(segs: seq<Segment>, size: nat)
    requires Good(segs, size)
    ensures Good(EscapeSegments(segs), size)
  {
    if segs != [] {
      if segs[0] != Char('\\') || |segs| == 1 {
        EscapeGood(segs[1..], size);
        GoodJoin([segs[0]], EscapeSegments(segs[1..]), size);
      } else {
        EscapeGood(segs[2..], size);
        if segs[1].Char? && EscapeIndex(segs[1].c) >= 0 {
          GoodJoin([EscapeMark(EscapeIndex(segs[1].c))], EscapeSegments(segs[2..]), size);
        } else {
          GoodJoin(segs[..2], EscapeSegments(segs[2..]), size);
        }
      }
    }
  }

  lemma RestorePair(c: char, table: seq<string>)
    requires EscapeIndex(c) >= 0
    ensures RestoreSegments([Char('\\'), Char(c)], table) == RestoreSegment(EscapeMark(EscapeIndex(c)), table)
  {
    assert [Char('\\'), Char(c)][1..] == [Char(c)] && [Char(c)][1..] == [];
    assert RestoreSegments([Char(c)], table) == Some([c]) by {
      JoinEmpty(Some([c]));
    }
    assert RestoreSegments([Char('\\'), Char(c)], table) == Join(Some(['\\']), Some([c]));
    assert EscapedChar(EscapeIndex(c)) == Some(c);
    assert Resolve(Escaped(EscapeIndex(c)), table) == Some("\\" + [c]);
  }

  /** Escaping does not change what the working text stands for. */
  lemma {:induction false} EscapeRestores(segs: seq<Segment>, table: seq<string>)
    ensures RestoreSegments(EscapeSegments(segs), table) == RestoreSegments(segs, table)
  {
    if segs != [] {
      if segs[0] != Char('\\') || |segs| == 1 {
        EscapeRestores(segs[1..], table);
      } else {
        EscapeRestores(segs[2..], table);
        assert segs == segs[..2] + segs[2..];
        RestoreJoin(segs[..2], segs[2..], table);
        if segs[1].Char? && EscapeIndex(segs[1].c) >= 0 {
          RestorePair(segs[1].c, table);
          assert segs[..2] == [Char('\\'), Char(segs[1].c)];
        } else {
          RestoreJoin(segs[..2], EscapeSegments(segs[2..]), table);
        }
      }
    }
  }

  /** The escape round trip, on text that may already hold placeholders. */
  lemma EscapeRoundTrip(segs: seq<Segment>, table: seq<string>)
    requires Good(segs, |table|)
    ensures Restore(Escape(Flat(segs)), table) == Restore(Flat(segs), table)
    ensures Restore(Flat(segs), table).Some?
  {
    EscapeFlat(segs);
    EscapeGood(segs, |table|);
    EscapeRestores(segs, table);
    RestoreFlat(segs, table);
    RestoreFlat(EscapeSegments(segs), table);
  }

  /** The escape round trip on any text free of marks. */
  lemma EscapeText(s: string, table: seq<string>)
    requires NoChar(s, MARK)
    ensures Restore(Escape(s), table) == Some(s)
  {
    FlatChars(s);
    EscapeRoundTrip(Chars(s), table);
    RestoreFlat(Chars(s), table);
    RestoreChars(s, table);
  }

  // ---- What is left in the text ----

  /** The characters that a backslash escapes. */
  predicate Escapable(c: char) {
    c in {'\\', '`', '*', '_', '{', '}', '[', ']', '(', ')', '#', '+', '-', '.', '!', '>'}
  }

  lemma EscapableListed(c: char)
    ensures Escapable(c) <==> EscapeIndex(c) >= 0
  {
    if Escapable(c) {
      var k := if c == '\\' then 0 else if c == '`' then 1 else if c == '*' then 2 else if c == '_' then 3
               else if c == '{' then 4 else if c == '}' then 5 else if c == '[' then 6 else if c == ']' then 7
               else if c == '(' then 8 else if c == ')' then 9 else if c == '#' then 10 else if c == '+' then 11
               else if c == '-' then 12 else if c == '.' then 13 else if c == '!' then 14 else 15;
      assert ESCAPABLE[k] == c;
    }
  }

  /** A backslash with an escapable character behind it. */
  predicate EscapeAt(s: string, i: int) {
    0 <= i < |s| - 1 && s[i] == '\\' && Escapable(s[i + 1])
  }

  ghost predicate NoEscapes(s: string) {
    forall i :: !EscapeAt(s, i)
  }

  lemma NoEscapesJoin(a: string, b: string)
    requires NoEscapes(a) && NoEscapes(b) && (a == "" || a[|a| - 1] != '\\')
    ensures NoEscapes(a + b)
  {
    forall i ensures !EscapeAt(a + b, i) {
      if EscapeAt(a + b, i) {
        assert if i < |a| - 1 then EscapeAt(a, i) else EscapeAt(b, i - |a|);
      }
    }
  }

  lemma MarkHasNoEscapes(e: nat)
    ensures NoChar(Spelled(EscapeMark(e)), '\\') && NoEscapes(Spelled(EscapeMark(e)))
  {
    SpelledPlain(EscapeMark(e));
  }

  /** No escape is left in an escaped text: emphasis and links do not see the characters. */
  lemma {:induction false} NoEscapesLeft(s: string)
    ensures NoEscapes(Escape(s))
    decreases |s|
  {
    if s == "" {
    } else if s[0] != '\\' {
      NoEscapesLeft(s[1..]);
      NoEscapesJoin([s[0]], Escape(s[1..]));
    } else if |s| > 1 {
      var c := s[1];
      NoEscapesLeft(s[2..]);
      EscapableListed(c);
      if EscapeIndex(c) >= 0 {
        MarkHasNoEscapes(EscapeIndex(c));
        NoEscapesJoin(Spelled(EscapeMark(EscapeIndex(c))), Escape(s[2..]));
      } else {
        NoEscapesJoin(['\\', c], Escape(s[2..]));
      }
    }
  }
}
