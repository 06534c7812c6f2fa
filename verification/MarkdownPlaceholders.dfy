/**
 The placeholders by which the span passes of the Markdown renderer set pieces of text aside, and how
 they are found again.
 */
module MarkdownPlaceholders {
  import opened Wrappers
  import opened Text
  import opened Decimals

  const MARK: char := '\U{01}'
  const ESCAPABLE: string := "\\`*_{}[]()#+-.!>"

  /** What a placeholder refers to. A `#` without a number is `Malformed`: reading it throws. */
  datatype Ref = Eaten | Malformed | Escaped(index: nat) | Item(slot: nat)

  datatype Segment = Char(c: char) | Placeholder(ref: Ref, tag: string)

  predicate Hashed(ref: Ref) {
    ref.Malformed? || ref.Escaped?
  }

  function Opening(hash: bool): string {
    if hash then [MARK, '@', '#'] else [MARK, '@']
  }

  function Digits(ref: Ref): (s: string)
    ensures forall i | 0 <= i < |s| :: IsDigit(s[i])
  {
    match ref
    case Eaten => ""
    case Malformed => ""
    case Escaped(k) => Decimal(k)
    case Item(n) => Decimal(n)
  }

  function Spelled(g: Segment): (s: string)
    ensures s != ""
  {
    if g.Char? then [g.c] else Opening(Hashed(g.ref)) + Digits(g.ref) + "@" + g.tag + [MARK]
  }

  /** The working text that some segments stand for. */
  function Flat(segs: seq<Segment>): string {
    if segs == [] then "" else Spelled(segs[0]) + Flat(segs[1..])
  }

  /** A segment of a text whose characters were free of marks, and of placeholders with nonempty labels. */
  predicate CleanSegment(g: Segment) {
    if g.Char? then g.c != MARK else g.tag != "" && NoChar(g.tag, MARK)
  }

  predicate Clean(segs: seq<Segment>) {
    forall i | 0 <= i < |segs| :: CleanSegment(segs[i])
  }

  function Chars(s: string): (segs: seq<Segment>)
    ensures |segs| == |s| && forall i | 0 <= i < |s| :: segs[i] == Char(s[i])
  {
    if s == "" then [] else [Char(s[0])] + Chars(s[1..])
  }

  lemma {:induction false} FlatJoin(a: seq<Segment>, b: seq<Segment>)
    ensures Flat(a + b) == Flat(a) + Flat(b)
  {
    if a == [] {
      assert a + b == b;
    } else {
      assert (a + b)[1..] == a[1..] + b;
      FlatJoin(a[1..], b);
      Append(Spelled(a[0]), Flat(a[1..]), Flat(b));
    }
  }

  lemma {:induction false} FlatChars(s: string)
    ensures Flat(Chars(s)) == s
  {
    if s != "" {
      assert Chars(s)[1..] == Chars(s[1..]);
      FlatChars(s[1..]);
      assert s == [s[0]] + s[1..];
    }
  }

  // ---- Finding placeholders ----

  function DigitsPrefix(s: string): (n: nat)
    ensures n <= |s| && (forall i | 0 <= i < n :: IsDigit(s[i])) && (n < |s| ==> !IsDigit(s[n]))
  {
    if s == "" || !IsDigit(s[0]) then 0 else 1 + DigitsPrefix(s[1..])
  }

  function RefOf(hash: bool, digits: string): Ref
    requires forall i | 0 <= i < |digits| :: IsDigit(digits[i])
  {
    if digits == "" then if hash then Malformed else Eaten
    else if hash then Escaped(NumberOf(digits)) else Item(NumberOf(digits))
  }

  /** The end of the shortest nonempty label and of its mark, if there is one. */
  function LabelEnd(s: string): (r: Option<nat>)
    ensures r.Some? ==> 1 < r.value <= |s|
  {
    if s == "" then None
    else
      var j := Find(s[1..], [MARK]);
      if j < 0 || j + 2 > |s| then None else Some(j + 2)
  }

  /** The placeholder at the start of the text, and its length. */
  function MatchAt(s: string): (m: Option<(Segment, nat)>)
    ensures m.Some? ==> 0 < m.value.1 <= |s| && m.value.0.Placeholder?
  {
    if |s| < 3 || s[0] != MARK || s[1] != '@' then None
    else
      var hash := s[2] == '#';
      var from := if hash then 3 else 2;
      var to := from + DigitsPrefix(s[from..]);
      if to == |s| || s[to] != '@' then None
      else
        var end := LabelEnd(s[to + 1..]);
        if end.None? then None
        else
          Some((Placeholder(RefOf(hash, s[from..to]), s[to + 1..][..end.value - 1]), to + 1 + end.value))
  }

  /** The leftmost match: where it starts, what it is and how long it is. */
  function FirstMatch(s: string): (r: Option<(nat, Segment, nat)>)
    ensures r.Some? ==> r.value.0 + r.value.2 <= |s| && 0 < r.value.2 && r.value.1.Placeholder?
  {
    if s == "" then None
    else
      match MatchAt(s)
      case Some(m) => Some((0, m.0, m.1))
      case None =>
        match FirstMatch(s[1..])
        case None => None
        case Some((i, g, n)) => Some((i + 1, g, n))
  }

  /** The text as characters and placeholders, leftmost match first. */
  function Segments(s: string): (r: seq<Segment>)
    decreases |s|
  {
    if s == "" then []
    else
      match MatchAt(s)
      case Some(m) => [m.0] + Segments(s[m.1..])
      case None => [Char(s[0])] + Segments(s[1..])
  }

  lemma CharsStep(s: string, rest: seq<Segment>)
    requires s != ""
    ensures Chars(s) + rest == [Char(s[0])] + (Chars(s[1..]) + rest)
  {
  }

  lemma {:induction false} NoMatchSegments(s: string)
    requires FirstMatch(s).None?
    ensures Segments(s) == Chars(s)
  {
    if s != "" {
      NoMatchSegments(s[1..]);
    }
  }

  lemma SameParts(s: string, tail: string, i: nat, j: nat, n: nat)
    requires s != "" && tail == s[1..] && i == j + 1 && i + n <= |s|
    ensures tail[j + n..] == s[i + n..] && s[..i][1..] == tail[..j] && s[..i][0] == s[0]
  {
  }

  lemma {:induction false} FirstMatchSegments(s: string, i: nat, g: Segment, n: nat)
    requires FirstMatch(s) == Some((i, g, n))
    ensures Segments(s) == Chars(s[..i]) + ([g] + Segments(s[i + n..]))
  {
    if MatchAt(s).Some? {
      assert Chars(s[..0]) == [];
    } else {
      var tail, j := s[1..], i - 1;
      FirstMatchSegments(tail, j, g, n);
      SameParts(s, tail, i, j, n);
      CharsStep(s[..i], [g] + Segments(s[i + n..]));
    }
  }

  lemma {:induction false} DigitsPrefixIs(a: string, rest: string)
    requires (forall i | 0 <= i < |a| :: IsDigit(a[i])) && rest != "" && !IsDigit(rest[0])
    ensures DigitsPrefix(a + rest) == |a|
  {
    if a == "" {
      assert a + rest == rest;
    } else {
      assert (a + rest)[1..] == a[1..] + rest;
      DigitsPrefixIs(a[1..], rest);
    }
  }

  lemma LabelEndIs(tag: string, rest: string)
    requires tag != "" && NoChar(tag, MARK)
    ensures LabelEnd(tag + [MARK] + rest) == Some(|tag| + 1)
    ensures (tag + [MARK] + rest)[..|tag|] == tag && (tag + [MARK] + rest)[|tag| + 1..] == rest
  {
    var s := tag + [MARK] + rest;
    FindChar(s[1..], tag[1..], MARK, rest);
  }

  lemma RefOfDigits(ref: Ref)
    ensures RefOf(Hashed(ref), Digits(ref)) == ref
  {
    if ref.Escaped? {
      DecimalNumber(ref.index);
    } else if ref.Item? {
      DecimalNumber(ref.slot);
    }
  }

  lemma SpelledParts(g: Segment, rest: string)
    requires g.Placeholder?
    ensures Spelled(g) + rest == Opening(Hashed(g.ref)) + (Digits(g.ref) + (['@'] + (g.tag + [MARK] + rest)))
  {
    var prefix, digits, t := Opening(Hashed(g.ref)), Digits(g.ref), g.tag + [MARK];
    Append(prefix + digits + "@", g.tag, [MARK]);
    Append(prefix + digits, "@", t);
    Append(prefix + digits, "@" + t, rest);
    Append(prefix, digits, "@" + t + rest);
    Append("@", t, rest);
  }

  /** The text of a placeholder reads back as that placeholder. */
  lemma MatchSpelled(g: Segment, rest: string)
    requires g.Placeholder? && CleanSegment(g)
    ensures MatchAt(Spelled(g) + rest) == Some((g, |Spelled(g)|))
  {
    RefOfDigits(g.ref);
    SpelledParts(g, rest);
    MatchParts(Spelled(g) + rest, Hashed(g.ref), Digits(g.ref), g.tag, rest, g, |Spelled(g)|);
  }

  lemma PartsAt(s: string, a: string, b: string, c: char, rest: string)
    requires s == a + (b + ([c] + rest))
    ensures s[|a|..] == b + ([c] + rest) && |s| == |a| + |b| + 1 + |rest|
    ensures s[|a|..|a| + |b|] == b && s[|a| + |b|] == c && s[|a| + |b| + 1..] == rest
    ensures b != "" ==> s[|a|] == b[0]
  {
  }

  lemma MatchParts(s: string, hash: bool, digits: string, tag: string, rest: string, g: Segment, n: nat)
    requires (forall i | 0 <= i < |digits| :: IsDigit(digits[i])) && tag != "" && NoChar(tag, MARK)
    requires s == Opening(hash) + (digits + (['@'] + (tag + [MARK] + rest)))
    requires g == Placeholder(RefOf(hash, digits), tag) && n + |rest| == |s|
    ensures MatchAt(s) == Some((g, n))
  {
    var from := |Opening(hash)|;
    PartsAt(s, Opening(hash), digits, '@', tag + [MARK] + rest);
    DigitsPrefixIs(digits, ['@'] + (tag + [MARK] + rest));
    LabelEndIs(tag, rest);
    assert s[0] == MARK && s[1] == '@' && (s[2] == '#') == hash;
  }

  lemma SegmentsCons(g: Segment, rest: string)
    requires CleanSegment(g)
    ensures Segments(Spelled(g) + rest) == [g] + Segments(rest)
  {
    var s := Spelled(g) + rest;
    assert s[|Spelled(g)|..] == rest;
    if g.Placeholder? {
      MatchSpelled(g, rest);
    } else {
      assert s[0] == g.c && MatchAt(s).None?;
    }
  }

  /** Writing segments out and finding them again gives the segments. */
  lemma {:induction false} SegmentsOfFlat(segs: seq<Segment>)
    requires Clean(segs)
    ensures Segments(Flat(segs)) == segs
  {
    if segs != [] {
      SegmentsCons(segs[0], Flat(segs[1..]));
      SegmentsOfFlat(segs[1..]);
      assert segs == [segs[0]] + segs[1..];
    }
  }

  // ---- Restoring ----

  function EscapedChar(k: nat): Option<char> {
    if k < |ESCAPABLE| then Some(ESCAPABLE[k]) else if k == |ESCAPABLE| then Some('\0') else None
  }

  /** What a reference stands for; nothing where the source throws, indexes out of range or asserts. */
  function Resolve(ref: Ref, table: seq<string>): Option<string> {
    match ref
    case Eaten => Some("")
    case Malformed => None
    case Escaped(k) => if EscapedChar(k).Some? then Some("\\" + [EscapedChar(k).value]) else None
    case Item(n) => if n < |table| then Some(table[n]) else None
  }

  function Join(a: Option<string>, b: Option<string>): Option<string> {
    if a.Some? && b.Some? then Some(a.value + b.value) else None
  }

  function RestoreSegment(g: Segment, table: seq<string>): Option<string> {
    if g.Char? then Some([g.c]) else Resolve(g.ref, table)
  }

  function RestoreSegments(segs: seq<Segment>, table: seq<string>): Option<string> {
    if segs == [] then Some("") else Join(RestoreSegment(segs[0], table), RestoreSegments(segs[1..], table))
  }

  function Restore(s: string, table: seq<string>): Option<string> {
    RestoreSegments(Segments(s), table)
  }

  lemma {:induction false} RestoreJoin(a: seq<Segment>, b: seq<Segment>, table: seq<string>)
    ensures RestoreSegments(a + b, table) == Join(RestoreSegments(a, table), RestoreSegments(b, table))
  {
    if a == [] {
      assert a + b == b;
      JoinEmpty(RestoreSegments(b, table));
    } else {
      assert (a + b)[1..] == a[1..] + b;
      RestoreJoin(a[1..], b, table);
      JoinAgain(RestoreSegment(a[0], table), RestoreSegments(a[1..], table), RestoreSegments(b, table));
    }
  }

  lemma JoinEmpty(a: Option<string>)
    ensures Join(Some(""), a) == a && Join(a, Some("")) == a
  {
    if a.Some? {
      assert "" + a.value == a.value && a.value + "" == a.value;
    }
  }

  lemma JoinAgain(a: Option<string>, b: Option<string>, c: Option<string>)
    ensures Join(a, Join(b, c)) == Join(Join(a, b), c)
  {
    if a.Some? && b.Some? && c.Some? {
      Append(a.value, b.value, c.value);
    }
  }

  lemma {:induction false} RestoreChars(s: string, table: seq<string>)
    ensures RestoreSegments(Chars(s), table) == Some(s)
  {
    if s != "" {
      var tail := s[1..];
      RestoreChars(tail, table);
      assert Chars(s)[0] == Char(s[0]) && Chars(s)[1..] == Chars(tail);
      assert s == [s[0]] + tail;
    }
  }

  lemma RestoreNoMatch(s: string, table: seq<string>)
    requires FirstMatch(s).None?
    ensures Restore(s, table) == Some(s)
  {
    NoMatchSegments(s);
    RestoreChars(s, table);
  }

  lemma RestoreOne(g: Segment, table: seq<string>)
    ensures RestoreSegments([g], table) == RestoreSegment(g, table)
  {
    assert [g][1..] == [];
    JoinEmpty(RestoreSegment(g, table));
  }

  lemma RestoreFirst(s: string, table: seq<string>, i: nat, g: Segment, n: nat)
    requires FirstMatch(s) == Some((i, g, n))
    ensures Restore(s, table) == Join(Join(Some(s[..i]), Resolve(g.ref, table)), Restore(s[i + n..], table))
  {
    var pre, rest := Chars(s[..i]), Segments(s[i + n..]);
    FirstMatchSegments(s, i, g, n);
    Append(pre, [g], rest);
    RestoreJoin(pre + [g], rest, table);
    RestoreJoin(pre, [g], table);
    RestoreChars(s[..i], table);
    RestoreOne(g, table);
  }

  /** `_restoreProcessedItems`: the loop over the leftmost matches. */
  method RestoreProcessedItems(src: string, table: seq<string>) returns (r: Option<string>)
    ensures r == Restore(src, table)
  {
    var out, left := "", src;
    JoinEmpty(Restore(src, table));
    while true
      invariant Restore(src, table) == Join(Some(out), Restore(left, table))
      decreases |left|
    {
      var m := FirstMatch(left);
      if m.None? {
        RestoreNoMatch(left, table);
        return Some(out + left);
      }
      var (i, g, n) := m.value;
      RestoreFirst(left, table, i, g, n);
      var text := Resolve(g.ref, table);
      if text.None? {
        return None;
      }
      JoinAgain(Some(out), Some(left[..i] + text.value), Restore(left[i + n..], table));
      out := out + (left[..i] + text.value);
      left := left[i + n..];
    }
  }

  /** Every table reference of the text is inside the table, and so is every escape. */
  predicate RefInside(ref: Ref, size: nat) {
    match ref
    case Eaten => true
    case Malformed => false
    case Escaped(k) => k <= |ESCAPABLE|
    case Item(n) => n < size
  }

  predicate Inside(segs: seq<Segment>, size: nat) {
    forall i | 0 <= i < |segs| && segs[i].Placeholder? :: RefInside(segs[i].ref, size)
  }

  /** Restoring succeeds exactly when no reference of the text leaves the table. */
  lemma {:induction false} RestoresIffInside(segs: seq<Segment>, table: seq<string>)
    ensures RestoreSegments(segs, table).Some? <==> Inside(segs, |table|)
  {
    if segs != [] {
      RestoresIffInside(segs[1..], table);
      assert segs == [segs[0]] + segs[1..];
    }
  }

  /** A text written as segments is restored from those segments, and only references outside the table fail. */
  lemma RestoreFlat(segs: seq<Segment>, table: seq<string>)
    requires Clean(segs)
    ensures Restore(Flat(segs), table) == RestoreSegments(segs, table)
    ensures Restore(Flat(segs), table).Some? <==> Inside(segs, |table|)
  {
    SegmentsOfFlat(segs);
    RestoresIffInside(segs, table);
  }

  /** Tables only grow: what could be restored keeps its meaning. */
  lemma {:induction false} RestoreGrown(segs: seq<Segment>, table: seq<string>, more: seq<string>)
    requires Inside(segs, |table|)
    ensures RestoreSegments(segs, table + more) == RestoreSegments(segs, table)
  {
    if segs != [] {
      RestoreGrown(segs[1..], table, more);
    }
  }

  // ---- Splitting into tokens ----

  datatype Piece = Raw(text: string) | Literal(c: char) | Entry(n: nat)

  function Original(p: Piece, table: seq<string>): Option<string> {
    match p
    case Raw(text) => Some(text)
    case Literal(c) => Some("\\" + [c])
    case Entry(n) => if n < |table| then Some(table[n]) else None
  }

  /** The pieces as they were written originally. */
  function Originals(pieces: seq<Piece>, table: seq<string>): Option<string> {
    if pieces == [] then Some("")
    else
      Join(Originals(pieces[..|pieces| - 1], table), Original(pieces[|pieces| - 1], table))
  }

  lemma OriginalsPush(pieces: seq<Piece>, p: Piece, table: seq<string>)
    ensures Originals(pieces + [p], table) == Join(Originals(pieces, table), Original(p, table))
  {
    assert (pieces + [p])[..|pieces|] == pieces;
  }

  /** The token that a reference stands for, if any. */
  function PieceOf(ref: Ref): seq<Piece> {
    match ref
    case Eaten => []
    case Malformed => []
    case Escaped(k) => if k < |ESCAPABLE| then [Literal(ESCAPABLE[k])] else [Literal('\0')]
    case Item(n) => [Entry(n)]
  }

  /** Each character and each reference of the text as a token of its own. */
  function Units(segs: seq<Segment>): seq<Piece> {
    if segs == [] then []
    else (if segs[0].Char? then [Raw([segs[0].c])] else PieceOf(segs[0].ref)) + Units(segs[1..])
  }

  function Singles(s: string): (r: seq<Piece>)
    ensures |r| == |s| && forall i | 0 <= i < |s| :: r[i] == Raw([s[i]])
  {
    if s == "" then [] else [Raw([s[0]])] + Singles(s[1..])
  }

  /** The tokens with their raw texts taken apart. */
  function TakenApart(pieces: seq<Piece>): seq<Piece> {
    if pieces == [] then []
    else
      var p := pieces[|pieces| - 1];
      TakenApart(pieces[..|pieces| - 1]) + (if p.Raw? then Singles(p.text) else [p])
  }

  predicate NoEmptyRaw(pieces: seq<Piece>) {
    forall i | 0 <= i < |pieces| && pieces[i].Raw? :: pieces[i].text != ""
  }

  lemma TakenApartPush(pieces: seq<Piece>, p: Piece)
    ensures TakenApart(pieces + [p]) == TakenApart(pieces) + (if p.Raw? then Singles(p.text) else [p])
  {
    assert (pieces + [p])[..|pieces|] == pieces;
  }

  lemma {:induction false} UnitsChars(s: string, rest: seq<Segment>)
    ensures Units(Chars(s) + rest) == Singles(s) + Units(rest)
  {
    if s == "" {
      assert Chars(s) + rest == rest;
    } else {
      CharsStep(s, rest);
      UnitsChars(s[1..], rest);
      Append([Raw([s[0]])], Singles(s[1..]), Units(rest));
    }
  }

  lemma UnitsFirst(s: string, i: nat, g: Segment, n: nat)
    requires FirstMatch(s) == Some((i, g, n))
    ensures Units(Segments(s)) == Singles(s[..i]) + (PieceOf(g.ref) + Units(Segments(s[i + n..])))
  {
    var rest := Segments(s[i + n..]);
    FirstMatchSegments(s, i, g, n);
    UnitsChars(s[..i], [g] + rest);
    assert ([g] + rest)[1..] == rest;
  }

  lemma UnitsTurn(before: seq<Piece>, s: string, i: nat, g: Segment, n: nat)
    requires FirstMatch(s) == Some((i, g, n))
    ensures before + Units(Segments(s)) == before + Singles(s[..i]) + PieceOf(g.ref) + Units(Segments(s[i + n..]))
  {
    var tail := Units(Segments(s[i + n..]));
    UnitsFirst(s, i, g, n);
    Append(before, Singles(s[..i]), PieceOf(g.ref) + tail);
    Append(before + Singles(s[..i]), PieceOf(g.ref), tail);
  }

  lemma UnitsNone(s: string)
    requires FirstMatch(s).None?
    ensures Units(Segments(s)) == Singles(s)
  {
    NoMatchSegments(s);
    UnitsChars(s, []);
    assert Chars(s) + [] == Chars(s) && Singles(s) + [] == Singles(s);
  }

  /** The token for a reference, if it has one. */
  method PushReference(pieces: seq<Piece>, ref: Ref, table: seq<string>) returns (r: Option<seq<Piece>>)
    ensures r.Some? <==> Resolve(ref, table).Some?
    ensures r.Some? ==> Originals(r.value, table) == Join(Originals(pieces, table), Resolve(ref, table))
    ensures r.Some? ==> r.value == pieces || (|r.value| == |pieces| + 1 && pieces <= r.value && !r.value[|pieces|].Raw?)
    ensures r.Some? ==> TakenApart(r.value) == TakenApart(pieces) + PieceOf(ref)
  {
    match ref
    case Eaten =>
      JoinEmpty(Originals(pieces, table));
      return Some(pieces);
    case Malformed =>
      return None;
    case Escaped(k) =>
      var c := EscapedChar(k);
      if c.None? {
        return None;
      }
      OriginalsPush(pieces, Literal(c.value), table);
      TakenApartPush(pieces, Literal(c.value));
      return Some(pieces + [Literal(c.value)]);
    case Item(n) =>
      if n >= |table| {
        return None;
      }
      OriginalsPush(pieces, Entry(n), table);
      TakenApartPush(pieces, Entry(n));
      return Some(pieces + [Entry(n)]);
  }

  method PushRaw(pieces: seq<Piece>, pre: string, table: seq<string>) returns (r: seq<Piece>)
    ensures Originals(r, table) == Join(Originals(pieces, table), Some(pre))
    ensures r == if pre == "" then pieces else pieces + [Raw(pre)]
    ensures TakenApart(r) == TakenApart(pieces) + Singles(pre)
  {
    r := pieces;
    JoinEmpty(Originals(pieces, table));
    if pre != "" {
      OriginalsPush(pieces, Raw(pre), table);
      TakenApartPush(pieces, Raw(pre));
      r := pieces + [Raw(pre)];
    }
  }

  /** One match of the loop of `EncodeProcessedItems`. */
  method EncodeTurn(pieces: seq<Piece>, left: string, table: seq<string>, i: nat, g: Segment, n: nat)
    returns (r: Option<seq<Piece>>)
    requires FirstMatch(left) == Some((i, g, n))
    requires Originals(pieces, table).Some?
    ensures r.None? ==> Restore(left, table).None?
    ensures r.Some? ==> Originals(r.value, table).Some?
    ensures r.Some? ==> Join(Originals(pieces, table), Restore(left, table)) ==
                        Join(Originals(r.value, table), Restore(left[i + n..], table))
    ensures r.Some? ==> NoEmptyRaw(pieces) ==> NoEmptyRaw(r.value)
    ensures r.Some? ==> TakenApart(pieces) + Units(Segments(left)) ==
                        TakenApart(r.value) + Units(Segments(left[i + n..]))
  {
    RestoreFirst(left, table, i, g, n);
    var pre := PushRaw(pieces, left[..i], table);
    r := PushReference(pre, g.ref, table);
    ghost var before, text, tail := Originals(pieces, table), Resolve(g.ref, table), Restore(left[i + n..], table);
    UnitsTurn(TakenApart(pieces), left, i, g, n);
    JoinAgain(before, Some(left[..i]), text);
    JoinAgain(before, Join(Some(left[..i]), text), tail);
  }

  /** `_encodeProcessedItems`: fails where restoring fails, and otherwise keeps everything the text stands for. */
  method EncodeProcessedItems(src: string, table: seq<string>) returns (r: Option<seq<Piece>>)
    ensures r.Some? <==> Restore(src, table).Some?
    ensures r.Some? ==> Originals(r.value, table) == Restore(src, table)
    ensures r.Some? ==> TakenApart(r.value) == Units(Segments(src)) && NoEmptyRaw(r.value)
  {
    var pieces: seq<Piece>, left := [], src;
    JoinEmpty(Restore(src, table));
    while true
      invariant Originals(pieces, table).Some? && NoEmptyRaw(pieces)
      invariant Units(Segments(src)) == TakenApart(pieces) + Units(Segments(left))
      invariant Restore(src, table) == Join(Originals(pieces, table), Restore(left, table))
      decreases |left|
    {
      var m := FirstMatch(left);
      if m.None? {
        RestoreNoMatch(left, table);
        UnitsNone(left);
        pieces := PushRaw(pieces, left, table);
        return Some(pieces);
      }
      var (i, g, n) := m.value;
      var next := EncodeTurn(pieces, left, table, i, g, n);
      if next.None? {
        return None;
      }
      pieces := next.value;
      left := left[i + n..];
    }
  }
}
