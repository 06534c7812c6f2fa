/**
 The tokens that the emphasis pass hands on: the stretches of text between the markers are split at their
 placeholders, and everything together stands for the text that was passed in.
 */
module EmphasisTokens {
  import opened Wrappers
  import opened EmphasisModel
  import opened EmphasisPairing
  import opened EmphasisScan
  import opened EmphasisNesting
  import opened EmphasisMarkers
  import opened EmphasisSpans
  import P = MarkdownPlaceholders

  // ---- Texts that hold whole placeholders ----

  /** The text is made of characters and of whole placeholders that name entries of the table. */
  ghost predicate WholeText(s: string, size: nat) {
    exists segs :: P.Clean(segs) && P.Inside(segs, size) && s == P.Flat(segs)
  }

  ghost predicate WholeToken(x: Token, size: nat) {
    match x
    case Text(s) => WholeText(s, size)
    case Marker(_, c, _, _) => c != P.MARK
  }

  /** No placeholder is cut by a marker, as markers are runs of `*` or `_` and placeholders hold neither. */
  ghost predicate AllWhole(t: Tokens, size: nat) {
    forall i | 0 <= i < |t| :: WholeToken(t[i], size)
  }

  lemma WholeJoin(a: string, b: string, table: seq<string>)
    requires WholeText(a, |table|) && WholeText(b, |table|)
    ensures WholeText(a + b, |table|)
    ensures P.Restore(a + b, table) == P.Join(P.Restore(a, table), P.Restore(b, table))
  {
    var x :| P.Clean(x) && P.Inside(x, |table|) && a == P.Flat(x);
    var y :| P.Clean(y) && P.Inside(y, |table|) && b == P.Flat(y);
    P.FlatJoin(x, y);
    P.RestoreFlat(x, table);
    P.RestoreFlat(y, table);
    P.RestoreFlat(x + y, table);
    P.RestoreJoin(x, y, table);
  }

  lemma PlainWhole(s: string, table: seq<string>)
    requires forall i | 0 <= i < |s| :: s[i] != P.MARK
    ensures WholeText(s, |table|) && P.Restore(s, table) == Some(s)
  {
    var segs := P.Chars(s);
    P.FlatChars(s);
    assert P.Clean(segs) && P.Inside(segs, |table|);
    P.RestoreFlat(segs, table);
    P.RestoreChars(s, table);
  }

  lemma WholeRestores(s: string, table: seq<string>)
    requires WholeText(s, |table|)
    ensures P.Restore(s, table).Some?
  {
    var segs :| P.Clean(segs) && P.Inside(segs, |table|) && s == P.Flat(segs);
    P.RestoreFlat(segs, table);
  }

  lemma SpellLast(t: Tokens, i: nat, j: nat)
    requires i < |t| && j == i + 1
    ensures Spell(t[..j]) == Spell(t[..i]) + SpellToken(t[i])
  {
    assert t[..j] == t[..i] + [t[i]];
    SpellConcat(t[..i], [t[i]]);
    assert [t[i]][1..] == [] && SpellToken(t[i]) + "" == SpellToken(t[i]);
  }

  /** One more token: what is spelled so far stays whole, and restores to both parts. */
  lemma TokenWhole(t: Tokens, i: nat, j: nat, table: seq<string>)
    requires i < |t| && j == i + 1 && AllWhole(t, |table|) && WholeText(Spell(t[..i]), |table|)
    ensures WholeText(Spell(t[..j]), |table|)
    ensures P.Restore(Spell(t[..j]), table) ==
            P.Join(P.Restore(Spell(t[..i]), table), P.Restore(SpellToken(t[i]), table))
  {
    SpellLast(t, i, j);
    if t[i].Marker? {
      PlainWhole(SpellToken(t[i]), table);
    }
    WholeJoin(Spell(t[..i]), SpellToken(t[i]), table);
  }

  // ---- The pass keeps texts and characters ----

  lemma SpliceWhole(t: Tokens, i: nat, k: nat, size: nat)
    requires i < |t| && t[i].Marker? && k <= t[i].size && AllWhole(t, size)
    ensures AllWhole(Splice(t, i, k), size)
  {
    SplicePoints(t, i, k);
  }

  lemma JoinWhole(t: Tokens, o: nat, c: nat, id: nat, size: nat)
    requires o < c < |t| && t[o].Marker? && t[c].Marker? && AllWhole(t, size)
    ensures AllWhole(Join(t, o, c, id), size)
  {
    assert WholeToken(t[o], size) && WholeToken(t[c], size);
  }

  lemma {:induction false} SearchWhole(t: Tokens, o: nat, j: nat, id: nat, size: nat)
    requires o < j <= |t| && FreeOpen(t[o]) && Sized(t) && AllWhole(t, size) && SearchFrom(t, o, j, id).Found?
    ensures AllWhole(SearchFrom(t, o, j, id).tokens, size)
    decreases LiveThrees(t), |t| - j
  {
    if j == |t| {
    } else if !FreeClose(t[j]) {
      SearchWhole(t, o, j + 1, id, size);
    } else if t[j].size == 3 && t[o].size != 3 {
      SpliceForClose(t, o, j);
      SpliceWhole(t, j, t[o].size, size);
      SearchWhole(Splice(t, j, t[o].size), o, j + 1, id, size);
    } else if Alike(t[o], t[j]) {
      JoinWhole(t, o, j, id, size);
    } else if t[o].size == 3 {
      SpliceWhole(t, o, t[j].size, size);
    } else {
      SearchWhole(t, o, j + 1, id, size);
    }
  }

  lemma {:induction false} PairWhole(t: Tokens, i: nat, id: nat, size: nat)
    requires i <= |t| && Sized(t) && AllWhole(t, size) && PairFrom(t, i, id).Found?
    ensures AllWhole(PairFrom(t, i, id).tokens, size)
    decreases LiveThrees(t), |t| - i
  {
    if i < |t| {
      if FreeOpen(t[i]) {
        SearchMeasure(t, i, i + 1, id);
        SearchWhole(t, i, i + 1, id, size);
        var r := SearchFrom(t, i, i + 1, id);
        PairWhole(r.tokens, i + 1, r.next, size);
      } else {
        PairWhole(t, i + 1, id, size);
      }
    }
  }

  lemma SurvivorsWhole(t: Tokens, size: nat)
    requires AllWhole(t, size)
    ensures AllWhole(Survivors(t), size)
  {
  }

  // ---- The tokens ----

  datatype SpanToken = Piece(piece: P.Piece) | Emphasis(m: BoldOrItalicMarker)

  /** What the tokens stand for: pieces for what was written, markers for what was typed. */
  ghost function Stands(r: seq<SpanToken>, table: seq<string>): Option<string>
    reads set i | 0 <= i < |r| && r[i].Emphasis? :: r[i].m
  {
    if r == [] then Some("")
    else
      var last := r[|r| - 1];
      P.Join(Stands(r[..|r| - 1], table),
        match last
        case Piece(p) => P.Original(p, table)
        case Emphasis(m) => Some(SpellToken(m.Look())))
  }

  lemma {:induction false} StandsPieces(r: seq<SpanToken>, pieces: seq<P.Piece>, table: seq<string>)
    ensures Stands(r + Pieces(pieces), table) == P.Join(Stands(r, table), P.Originals(pieces, table))
    decreases |pieces|
  {
    if pieces == [] {
      assert r + Pieces(pieces) == r;
      P.JoinEmpty(Stands(r, table));
    } else {
      var init, p := pieces[..|pieces| - 1], pieces[|pieces| - 1];
      var all := r + Pieces(pieces);
      assert all[..|all| - 1] == r + Pieces(init) && all[|all| - 1] == Piece(p);
      StandsPieces(r, init, table);
      P.JoinAgain(Stands(r, table), P.Originals(init, table), P.Original(p, table));
    }
  }

  function Pieces(pieces: seq<P.Piece>): (r: seq<SpanToken>)
    ensures |r| == |pieces| && forall i | 0 <= i < |r| :: r[i] == Piece(pieces[i])
  {
    if pieces == [] then [] else Pieces(pieces[..|pieces| - 1]) + [Piece(pieces[|pieces| - 1])]
  }

  /** The markers among the tokens, in order. */
  function MarkersIn(r: seq<SpanToken>): seq<BoldOrItalicMarker> {
    if r == [] then []
    else
      var last := r[|r| - 1];
      MarkersIn(r[..|r| - 1]) + (if last.Emphasis? then [last.m] else [])
  }

  /** The marker objects of the list, in order. */
  function MarkersOf(l: seq<Item>): seq<BoldOrItalicMarker> {
    if l == [] then []
    else
      var last := l[|l| - 1];
      MarkersOf(l[..|l| - 1]) + (if last.Mark? then [last.m] else [])
  }

  lemma {:induction false} PiecesHoldNoMarkers(r: seq<SpanToken>, pieces: seq<P.Piece>)
    ensures MarkersIn(r + Pieces(pieces)) == MarkersIn(r)
    decreases |pieces|
  {
    if pieces == [] {
      assert r + Pieces(pieces) == r;
    } else {
      var init, p := pieces[..|pieces| - 1], pieces[|pieces| - 1];
      var all := r + Pieces(pieces);
      assert all[..|all| - 1] == r + Pieces(init) && all[|all| - 1] == Piece(p);
      PiecesHoldNoMarkers(r, init);
    }
  }

  lemma MarkersOfLast(l: seq<Item>, i: nat, j: nat)
    requires i < |l| && j == i + 1
    ensures MarkersOf(l[..j]) == MarkersOf(l[..i]) + (if l[i].Mark? then [l[i].m] else [])
  {
    assert l[..j][..i] == l[..i];
  }

  /** The markers of the list as values. */
  function Kept(t: Tokens): Tokens {
    if t == [] then []
    else
      var last := t[|t| - 1];
      Kept(t[..|t| - 1]) + (if last.Marker? then [last] else [])
  }

  ghost function Looks(ms: seq<BoldOrItalicMarker>): (t: Tokens)
    reads ms
    ensures |t| == |ms| && forall i | 0 <= i < |ms| :: t[i] == ms[i].Look()
  {
    seq(|ms|, i requires 0 <= i < |ms| reads ms => ms[i].Look())
  }

  lemma {:induction false} LooksKept(l: seq<Item>, t: Tokens)
    requires t == Views(l)
    ensures Looks(MarkersOf(l)) == Kept(t)
    decreases |l|
  {
    if l != [] {
      var n := |l| - 1;
      LooksKept(l[..n], t[..n]);
      var ms := MarkersOf(l[..n]);
      if l[n].Mark? {
        assert Looks(ms + [l[n].m]) == Looks(ms) + [l[n].m.Look()];
      } else {
        assert ms + [] == ms;
      }
    }
  }

  /** The tokens for one item of the list. */
  method EncodeItem(r: seq<SpanToken>, x: Item, table: seq<string>) returns (r': seq<SpanToken>)
    requires WholeToken(View(x), |table|)
    ensures Stands(r', table) == P.Join(Stands(r, table), P.Restore(SpellToken(View(x)), table))
    ensures MarkersIn(r') == MarkersIn(r) + (if x.Mark? then [x.m] else [])
  {
    match x
    case Raw(text) =>
      WholeRestores(text, table);
      var pieces := P.EncodeProcessedItems(text, table);
      StandsPieces(r, pieces.value, table);
      PiecesHoldNoMarkers(r, pieces.value);
      r' := r + Pieces(pieces.value);
    case Mark(m) =>
      PlainWhole(SpellToken(m.Look()), table);
      r' := r + [Emphasis(m)];
      assert r'[..|r|] == r;
  }

  /** The tokens so far stand for the restored text of the items so far. */
  ghost predicate Encoded(r: seq<SpanToken>, t: Tokens, i: nat, table: seq<string>)
    requires i <= |t|
    reads set k | 0 <= k < |r| && r[k].Emphasis? :: r[k].m
  {
    WholeText(Spell(t[..i]), |table|) && Stands(r, table) == P.Restore(Spell(t[..i]), table)
  }

  lemma EncodedMore(r: seq<SpanToken>, r': seq<SpanToken>, t: Tokens, i: nat, j: nat, table: seq<string>)
    requires i < |t| && j == i + 1 && AllWhole(t, |table|) && Encoded(r, t, i, table)
    requires Stands(r', table) == P.Join(Stands(r, table), P.Restore(SpellToken(t[i]), table))
    ensures Encoded(r', t, j, table)
  {
    TokenWhole(t, i, j, table);
  }

  method EncodeNext(r: seq<SpanToken>, x: Item, table: seq<string>, ghost t: Tokens, ghost i: nat, ghost j: nat)
    returns (r': seq<SpanToken>)
    requires i < |t| && j == i + 1 && t[i] == View(x) && AllWhole(t, |table|) && Encoded(r, t, i, table)
    ensures Encoded(r', t, j, table)
    ensures MarkersIn(r') == MarkersIn(r) + (if x.Mark? then [x.m] else [])
  {
    r' := EncodeItem(r, x, table);
    EncodedMore(r, r', t, i, j, table);
  }

  /** The last loop of the pass. */
  method EncodeTexts(l: seq<Item>, table: seq<string>, ghost t: Tokens) returns (r: seq<SpanToken>)
    requires t == Views(l) && AllWhole(t, |table|)
    ensures Stands(r, table) == P.Restore(Spell(t), table)
    ensures MarkersIn(r) == MarkersOf(l) && Looks(MarkersIn(r)) == Kept(t)
  {
    r := [];
    assert l[..0] == [];
    NothingEncoded(t, table);
    var i := 0;
    while i < |l|
      invariant i <= |l| && Encoded(r, t, i, table) && MarkersIn(r) == MarkersOf(l[..i])
    {
      var next := i + 1;
      MarkersOfLast(l, i, next);
      r := EncodeNext(r, l[i], table, t, i, next);
      i := next;
    }
    AllOf(t, i);
    assert l[..i] == l;
    LooksKept(l, t);
  }

  lemma NothingEncoded(t: Tokens, table: seq<string>)
    ensures Encoded([], t, 0, table)
  {
    assert t[..0] == [];
    PlainWhole("", table);
  }

  lemma AllOf(t: Tokens, n: nat)
    requires n == |t|
    ensures t[..n] == t
  {
  }

  /**
   The whole pass over a working text that the list spells: the tokens it hands on stand, in order, for the
   restored text.
   */
  method ProcessSpans(l: seq<Item>, table: seq<string>) returns (r: seq<SpanToken>)
    requires Consistent(l) && Unprocessed(Views(l)) && Harmless(Views(l)) && AllWhole(Views(l), |table|)
    modifies Objects(l)
    ensures Stands(r, table) == P.Restore(old(Spell(Views(l))), table)
    ensures Stands(r, table).Some?
    ensures old(PairAll(Views(l))).Found? && Looks(MarkersIn(r)) == Kept(Survivors(old(PairAll(Views(l))).tokens))
  {
    ghost var t := Views(l);
    FoundExactly(t);
    PairWhole(t, 0, 0, |table|);
    SurvivorsWhole(PairAll(t).tokens, |table|);
    SpellRestores(t, table);
    var tgt := ProcessBoldAndItalicSpans(l);
    r := EncodeTexts(tgt, table, Survivors(PairAll(t).tokens));
  }

  lemma SpellRestores(t: Tokens, table: seq<string>)
    requires AllWhole(t, |table|)
    ensures P.Restore(Spell(t), table).Some?
  {
    SpellWhole(t, |t|, table);
    AllOf(t, |t|);
    WholeRestores(Spell(t), table);
  }

  lemma {:induction false} SpellWhole(t: Tokens, n: nat, table: seq<string>)
    requires n <= |t| && AllWhole(t, |table|)
    ensures WholeText(Spell(t[..n]), |table|)
  {
    if n == 0 {
      assert t[..0] == [];
      PlainWhole("", table);
    } else {
      var k := n - 1;
      SpellWhole(t, k, table);
      TokenWhole(t, k, n, table);
    }
  }
}
