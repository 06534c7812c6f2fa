/**
 The whole emphasis pass on marker objects, what the markers write, and the main theorem.
 */
module EmphasisSpans {
  import opened EmphasisModel
  import opened EmphasisPairing
  import opened EmphasisScan
  import opened EmphasisNesting
  import opened EmphasisText
  import opened EmphasisMarkers

  // ---- Writing ----

  /** `BoldOrItalicMarker::writeAsHtml`. */
  method WriteMarker(m: BoldOrItalicMarker) returns (out: string)
    requires m.Sound() && 1 <= m.size <= 3
    ensures out == Html(m.Look()) && Written([m.Look()], out)
    ensures m.disabled ==> out == ""
    ensures !m.disabled && m.partner == null ==>
      |out| == m.size && forall i | 0 <= i < m.size :: out[i] == m.tokenCharacter
    ensures !m.disabled && m.partner != null && m.openMarker ==>
      out == ["<em>", "<strong>", "<strong><em>"][m.size - 1]
    ensures !m.disabled && m.partner != null && !m.openMarker ==>
      out == ["</em>", "</strong>", "</em></strong>"][m.size - 1]
  {
    OneWritten(m.Look());
    out := "";
    if !m.disabled {
      if m.partner != null {
        TagTexts(m.Look());
        if m.openMarker {
          out := if m.size == 1 then "<em>" else if m.size == 2 then "<strong>" else "<strong><em>";
        } else {
          out := if m.size == 1 then "</em>" else if m.size == 2 then "</strong>" else "</em></strong>";
        }
      } else {
        out := Repeat(m.tokenCharacter, m.size);
      }
    }
  }

  lemma RenderNext(t: Tokens, i: nat, j: nat)
    requires i < |t| && j == i + 1
    ensures Render(t[..j]) == Render(t[..i]) + Html(t[i])
  {
    assert t[..j][..i] == t[..i];
  }

  method WriteAll(l: seq<Item>) returns (out: string)
    requires Consistent(l) && Sized(Views(l))
    ensures out == Render(Views(l)) && Written(Views(l), out)
  {
    out := "";
    ghost var t := Views(l);
    assert t[..0] == [];
    for i := 0 to |l|
      invariant out == Render(t[..i])
    {
      var s;
      match l[i] {
        case Raw(text) => s := text;
        case Mark(m) =>
          assert m in Objects(l);
          s := WriteMarker(m);
      }
      RenderNext(t, i, i + 1);
      out := out + s;
    }
    assert t[..|t|] == t;
    RenderWritten(t);
  }

  // ---- The pass ----

  /** Pair, then un-nest, the markers of a freshly scanned list. */
  method ProcessBoldAndItalicSpans(l: seq<Item>) returns (tgt: seq<Item>)
    requires Consistent(l) && Unprocessed(Views(l)) && Harmless(Views(l))
    modifies Objects(l)
    ensures Consistent(tgt) && Sized(Views(tgt))
    ensures old(PairAll(Views(l))).Found? && Views(tgt) == Survivors(old(PairAll(Views(l))).tokens)
    ensures Spell(Views(tgt)) == old(Spell(Views(l))) && Balanced(TagWord(Views(tgt), |tgt|))
  {
    FoundExactly(Views(l));
    PairAllCorrect(Views(l));
    EmphasisCorrect(Views(l));
    tgt := PairMarkers(l);
    ghost var left := UnnestMarkers(tgt);
  }

  /**
   For every freshly scanned list in which no close of size 3 is offered to a waiting open of size 3 and
   another character: the pairing pass ends, nothing typed is lost, the tags written are balanced, and the
   pairs left are exactly the pairs no other pair crosses.
   */
  lemma EmphasisCorrect(t: Tokens)
    requires Unprocessed(t) && Harmless(t)
    ensures PairAll(t).Found?
    ensures var paired := PairAll(t).tokens; var r := Survivors(paired);
            && Spell(r) == Spell(t) && Balanced(TagWord(r, |r|))
            && Sized(r) && Matching(r) && NonCrossing(r)
            && (forall o, c :: PairOf(r, o, c) <==> PairOf(paired, o, c) && !Crossed(paired, o, c))
  {
    FoundExactly(t);
    PairAllCorrect(t);
    var paired := PairAll(t).tokens;
    SurvivorsMatching(paired);
    SurvivorsSpelling(paired);
    NonCrossingBalanced(Survivors(paired));
    forall o, c
      ensures PairOf(Survivors(paired), o, c) <==> PairOf(paired, o, c) && !Crossed(paired, o, c)
    {
      SurvivesIffNotCrossed(paired, o, c);
    }
  }

  /** The same under a simpler condition: no open of size 3 has a later close of size 3 and another character. */
  lemma AgreeingEmphasisCorrect(t: Tokens)
    requires Unprocessed(t) && ThreesAgree(t)
    ensures PairAll(t).Found?
    ensures var paired := PairAll(t).tokens; var r := Survivors(paired);
            && Spell(r) == Spell(t) && Balanced(TagWord(r, |r|))
            && Sized(r) && Matching(r) && NonCrossing(r)
            && (forall o, c :: PairOf(r, o, c) <==> PairOf(paired, o, c) && !Crossed(paired, o, c))
  {
    AgreeingIsHarmless(t);
    EmphasisCorrect(t);
  }

  /**
   What is typed and what is written: the text is made of tags that are balanced and, between them, all that was
   typed but the markers of the pairs that are left; a marker without a partner is written as typed.
   */
  ghost predicate Emphasized(t: Tokens, r: Tokens, out: string) {
    && Spell(r) == Spell(t)
    && exists parts ::
         && Joined(parts, |parts|) == out && Balanced(TagsIn(parts, |parts|))
         && CharsIn(parts, |parts|) == Spell(Unpaired(r, |r|))
  }

  lemma WrittenEmphasized(t: Tokens, r: Tokens, out: string)
    requires Written(r, out) && Spell(r) == Spell(t) && Balanced(TagWord(r, |r|))
    ensures Emphasized(t, r, out)
  {
    var parts, ends :| WrittenAs(r, out, parts, ends);
    LastEnd(r, out, parts, ends);
  }

  /** From the scanned list to the text. */
  method WriteSpans(l: seq<Item>) returns (out: string)
    requires Consistent(l) && Unprocessed(Views(l)) && Harmless(Views(l))
    modifies Objects(l)
    ensures old(PairAll(Views(l))).Found?
    ensures var r := Survivors(old(PairAll(Views(l))).tokens);
            out == Render(r) && Written(r, out) && Emphasized(old(Views(l)), r, out)
  {
    ghost var t := Views(l);
    var tgt := ProcessBoldAndItalicSpans(l);
    out := WriteAll(tgt);
    WrittenEmphasized(t, Views(tgt), out);
  }
}
