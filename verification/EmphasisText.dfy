/** The text that an emphasis list is written as, and the tags and characters it is made of. */
module EmphasisText {
  import opened EmphasisModel
  import opened EmphasisNesting
  import Text

  function TagText(w: seq<Tag>): string {
    if w == [] then "" else
      (match w[0]
       case Start(Em) => "<em>"
       case Start(Strong) => "<strong>"
       case End(Em) => "</em>"
       case End(Strong) => "</strong>") + TagText(w[1..])
  }

  /** What a token writes: a paired marker its tags, anything else what it spells. */
  function Html(x: Token): string {
    if IsPaired(x) then TagText(TagsOf(x)) else SpellToken(x)
  }

  function Render(t: Tokens): string {
    if t == [] then "" else Render(t[..|t| - 1]) + Html(t[|t| - 1])
  }

  lemma TagTexts(x: Token)
    requires IsPaired(x) && 1 <= x.size <= 3
    ensures TagText(TagsOf(x)) ==
      if x.open then (if x.size == 1 then "<em>" else if x.size == 2 then "<strong>" else "<strong><em>")
      else (if x.size == 1 then "</em>" else if x.size == 2 then "</strong>" else "</em></strong>")
  {
    var w := TagsOf(x);
    if x.size == 3 {
      assert w == if x.open then [Start(Strong), Start(Em)] else [End(Em), End(Strong)];
      assert w[1..] == if x.open then [Start(Em)] else [End(Strong)];
      assert TagText(w[1..]) == if x.open then "<em>" + "" else "</strong>" + "";
    } else {
      assert w[1..] == [];
    }
  }

  // ---- Parts of a text ----

  datatype Part = Tagged(tag: Tag) | Plain(text: string)

  function PartText(p: Part): string {
    match p
    case Tagged(Start(Em)) => "<em>"
    case Tagged(Start(Strong)) => "<strong>"
    case Tagged(End(Em)) => "</em>"
    case Tagged(End(Strong)) => "</strong>"
    case Plain(s) => s
  }

  /** The text of the first `n` parts. */
  function Joined(parts: seq<Part>, n: nat): string
    requires n <= |parts|
  {
    if n == 0 then "" else Joined(parts, n - 1) + PartText(parts[n - 1])
  }

  /** The tags among the first `n` parts, in order. */
  function TagsIn(parts: seq<Part>, n: nat): seq<Tag>
    requires n <= |parts|
  {
    if n == 0 then []
    else
      var p := parts[n - 1];
      TagsIn(parts, n - 1) + (if p.Tagged? then [p.tag] else [])
  }

  /** The characters outside the tags, in order. */
  function CharsIn(parts: seq<Part>, n: nat): string
    requires n <= |parts|
  {
    if n == 0 then ""
    else
      var p := parts[n - 1];
      CharsIn(parts, n - 1) + (if p.Plain? then p.text else "")
  }

  /** The first `k` tokens with the paired markers taken out. */
  function Unpaired(t: Tokens, k: nat): Tokens
    requires k <= |t|
  {
    if k == 0 then []
    else
      var x := t[k - 1];
      Unpaired(t, k - 1) + (if IsPaired(x) then [] else [x])
  }

  /** The first `n` parts are the tags and the characters of the first `k` tokens. */
  ghost predicate PartsUpTo(parts: seq<Part>, n: nat, t: Tokens, k: nat) {
    && n <= |parts| && k <= |t|
    && TagsIn(parts, n) == TagWord(t, k) && CharsIn(parts, n) == Spell(Unpaired(t, k))
  }

  ghost predicate EndsFit(parts: seq<Part>, ends: seq<nat>, t: Tokens) {
    forall k | 0 <= k < |ends| :: PartsUpTo(parts, ends[k], t, k)
  }

  /** The text is made of parts, and those up to `ends[k]` are the ones of the first `k` tokens. */
  ghost predicate WrittenAs(t: Tokens, out: string, parts: seq<Part>, ends: seq<nat>) {
    && Joined(parts, |parts|) == out
    && |ends| == |t| + 1 && ends[|t|] == |parts| && EndsFit(parts, ends, t)
  }

  ghost predicate Written(t: Tokens, out: string) {
    exists parts, ends :: WrittenAs(t, out, parts, ends)
  }

  // ---- More parts and more tokens ----

  lemma {:induction false} PartsPrefix(parts: seq<Part>, more: seq<Part>, n: nat)
    requires parts <= more && n <= |parts|
    ensures Joined(more, n) == Joined(parts, n)
    ensures TagsIn(more, n) == TagsIn(parts, n) && CharsIn(more, n) == CharsIn(parts, n)
  {
    if n > 0 {
      var j := n - 1;
      PartsPrefix(parts, more, j);
      assert more[j] == parts[j];
    }
  }

  lemma {:induction false} TokensPrefix(t: Tokens, more: Tokens, k: nat)
    requires t <= more && k <= |t|
    ensures TagWord(more, k) == TagWord(t, k) && Unpaired(more, k) == Unpaired(t, k)
  {
    if k > 0 {
      var j := k - 1;
      TokensPrefix(t, more, j);
      assert more[j] == t[j];
    }
  }

  lemma PartsSnoc(parts: seq<Part>, p: Part, more: seq<Part>, n: nat)
    requires more == parts + [p] && n == |parts| + 1
    ensures Joined(more, n) == Joined(parts, |parts|) + PartText(p)
    ensures TagsIn(more, n) == TagsIn(parts, |parts|) + (if p.Tagged? then [p.tag] else [])
    ensures CharsIn(more, n) == CharsIn(parts, |parts|) + (if p.Plain? then p.text else "")
  {
    PartsPrefix(parts, more, |parts|);
  }

  lemma TokensSnoc(t: Tokens, x: Token, more: Tokens, k: nat)
    requires more == t + [x] && k == |t| + 1
    ensures TagWord(more, k) == TagWord(t, |t|) + TagsOf(x)
    ensures Spell(Unpaired(more, k)) == Spell(Unpaired(t, |t|)) + (if IsPaired(x) then "" else SpellToken(x))
  {
    TokensPrefix(t, more, |t|);
    var u := Unpaired(t, |t|);
    if IsPaired(x) {
      assert u + [] == u;
    } else {
      SpellConcat(u, [x]);
      assert [x][1..] == [];
      assert SpellToken(x) + "" == SpellToken(x);
    }
  }

  lemma TagTextCons(w: seq<Tag>)
    requires w != []
    ensures TagText(w) == PartText(Tagged(w[0])) + TagText(w[1..])
  {
  }

  lemma TagsRegroup(a: seq<Tag>, x: Tag, rest: seq<Tag>, w: seq<Tag>)
    requires w == [x] + rest
    ensures a + [x] + rest == a + w
  {
  }

  lemma {:induction false} TagParts(parts: seq<Part>, w: seq<Tag>) returns (more: seq<Part>)
    ensures parts <= more && Joined(more, |more|) == Joined(parts, |parts|) + TagText(w)
    ensures TagsIn(more, |more|) == TagsIn(parts, |parts|) + w && CharsIn(more, |more|) == CharsIn(parts, |parts|)
    decreases |w|
  {
    if w == [] {
      return parts;
    }
    var p, rest := Tagged(w[0]), w[1..];
    PartsSnoc(parts, p, parts + [p], |parts| + 1);
    TagTextCons(w);
    more := TagParts(parts + [p], rest);
    TagsRegroup(TagsIn(parts, |parts|), w[0], rest, w);
    Text.Append(Joined(parts, |parts|), PartText(p), TagText(rest));
  }

  lemma MarkerParts(parts: seq<Part>, x: Token) returns (more: seq<Part>)
    requires IsPaired(x) && 1 <= x.size <= 3
    ensures parts <= more && Joined(more, |more|) == Joined(parts, |parts|) + Html(x)
    ensures TagsIn(more, |more|) == TagsIn(parts, |parts|) + TagsOf(x)
    ensures CharsIn(more, |more|) == CharsIn(parts, |parts|) + ""
  {
    more := TagParts(parts, TagsOf(x));
    assert CharsIn(parts, |parts|) + "" == CharsIn(parts, |parts|);
  }

  lemma PlainParts(parts: seq<Part>, x: Token) returns (more: seq<Part>)
    requires !IsPaired(x)
    ensures parts <= more && Joined(more, |more|) == Joined(parts, |parts|) + Html(x)
    ensures TagsIn(more, |more|) == TagsIn(parts, |parts|) + TagsOf(x)
    ensures CharsIn(more, |more|) == CharsIn(parts, |parts|) + SpellToken(x)
  {
    var p := Plain(SpellToken(x));
    more := parts + [p];
    PartsSnoc(parts, p, more, |more|);
  }

  /** The parts that one more token adds. */
  lemma TokenParts(parts: seq<Part>, t: Tokens, x: Token, t': Tokens) returns (more: seq<Part>)
    requires PartsUpTo(parts, |parts|, t, |t|) && t' == t + [x] && (x.Marker? ==> 1 <= x.size <= 3)
    ensures parts <= more && Joined(more, |more|) == Joined(parts, |parts|) + Html(x)
    ensures PartsUpTo(more, |more|, t', |t'|)
  {
    TokensSnoc(t, x, t', |t'|);
    if IsPaired(x) {
      more := MarkerParts(parts, x);
    } else {
      more := PlainParts(parts, x);
    }
  }

  lemma UpToMore(parts: seq<Part>, more: seq<Part>, n: nat, t: Tokens, t': Tokens, k: nat)
    requires parts <= more && t <= t' && PartsUpTo(parts, n, t, k)
    ensures PartsUpTo(more, n, t', k)
  {
    PartsPrefix(parts, more, n);
    TokensPrefix(t, t', k);
  }

  lemma EndsMore(parts: seq<Part>, more: seq<Part>, ends: seq<nat>, t: Tokens, t': Tokens)
    requires parts <= more && t <= t' && EndsFit(parts, ends, t)
    ensures EndsFit(more, ends, t')
  {
    forall k | 0 <= k < |ends| ensures PartsUpTo(more, ends[k], t', k) {
      UpToMore(parts, more, ends[k], t, t', k);
    }
  }

  lemma EndAt(parts: seq<Part>, ends: seq<nat>, t: Tokens, n: nat, i: nat, e: nat)
    requires EndsFit(parts, ends, t) && PartsUpTo(parts, n, t, |ends|)
    requires if i < |ends| then e == ends[i] else i == |ends| && e == n
    ensures PartsUpTo(parts, e, t, i)
  {
  }

  lemma EndsSnoc(parts: seq<Part>, ends: seq<nat>, t: Tokens, n: nat, k: nat)
    requires EndsFit(parts, ends, t) && k == |ends| && PartsUpTo(parts, n, t, k)
    ensures EndsFit(parts, ends + [n], t)
  {
    forall i | 0 <= i < |ends + [n]| ensures PartsUpTo(parts, (ends + [n])[i], t, i) {
      EndAt(parts, ends, t, n, i, (ends + [n])[i]);
    }
  }

  lemma WrittenSnoc(parts: seq<Part>, more: seq<Part>, ends: seq<nat>, t: Tokens, t': Tokens, s: string)
    requires parts <= more && t <= t' && |ends| == |t'| == |t| + 1 && EndsFit(parts, ends, t)
    requires PartsUpTo(more, |more|, t', |t'|) && Joined(more, |more|) == s
    ensures WrittenAs(t', s, more, ends + [|more|])
  {
    EndsMore(parts, more, ends, t, t');
    EndsSnoc(more, ends, t', |more|, |t'|);
  }

  lemma WrittenMore(t: Tokens, x: Token, out: string)
    requires Written(t, out) && (x.Marker? ==> 1 <= x.size <= 3)
    ensures Written(t + [x], out + Html(x))
  {
    var parts, ends :| WrittenAs(t, out, parts, ends);
    LastEnd(t, out, parts, ends);
    var more := TokenParts(parts, t, x, t + [x]);
    WrittenSnoc(parts, more, ends, t, t + [x], out + Html(x));
  }

  lemma LastEnd(t: Tokens, out: string, parts: seq<Part>, ends: seq<nat>)
    requires WrittenAs(t, out, parts, ends)
    ensures PartsUpTo(parts, |parts|, t, |t|)
  {
    var k := |t|;
    assert PartsUpTo(parts, ends[k], t, k);
  }

  lemma NoneWritten()
    ensures Written([], "")
  {
    var none: seq<Part> := [];
    assert PartsUpTo(none, 0, [], 0);
    assert WrittenAs([], "", none, [0]);
  }

  lemma RenderLast(t: Tokens, init: Tokens, x: Token, out: string)
    requires t != [] && init == t[..|t| - 1] && x == t[|t| - 1] && out == Render(init)
    ensures t == init + [x] && Render(t) == out + Html(x)
  {
  }

  /** Every sized list is rendered as its tags and, between them, its characters without those of paired markers. */
  lemma {:induction false} RenderWritten(t: Tokens)
    requires Sized(t)
    ensures Written(t, Render(t))
    decreases |t|
  {
    if t == [] {
      NoneWritten();
    } else {
      var init, x := t[..|t| - 1], t[|t| - 1];
      RenderWritten(init);
      var out := Render(init);
      WrittenMore(init, x, out);
      RenderLast(t, init, x, out);
    }
  }

  lemma OneWritten(x: Token)
    requires x.Marker? ==> 1 <= x.size <= 3
    ensures Written([x], Html(x))
  {
    NoneWritten();
    WrittenMore([], x, "");
    assert [] + [x] == [x] && "" + Html(x) == Html(x);
  }
}
