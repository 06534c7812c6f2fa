/**
 Values for the emphasis pass of the Markdown renderer: the token list that holds
 `*`/`_` markers between stretches of text, as seen by the pairing and un-nesting loops.
 */
module EmphasisModel {

  /** The matching fields of a marker (match, cannot-match, disabled, id) as one value. */
  datatype Standing = Free | Paired(id: nat) | Disabled

  datatype Token =
    | Text(text: string)
    | Marker(open: bool, ch: char, size: nat, standing: Standing)

  type Tokens = seq<Token>

  predicate FreeOpen(x: Token) {
    x.Marker? && x.open && x.standing.Free?
  }

  predicate FreeClose(x: Token) {
    x.Marker? && !x.open && x.standing.Free?
  }

  predicate IsPaired(x: Token) {
    x.Marker? && x.standing.Paired?
  }

  /** Same character and same size: the condition under which an open and a close are joined. */
  predicate Alike(x: Token, y: Token)
    requires x.Marker? && y.Marker?
  {
    x.ch == y.ch && x.size == y.size
  }

  predicate Sized(t: Tokens) {
    forall i | 0 <= i < |t| && t[i].Marker? :: 1 <= t[i].size <= 3
  }

  /** The list as the delimiter scan leaves it: markers of size 1 to 3, none matched or disabled. */
  predicate Unprocessed(t: Tokens) {
    Sized(t) && forall i | 0 <= i < |t| && t[i].Marker? :: t[i].standing.Free?
  }

  // ---- Pairs ----

  predicate SameId(x: Token, y: Token) {
    IsPaired(x) && IsPaired(y) && x.standing.id == y.standing.id
  }

  /** `o` and `c` are the positions of an open and a close joined with each other. */
  predicate PairOf(t: Tokens, o: int, c: int) {
    0 <= o < c < |t| && SameId(t[o], t[c])
  }

  ghost predicate HasPartner(t: Tokens, i: int)
    requires 0 <= i < |t|
  {
    exists j | 0 <= j < |t| && j != i :: SameId(t[i], t[j])
  }

  ghost predicate IdsBelow(t: Tokens, next: nat) {
    forall i | 0 <= i < |t| && IsPaired(t[i]) :: t[i].standing.id < next
  }

  /** Every paired marker has a partner. */
  ghost predicate Partnered(t: Tokens) {
    forall i {:trigger HasPartner(t, i)} | 0 <= i < |t| && IsPaired(t[i]) :: HasPartner(t, i)
  }

  /** Of two markers with one id the first is an open, the second a close, and they are alike. */
  ghost predicate Ordered(t: Tokens) {
    forall i, j | 0 <= i < j < |t| && SameId(t[i], t[j]) :: t[i].open && !t[j].open && Alike(t[i], t[j])
  }

  /** The pairing joins opens with later alike closes, one with one. */
  ghost predicate Matching(t: Tokens) {
    Partnered(t) && Ordered(t)
  }

  /** A marker has at most one partner. */
  lemma PartnerUnique(t: Tokens, i: int, j: int, k: int)
    requires Ordered(t)
    requires 0 <= i < |t| && 0 <= j < |t| && 0 <= k < |t| && i != j && i != k
    requires SameId(t[i], t[j]) && SameId(t[i], t[k])
    ensures j == k
  {
    if j < k {
      assert SameId(t[j], t[k]);
    } else if k < j {
      assert SameId(t[k], t[j]);
    }
  }

  // ---- What a list spells ----

  function Repeat(c: char, n: nat): (s: string)
    ensures |s| == n
  {
    seq(n, _ => c)
  }

  function SpellToken(x: Token): string {
    match x
    case Text(s) => s
    case Marker(_, c, n, Disabled) => ""
    case Marker(_, c, n, _) => Repeat(c, n)
  }

  /** The text of the list, every marker that is not disabled read as typed. */
  function Spell(t: Tokens): string {
    if t == [] then "" else SpellToken(t[0]) + Spell(t[1..])
  }

  lemma {:induction false} SpellConcat(a: Tokens, b: Tokens)
    ensures Spell(a + b) == Spell(a) + Spell(b)
  {
    if a == [] {
      assert a + b == b;
    } else {
      assert (a + b)[1..] == a[1..] + b;
      SpellConcat(a[1..], b);
    }
  }

  /** Lists that agree token by token on what they spell, spell the same. */
  lemma {:induction false} SpellPointwise(a: Tokens, b: Tokens)
    requires |a| == |b| && forall i | 0 <= i < |a| :: SpellToken(a[i]) == SpellToken(b[i])
    ensures Spell(a) == Spell(b)
  {
    if a != [] {
      SpellPointwise(a[1..], b[1..]);
    }
  }
}
