/**
 The un-nesting pass: which pairs survive it, and that the survivors write balanced HTML tags.
 */
module EmphasisNesting {
  import opened EmphasisModel

  // ---- Which pairs survive ----

  ghost predicate CrossedBy(t: Tokens, o: int, c: int, o': int, c': int) {
    PairOf(t, o, c) && PairOf(t, o', c') && o < o' < c < c'
  }

  /** Some other pair opens inside (o, c) and closes after it. */
  ghost predicate Crossed(t: Tokens, o: int, c: int) {
    exists o', c' :: CrossedBy(t, o, c, o', c')
  }

  /** Position `i` belongs to a crossed pair whose close lies before `k`. */
  ghost predicate UndoneBefore(t: Tokens, i: int, k: int) {
    exists o, c :: (i == o || i == c) && c < k && Crossed(t, o, c)
  }

  /** The list once the pass has looked at the first `k` positions. */
  ghost function UndoneUpTo(t: Tokens, k: int): (r: Tokens)
    ensures |r| == |t|
  {
    seq(|t|, i requires 0 <= i < |t| =>
      if IsPaired(t[i]) && UndoneBefore(t, i, k) then t[i].(standing := Free) else t[i])
  }

  /** The list after the pass: exactly the crossed pairs are undone. */
  ghost function Survivors(t: Tokens): (r: Tokens)
    ensures |r| == |t|
  {
    UndoneUpTo(t, |t|)
  }

  lemma UndoneIffCrossed(t: Tokens, o: int, c: int, k: int)
    requires Ordered(t) && PairOf(t, o, c)
    ensures UndoneBefore(t, o, k) <==> c < k && Crossed(t, o, c)
    ensures UndoneBefore(t, c, k) <==> c < k && Crossed(t, o, c)
  {
    if Crossed(t, o, c) && c < k {
      assert UndoneBefore(t, o, k) && UndoneBefore(t, c, k);
    }
    if o', c' :| (o == o' || o == c') && c' < k && Crossed(t, o', c') {
      SamePair(t, o, c, o', c', o);
    }
    if o', c' :| (c == o' || c == c') && c' < k && Crossed(t, o', c') {
      SamePair(t, o, c, o', c', c);
    }
  }

  lemma SamePair(t: Tokens, o: int, c: int, o': int, c': int, i: int)
    requires Ordered(t) && PairOf(t, o, c) && PairOf(t, o', c')
    requires (i == o || i == c) && (i == o' || i == c')
    ensures o == o' && c == c'
  {
    assert t[o].open && !t[c].open && t[o'].open && !t[c'].open;
    if i == o {
      PartnerUnique(t, o, c, c');
    } else {
      PartnerUnique(t, c, o, o');
    }
  }

  /** A pair survives exactly when no pair opens inside it and closes after it. */
  lemma SurvivesIffNotCrossed(t: Tokens, o: int, c: int)
    requires Ordered(t)
    ensures PairOf(Survivors(t), o, c) <==> PairOf(t, o, c) && !Crossed(t, o, c)
  {
    if PairOf(t, o, c) {
      UndoneIffCrossed(t, o, c, |t|);
    }
  }

  ghost predicate NonCrossing(t: Tokens) {
    forall o, c, o', c' :: !CrossedBy(t, o, c, o', c')
  }

  lemma SurvivorsMatching(t: Tokens)
    requires Matching(t) && Sized(t)
    ensures Sized(Survivors(t)) && Matching(Survivors(t)) && NonCrossing(Survivors(t))
  {
    var s := Survivors(t);
    forall i | 0 <= i < |s| && IsPaired(s[i])
      ensures HasPartner(s, i)
    {
      assert HasPartner(t, i);
      var j :| 0 <= j < |t| && j != i && SameId(t[i], t[j]);
      var o, c := if i < j then i else j, if i < j then j else i;
      UndoneIffCrossed(t, o, c, |t|);
      assert SameId(s[i], s[j]);
    }
    forall i, j | 0 <= i < j < |s| && SameId(s[i], s[j])
      ensures s[i].open && !s[j].open && Alike(s[i], s[j])
    {
      assert SameId(t[i], t[j]);
    }
    forall o, c, o', c' ensures !CrossedBy(s, o, c, o', c') {
      if CrossedBy(s, o, c, o', c') {
        SurvivesIffNotCrossed(t, o, c);
        SurvivesIffNotCrossed(t, o', c');
        assert CrossedBy(t, o, c, o', c');
      }
    }
  }

  lemma SurvivorsSpelling(t: Tokens)
    ensures Spell(Survivors(t)) == Spell(t)
  {
    SpellPointwise(Survivors(t), t);
  }

  // ---- Tags ----

  datatype Name = Em | Strong

  datatype Tag = Start(name: Name) | End(name: Name)

  /** The elements a marker of this size opens, outermost first. */
  function Names(size: nat): seq<Name> {
    if size == 1 then [Em] else if size == 2 then [Strong] else [Strong, Em]
  }

  /** The tags a token writes; unmatched and disabled markers and text write none. */
  function TagsOf(x: Token): seq<Tag> {
    if !IsPaired(x) then []
    else
      var names := Names(x.size);
      if x.open then seq(|names|, i requires 0 <= i < |names| => Start(names[i]))
      else seq(|names|, i requires 0 <= i < |names| => End(names[|names| - 1 - i]))
  }

  /** All tags written by the first `k` tokens. */
  function TagWord(t: Tokens, k: nat): seq<Tag>
    requires k <= |t|
  {
    if k == 0 then [] else TagWord(t, k - 1) + TagsOf(t[k - 1])
  }

  datatype Nest = Broken | Unclosed(names: seq<Name>)

  /** Reading tags left to right: the elements still open, or `Broken` at a wrong end tag. */
  function Read(w: seq<Tag>): Nest {
    if w == [] then Unclosed([])
    else
      match Read(w[..|w| - 1])
      case Broken => Broken
      case Unclosed(s) =>
        match w[|w| - 1]
        case Start(n) => Unclosed(s + [n])
        case End(n) => if s != [] && s[|s| - 1] == n then Unclosed(s[..|s| - 1]) else Broken
  }

  ghost predicate Balanced(w: seq<Tag>) {
    Read(w) == Unclosed([])
  }

  lemma ReadOne(w: seq<Tag>, x: Tag)
    ensures Read(w + [x]) ==
      match Read(w) {
        case Broken => Broken
        case Unclosed(s) =>
          match x {
            case Start(n) => Unclosed(s + [n])
            case End(n) => if s != [] && s[|s| - 1] == n then Unclosed(s[..|s| - 1]) else Broken
          }
      }
  {
    assert (w + [x])[..|w|] == w;
  }

  lemma ReadOpen(w: seq<Tag>, s: seq<Name>, x: Token)
    requires Read(w) == Unclosed(s) && IsPaired(x) && x.open
    ensures Read(w + TagsOf(x)) == Unclosed(s + Names(x.size))
  {
    var a := Names(x.size);
    ReadOne(w, Start(a[0]));
    if |a| == 1 {
      assert TagsOf(x) == [Start(a[0])] && [a[0]] == a;
    } else {
      ReadOne(w + [Start(a[0])], Start(a[1]));
      assert w + TagsOf(x) == w + [Start(a[0])] + [Start(a[1])];
      assert s + a == s + [a[0]] + [a[1]];
    }
  }

  lemma ReadClose(w: seq<Tag>, s: seq<Name>, x: Token)
    requires IsPaired(x) && !x.open && Read(w) == Unclosed(s + Names(x.size))
    ensures Read(w + TagsOf(x)) == Unclosed(s)
  {
    var a := Names(x.size);
    if |a| == 1 {
      ReadOne(w, End(a[0]));
      assert TagsOf(x) == [End(a[0])];
      assert (s + a)[..|s|] == s;
    } else {
      ReadOne(w, End(a[1]));
      assert (s + a)[..|s| + 1] == s + [a[0]];
      ReadOne(w + [End(a[1])], End(a[0]));
      assert (s + [a[0]])[..|s|] == s;
      assert w + TagsOf(x) == w + [End(a[1])] + [End(a[0])];
    }
  }

  // ---- Balance of the survivors ----

  ghost predicate Increasing(p: seq<nat>) {
    forall i, j | 0 <= i < j < |p| :: p[i] < p[j]
  }

  /** The marker at `o` opens before `k` and its partner is not before `k`. */
  ghost predicate Pending(t: Tokens, o: int, k: int) {
    o < k && exists c :: k <= c && PairOf(t, o, c)
  }

  /** `p` lists the pending opens in order. */
  ghost predicate ListsPending(t: Tokens, p: seq<nat>, k: int) {
    Increasing(p) && forall o: nat :: o in p <==> Pending(t, o, k)
  }

  lemma PendingStep(t: Tokens, o: nat, k: nat)
    requires k < |t| && !PairOf(t, o, k) && o != k
    ensures Pending(t, o, k) <==> Pending(t, o, k + 1)
  {
    if Pending(t, o, k) {
      var c :| k <= c && PairOf(t, o, c);
      assert k + 1 <= c;
    }
    if c :| k + 1 <= c && PairOf(t, o, c) && o < k + 1 {
      assert k <= c;
    }
  }

  lemma OpenIsPending(t: Tokens, k: nat)
    requires Matching(t) && k < |t| && IsPaired(t[k]) && t[k].open
    ensures Pending(t, k, k + 1)
    ensures forall o :: !PairOf(t, o, k)
  {
    assert HasPartner(t, k);
    var j :| 0 <= j < |t| && j != k && SameId(t[k], t[j]);
    assert SameId(t[j], t[k]);
    assert PairOf(t, k, j);
  }

  lemma OpenBecomesPending(t: Tokens, p: seq<nat>, k: nat)
    requires Matching(t) && k < |t| && IsPaired(t[k]) && t[k].open
    requires ListsPending(t, p, k)
    ensures ListsPending(t, p + [k], k + 1)
  {
    OpenIsPending(t, k);
    forall o: nat ensures o in p + [k] <==> Pending(t, o, k + 1) {
      if o != k {
        PendingStep(t, o, k);
      }
    }
    forall i | 0 <= i < |p| ensures p[i] < k {
      assert p[i] in p;
    }
  }

  /** In a crossing-free matching the innermost pending open is the partner of the next close. */
  lemma InnermostIsPartner(t: Tokens, p: seq<nat>, k: nat, o: nat)
    requires NonCrossing(t) && Ordered(t) && PairOf(t, o, k)
    requires ListsPending(t, p, k)
    ensures p != [] && p[|p| - 1] == o
  {
    assert Pending(t, o, k);
    var i :| 0 <= i < |p| && p[i] == o;
    var last := p[|p| - 1];
    assert last in p;
    var c :| k <= c && PairOf(t, last, c);
    assert !CrossedBy(t, o, k, last, c);
    if c == k {
      PartnerUnique(t, k, o, last);
    }
  }

  lemma CloseEndsPending(t: Tokens, p: seq<nat>, k: nat, o: nat)
    requires Ordered(t) && PairOf(t, o, k)
    requires ListsPending(t, p, k) && p != [] && p[|p| - 1] == o
    ensures ListsPending(t, p[..|p| - 1], k + 1)
  {
    var q := p[..|p| - 1];
    forall n: nat ensures n in q <==> Pending(t, n, k + 1) {
      assert n in p <==> n in q || n == o;
      if n == o {
        NotPendingPast(t, o, k);
      } else if n == k {
        CloseNotPending(t, o, k);
      } else {
        if PairOf(t, n, k) {
          PartnerUnique(t, k, o, n);
        }
        PendingStep(t, n, k);
      }
    }
  }

  lemma NotPendingPast(t: Tokens, o: nat, k: nat)
    requires Ordered(t) && PairOf(t, o, k)
    ensures !Pending(t, o, k + 1)
  {
    if c :| k + 1 <= c && PairOf(t, o, c) {
      PartnerUnique(t, o, k, c);
    }
  }

  lemma CloseNotPending(t: Tokens, o: nat, k: nat)
    requires Ordered(t) && PairOf(t, o, k)
    ensures !Pending(t, k, k + 1) && !Pending(t, k, k)
  {
    assert !t[k].open;
  }

  /** The element names that are open once the opens at positions `p` have been written. */
  function NamesAt(t: Tokens, p: seq<nat>): seq<Name> {
    if p == [] then []
    else
      var last := p[|p| - 1];
      NamesAt(t, p[..|p| - 1]) + (if last < |t| && t[last].Marker? then Names(t[last].size) else [])
  }

  lemma PlainStep(t: Tokens, p: seq<nat>, k: nat)
    requires Matching(t) && k < |t| && !IsPaired(t[k]) && ListsPending(t, p, k)
    ensures ListsPending(t, p, k + 1)
  {
    forall o: nat ensures o in p <==> Pending(t, o, k + 1) {
      if o != k { PendingStep(t, o, k); }
    }
  }

  /** `p` lists the pending opens, and the tags so far leave their elements open. */
  ghost predicate ReadsTo(t: Tokens, p: seq<nat>, k: nat)
    requires k <= |t|
  {
    ListsPending(t, p, k) && Read(TagWord(t, k)) == Unclosed(NamesAt(t, p))
  }

  lemma PlainReads(t: Tokens, p: seq<nat>, k: nat)
    requires Matching(t) && k < |t| && !IsPaired(t[k]) && ReadsTo(t, p, k)
    ensures ReadsTo(t, p, k + 1)
  {
    PlainStep(t, p, k);
    assert TagWord(t, k) + TagsOf(t[k]) == TagWord(t, k);
  }

  lemma OpenReads(t: Tokens, p: seq<nat>, k: nat)
    requires Matching(t) && k < |t| && IsPaired(t[k]) && t[k].open && ReadsTo(t, p, k)
    ensures ReadsTo(t, p + [k], k + 1)
  {
    OpenBecomesPending(t, p, k);
    ReadOpen(TagWord(t, k), NamesAt(t, p), t[k]);
    assert (p + [k])[..|p|] == p;
  }

  lemma CloseReads(t: Tokens, p: seq<nat>, k: nat)
    requires Matching(t) && NonCrossing(t) && k < |t| && IsPaired(t[k]) && !t[k].open && ReadsTo(t, p, k)
    ensures p != [] && ReadsTo(t, p[..|p| - 1], k + 1)
  {
    var o := PartnerOfClose(t, k);
    InnermostIsPartner(t, p, k, o);
    CloseEndsPending(t, p, k, o);
    ReadClose(TagWord(t, k), NamesAt(t, p[..|p| - 1]), t[k]);
  }

  lemma {:induction false} WordReads(t: Tokens, k: nat) returns (p: seq<nat>)
    requires Matching(t) && NonCrossing(t) && k <= |t|
    ensures ReadsTo(t, p, k)
  {
    if k == 0 {
      return [];
    }
    p := WordReads(t, k - 1);
    if !IsPaired(t[k - 1]) {
      PlainReads(t, p, k - 1);
    } else if t[k - 1].open {
      OpenReads(t, p, k - 1);
      p := p + [k - 1];
    } else {
      CloseReads(t, p, k - 1);
      p := p[..|p| - 1];
    }
  }

  lemma PartnerOfClose(t: Tokens, k: nat) returns (o: nat)
    requires Matching(t) && k < |t| && IsPaired(t[k]) && !t[k].open
    ensures PairOf(t, o, k) && Alike(t[o], t[k]) && t[o].open
  {
    assert HasPartner(t, k);
    o :| 0 <= o < |t| && o != k && SameId(t[k], t[o]);
    assert SameId(t[o], t[k]);
  }

  lemma HeadIsIn(p: seq<nat>)
    requires p != []
    ensures p[0] in p
  {
  }

  lemma NothingPendingAtEnd(t: Tokens, p: seq<nat>)
    requires ListsPending(t, p, |t|)
    ensures p == []
  {
    if p != [] {
      HeadIsIn(p);
      assert false;
    }
  }

  lemma NonCrossingBalanced(t: Tokens)
    requires Matching(t) && NonCrossing(t)
    ensures Balanced(TagWord(t, |t|))
  {
    var p := WordReads(t, |t|);
    NothingPendingAtEnd(t, p);
  }

  lemma {:induction false} IncreasingUnique(p: seq<nat>, q: seq<nat>)
    requires Increasing(p) && Increasing(q) && forall o: nat :: o in p <==> o in q
    ensures p == q
  {
    if p == [] || q == [] {
      if p != [] { HeadIsIn(p); }
      if q != [] { HeadIsIn(q); }
    } else {
      var a, b := p[|p| - 1], q[|q| - 1];
      assert a in p && b in q;
      var i :| 0 <= i < |q| && q[i] == a;
      var j :| 0 <= j < |p| && p[j] == b;
      var p', q' := p[..|p| - 1], q[..|q| - 1];
      forall o: nat ensures o in p' <==> o in p && o != a {
      }
      forall o: nat ensures o in q' <==> o in q && o != b {
      }
      IncreasingUnique(p', q');
      assert p == p' + [a] && q == q' + [b];
    }
  }

  /** What is pending outside a surviving pair is the same at its open and at its close. */
  lemma PendingOutside(t: Tokens, o: nat, c: nat, n: nat)
    requires Ordered(t) && NonCrossing(t) && PairOf(t, o, c)
    ensures Pending(t, n, o) <==> Pending(t, n, c) && n < o
  {
    if m :| o <= m && PairOf(t, n, m) && n < o {
      assert !CrossedBy(t, n, m, o, c);
      if m == o {
        CloseNotPending(t, n, o);
      }
      if m == c {
        PartnerUnique(t, c, n, o);
      }
      assert c <= m;
    }
  }

  lemma PendingAtClose(t: Tokens, o: nat, c: nat, p: seq<nat>, q: seq<nat>)
    requires Ordered(t) && NonCrossing(t) && PairOf(t, o, c)
    requires ListsPending(t, p, o) && ListsPending(t, q, c)
    ensures q == p + [o]
  {
    InnermostIsPartner(t, q, c, o);
    var r := q[..|q| - 1];
    forall n: nat ensures n in r <==> n in p {
      PendingOutside(t, o, c, n);
      assert n in q <==> n in r || n == o;
    }
    IncreasingUnique(r, p);
  }

  /**
   The tags of a close marker end what its own open marker started: just before the close, the open
   elements are those from just before the open plus the ones the open wrote.
   */
  lemma ClosesItsOwn(t: Tokens, o: nat, c: nat) returns (outer: seq<Name>)
    requires Matching(t) && NonCrossing(t) && PairOf(t, o, c)
    ensures t[o].open && !t[c].open && Alike(t[o], t[c])
    ensures Read(TagWord(t, o)) == Unclosed(outer)
    ensures Read(TagWord(t, c)) == Unclosed(outer + Names(t[c].size))
    ensures Read(TagWord(t, c + 1)) == Unclosed(outer)
  {
    var p := WordReads(t, o);
    var q := WordReads(t, c);
    PendingAtClose(t, o, c, p, q);
    outer := NamesAt(t, p);
    assert q[..|q| - 1] == p;
    ReadClose(TagWord(t, c), outer, t[c]);
  }

  // ---- The stack of the pass ----

  /**
   What the stack holds before position `k` is looked at: in order, all pending opens, and among them
   possibly some whose pair has been undone.
   */
  ghost predicate StackHolds(t: Tokens, p: seq<nat>, k: int) {
    && Increasing(p)
    && (forall o: nat | o in p :: o < k && o < |t| && (Pending(t, o, k) || UndoneBefore(t, o, k)))
    && (forall o: nat | Pending(t, o, k) :: o in p)
  }

  /** Moreover the top of the stack is pending. */
  ghost predicate StackReady(t: Tokens, p: seq<nat>, k: int) {
    StackHolds(t, p, k) && (p != [] ==> Pending(t, p[|p| - 1], k))
  }

  /** At the end nothing is pending, so that the stack, whose top would be, is empty. */
  lemma StackEndsEmpty(t: Tokens, p: seq<nat>)
    requires StackReady(t, p, |t|)
    ensures p == []
  {
  }

  lemma UndoneLater(t: Tokens, i: int, k: int)
    requires UndoneBefore(t, i, k)
    ensures UndoneBefore(t, i, k + 1)
  {
    var o, c :| (i == o || i == c) && c < k && Crossed(t, o, c);
  }

  /** The token at `k` is still as the pairing pass left it. */
  lemma NotYetUndone(t: Tokens, k: nat)
    requires k < |t|
    ensures UndoneUpTo(t, k)[k] == t[k]
  {
  }

  lemma PendingNotUndone(t: Tokens, o: nat, k: nat)
    requires Ordered(t) && Pending(t, o, k)
    ensures o < |t| && IsPaired(t[o]) && t[o].open && !UndoneBefore(t, o, k)
  {
    var c :| k <= c && PairOf(t, o, c);
    UndoneIffCrossed(t, o, c, k);
  }

  /** A position whose pair does not close at `k` is undone after `k` exactly if it was before. */
  lemma UndoneSame(t: Tokens, i: int, k: int)
    requires forall o | i == o || i == k :: !Crossed(t, o, k)
    ensures UndoneBefore(t, i, k) <==> UndoneBefore(t, i, k + 1)
  {
    if UndoneBefore(t, i, k) {
      UndoneLater(t, i, k);
    }
    if o, c :| (i == o || i == c) && c < k + 1 && Crossed(t, o, c) {
      assert c < k;
    }
  }

  lemma UndoneUpToSame(t: Tokens, k: nat)
    requires forall o :: !Crossed(t, o, k)
    ensures UndoneUpTo(t, k) == UndoneUpTo(t, k + 1)
  {
    forall i | 0 <= i < |t| ensures UndoneUpTo(t, k)[i] == UndoneUpTo(t, k + 1)[i] {
      UndoneSame(t, i, k);
    }
  }

  lemma StackSkips(t: Tokens, p: seq<nat>, k: nat)
    requires Ordered(t) && k < |t| && !IsPaired(t[k]) && StackReady(t, p, k)
    ensures StackReady(t, p, k + 1) && UndoneUpTo(t, k) == UndoneUpTo(t, k + 1)
  {
    NoPairAt(t, k);
    StackMoves(t, p, k);
    UndoneUpToSame(t, k);
  }

  lemma NoPairAt(t: Tokens, k: nat)
    requires Ordered(t) && k < |t| && (!IsPaired(t[k]) || t[k].open)
    ensures forall o :: !PairOf(t, o, k) && !Crossed(t, o, k)
  {
  }

  lemma StackMoves(t: Tokens, p: seq<nat>, k: nat)
    requires k < |t| && StackReady(t, p, k) && forall o :: !PairOf(t, o, k)
    ensures forall o: nat | o in p :: o < k + 1 && (Pending(t, o, k + 1) || UndoneBefore(t, o, k + 1))
    ensures forall o: nat | Pending(t, o, k + 1) && o != k :: o in p
    ensures p != [] ==> Pending(t, p[|p| - 1], k + 1)
    ensures !IsPaired(t[k]) ==> !Pending(t, k, k + 1)
  {
    forall o: nat | o in p
      ensures o < k + 1 && (Pending(t, o, k + 1) || UndoneBefore(t, o, k + 1))
    {
      PendingStep(t, o, k);
      if UndoneBefore(t, o, k) {
        UndoneLater(t, o, k);
      }
    }
    forall o: nat | Pending(t, o, k + 1) && o != k ensures o in p {
      PendingStep(t, o, k);
    }
    if p != [] {
      PendingStep(t, p[|p| - 1], k);
    }
  }

  lemma StackPushes(t: Tokens, p: seq<nat>, k: nat)
    requires Matching(t) && k < |t| && IsPaired(t[k]) && t[k].open && StackReady(t, p, k)
    ensures StackReady(t, p + [k], k + 1) && UndoneUpTo(t, k) == UndoneUpTo(t, k + 1)
  {
    NoPairAt(t, k);
    StackMoves(t, p, k);
    OpenIsPending(t, k);
    UndoneUpToSame(t, k);
    forall i | 0 <= i < |p| ensures p[i] < k {
      assert p[i] in p;
    }
  }

  /** At a matched close the stack has a top, and if that is not the partner the pair is crossed. */
  lemma TopDecides(t: Tokens, p: seq<nat>, k: nat, o: nat)
    requires Ordered(t) && PairOf(t, o, k) && StackReady(t, p, k)
    ensures p != [] && o in p && Pending(t, p[|p| - 1], k)
    ensures p[|p| - 1] == o <==> !Crossed(t, o, k)
    ensures p[|p| - 1] == o <==> SameId(t[p[|p| - 1]], t[k])
  {
    assert Pending(t, o, k);
    var i :| 0 <= i < |p| && p[i] == o;
    var last := p[|p| - 1];
    var c :| k <= c && PairOf(t, last, c);
    if last != o {
      if c == k {
        PartnerUnique(t, k, o, last);
      }
      assert CrossedBy(t, o, k, last, c);
      if SameId(t[last], t[k]) {
        PartnerUnique(t, k, o, last);
      }
    } else if o', c' :| CrossedBy(t, o, k, o', c') {
      NoneAboveTop(t, p, k, o', c');
    }
  }

  lemma NoneAboveTop(t: Tokens, p: seq<nat>, k: nat, o: int, c: int)
    requires StackHolds(t, p, k) && PairOf(t, o, c) && o < k <= c
    ensures p != [] && o <= p[|p| - 1]
  {
    assert Pending(t, o, k);
    var i :| 0 <= i < |p| && p[i] == o;
  }

  lemma StackUndoes(t: Tokens, p: seq<nat>, k: nat, o: nat)
    requires Ordered(t) && PairOf(t, o, k) && StackReady(t, p, k) && Crossed(t, o, k)
    ensures StackReady(t, p, k + 1)
    ensures UndoneUpTo(t, k + 1) ==
            UndoneUpTo(t, k)[o := t[o].(standing := Free)][k := t[k].(standing := Free)]
  {
    TopDecides(t, p, k, o);
    forall n: nat | n in p
      ensures n < k + 1 && (Pending(t, n, k + 1) || UndoneBefore(t, n, k + 1))
    {
      StackEntryMoves(t, k, o, n);
    }
    forall n: nat | Pending(t, n, k + 1) ensures n in p {
      CloseNotPending(t, o, k);
      NotPendingPast(t, o, k);
      PendingElsewhere(t, k, o, n);
    }
    PendingElsewhere(t, k, o, p[|p| - 1]);
    UndoneAtClose(t, k, o);
  }

  lemma PendingElsewhere(t: Tokens, k: nat, o: nat, n: nat)
    requires Ordered(t) && PairOf(t, o, k) && n != o && n != k
    ensures Pending(t, n, k) <==> Pending(t, n, k + 1)
  {
    if PairOf(t, n, k) {
      PartnerUnique(t, k, o, n);
    }
    PendingStep(t, n, k);
  }

  lemma StackEntryMoves(t: Tokens, k: nat, o: nat, n: nat)
    requires Ordered(t) && PairOf(t, o, k) && Crossed(t, o, k) && n < k
    requires Pending(t, n, k) || UndoneBefore(t, n, k)
    ensures Pending(t, n, k + 1) || UndoneBefore(t, n, k + 1)
  {
    if UndoneBefore(t, n, k) {
      UndoneLater(t, n, k);
    } else if n == o {
      UndoneIffCrossed(t, o, k, k + 1);
    } else {
      PendingElsewhere(t, k, o, n);
    }
  }

  lemma UndoneAtClose(t: Tokens, k: nat, o: nat)
    requires Ordered(t) && PairOf(t, o, k) && Crossed(t, o, k)
    ensures UndoneUpTo(t, k + 1) ==
            UndoneUpTo(t, k)[o := t[o].(standing := Free)][k := t[k].(standing := Free)]
  {
    UndoneIffCrossed(t, o, k, k + 1);
    forall i | 0 <= i < |t| && i != o && i != k
      ensures UndoneUpTo(t, k + 1)[i] == UndoneUpTo(t, k)[i]
    {
      forall n | i == n || i == k ensures !Crossed(t, n, k) {
        if PairOf(t, n, k) {
          PartnerUnique(t, k, o, n);
        }
      }
      UndoneSame(t, i, k);
    }
  }

  lemma StackPops(t: Tokens, p: seq<nat>, k: nat, o: nat)
    requires Ordered(t) && PairOf(t, o, k) && StackReady(t, p, k) && !Crossed(t, o, k)
    ensures p != [] && StackHolds(t, p[..|p| - 1], k + 1)
    ensures UndoneUpTo(t, k + 1) == UndoneUpTo(t, k)
  {
    TopDecides(t, p, k, o);
    var q := p[..|p| - 1];
    forall n: nat ensures n in q <==> n in p && n != o {
    }
    forall n: nat | n in q
      ensures n < k + 1 && (Pending(t, n, k + 1) || UndoneBefore(t, n, k + 1))
    {
      if UndoneBefore(t, n, k) {
        UndoneLater(t, n, k);
      } else {
        PendingElsewhere(t, k, o, n);
      }
    }
    forall n: nat | Pending(t, n, k + 1) ensures n in q {
      CloseNotPending(t, o, k);
      NotPendingPast(t, o, k);
      PendingElsewhere(t, k, o, n);
    }
    forall n ensures !Crossed(t, n, k) {
      if Crossed(t, n, k) && n != o {
        PartnerUnique(t, k, o, n);
      }
    }
    UndoneUpToSame(t, k);
  }

  /** Entries left on top by undone pairs are dropped until the top is pending. */
  lemma StackDrops(t: Tokens, p: seq<nat>, k: nat)
    requires Ordered(t) && StackHolds(t, p, k) && p != []
    ensures UndoneBefore(t, p[|p| - 1], k) ==> StackHolds(t, p[..|p| - 1], k)
    ensures !UndoneBefore(t, p[|p| - 1], k) ==> StackReady(t, p, k)
  {
    var last := p[|p| - 1];
    var q := p[..|p| - 1];
    forall n: nat ensures n in q <==> n in p && n != last {
    }
    assert last in p;
    if Pending(t, last, k) {
      PendingNotUndone(t, last, k);
    }
  }

  lemma UndoneOrdered(t: Tokens, k: int)
    requires Ordered(t)
    ensures Ordered(UndoneUpTo(t, k))
  {
    var s := UndoneUpTo(t, k);
    forall i, j | 0 <= i < j < |s| && SameId(s[i], s[j])
      ensures s[i].open && !s[j].open && Alike(s[i], s[j])
    {
      assert SameId(t[i], t[j]);
    }
  }
}
