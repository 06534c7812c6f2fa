/**
 The pairing pass: each unmatched open marker looks to its right for a close marker of the same
 character and size, splitting markers of size 3 on the way. The list grows while it is walked.
 */
module EmphasisPairing {
  import opened EmphasisModel

  /** A disabled copy of the marker followed by two fresh markers of its kind, sizes `size - k` and `k`. */
  function Split(x: Token, k: nat): Tokens
    requires x.Marker? && k <= x.size
  {
    [x.(standing := Disabled), Marker(x.open, x.ch, x.size - k, Free), Marker(x.open, x.ch, k, Free)]
  }

  /** The list with the marker at `i` split. */
  function Splice(t: Tokens, i: nat, k: nat): (r: Tokens)
    requires i < |t| && t[i].Marker? && k <= t[i].size
    ensures |r| == |t| + 2
  {
    t[..i] + Split(t[i], k) + t[i + 1..]
  }

  lemma SplicePoints(t: Tokens, i: nat, k: nat)
    requires i < |t| && t[i].Marker? && k <= t[i].size
    ensures var r := Splice(t, i, k);
            && (forall n | 0 <= n < i :: r[n] == t[n])
            && r[i] == t[i].(standing := Disabled)
            && r[i + 1] == Marker(t[i].open, t[i].ch, t[i].size - k, Free)
            && r[i + 2] == Marker(t[i].open, t[i].ch, k, Free)
            && (forall n | i + 3 <= n < |r| :: r[n] == t[n - 2])
  {
  }

  lemma SpliceSized(t: Tokens, i: nat, k: nat)
    requires i < |t| && t[i].Marker? && 1 <= k < t[i].size && Sized(t)
    ensures Sized(Splice(t, i, k))
  {
    SplicePoints(t, i, k);
  }

  function Join(t: Tokens, o: nat, c: nat, id: nat): (r: Tokens)
    requires o < c < |t| && t[o].Marker? && t[c].Marker?
    ensures |r| == |t|
  {
    t[o := t[o].(standing := Paired(id))][c := t[c].(standing := Paired(id))]
  }

  // ---- Termination measure: markers of size 3 still in play ----

  predicate LiveThree(x: Token) {
    x.Marker? && x.standing.Free? && x.size == 3
  }

  function LiveThrees(t: Tokens): nat {
    if t == [] then 0 else (if LiveThree(t[0]) then 1 else 0) + LiveThrees(t[1..])
  }

  lemma {:induction false} LiveThreesConcat(a: Tokens, b: Tokens)
    ensures LiveThrees(a + b) == LiveThrees(a) + LiveThrees(b)
  {
    if a == [] {
      assert a + b == b;
    } else {
      assert (a + b)[1..] == a[1..] + b;
      LiveThreesConcat(a[1..], b);
    }
  }

  lemma LiveThreesAround(t: Tokens, i: nat)
    requires i < |t|
    ensures LiveThrees(t) == LiveThrees(t[..i]) + (if LiveThree(t[i]) then 1 else 0) + LiveThrees(t[i + 1..])
  {
    assert t == t[..i] + t[i..];
    LiveThreesConcat(t[..i], t[i..]);
    assert t[i..][1..] == t[i + 1..];
  }

  /** Splitting a live size-3 marker into two smaller ones leaves one fewer. */
  lemma SpliceShrinks(t: Tokens, i: nat, k: nat)
    requires i < |t| && LiveThree(t[i]) && 1 <= k <= 2
    ensures LiveThrees(Splice(t, i, k)) == LiveThrees(t) - 1
  {
    LiveThreesAround(t, i);
    LiveThreesParts(t[..i], Split(t[i], k), t[i + 1..]);
    PartsAreSmall(t[i], k);
    NoLiveThrees(Split(t[i], k));
  }

  lemma PartsAreSmall(x: Token, k: nat)
    requires LiveThree(x) && 1 <= k <= 2
    ensures |Split(x, k)| == 3 && forall i | 0 <= i < 3 :: !LiveThree(Split(x, k)[i])
  {
  }

  lemma LiveThreesParts(a: Tokens, b: Tokens, c: Tokens)
    ensures LiveThrees(a + b + c) == LiveThrees(a) + LiveThrees(b) + LiveThrees(c)
  {
    LiveThreesConcat(a + b, c);
    LiveThreesConcat(a, b);
  }

  lemma {:induction false} NoLiveThrees(t: Tokens)
    requires forall i | 0 <= i < |t| :: !LiveThree(t[i])
    ensures LiveThrees(t) == 0
  {
    if t != [] {
      NoLiveThrees(t[1..]);
    }
  }

  lemma UpdateMeasure(t: Tokens, i: nat, x: Token)
    requires i < |t| && !LiveThree(x)
    ensures LiveThrees(t[i := x]) <= LiveThrees(t)
  {
    LiveThreesAround(t, i);
    LiveThreesAround(t[i := x], i);
    assert t[i := x][..i] == t[..i] && t[i := x][i + 1..] == t[i + 1..];
  }

  lemma JoinMeasure(t: Tokens, o: nat, c: nat, id: nat)
    requires o < c < |t| && t[o].Marker? && t[c].Marker?
    ensures LiveThrees(Join(t, o, c, id)) <= LiveThrees(t)
  {
    UpdateMeasure(t, o, t[o].(standing := Paired(id)));
    UpdateMeasure(t[o := t[o].(standing := Paired(id))], c, t[c].(standing := Paired(id)));
  }

  // ---- The two loops ----

  /**
   `Clash`: an open of size 3 meets a close of size 3 and another character first, and is split into
   parts of size 0 and 3. `Found`: the inner loop is over, with the list and the next id it leaves.
   */
  datatype Search = Clash | Found(tokens: Tokens, next: nat)

  /** The inner loop for the open marker at `o`, with `j` the next position to look at. */
  function SearchFrom(t: Tokens, o: nat, j: nat, id: nat): (r: Search)
    requires o < j <= |t| && FreeOpen(t[o]) && Sized(t)
    decreases LiveThrees(t), |t| - j
  {
    if j == |t| then
      Found(t, id)
    else if !FreeClose(t[j]) then
      SearchFrom(t, o, j + 1, id)
    else if t[j].size == 3 && t[o].size != 3 then
      SpliceForClose(t, o, j);
      SearchFrom(Splice(t, j, t[o].size), o, j + 1, id)
    else if Alike(t[o], t[j]) then
      Found(Join(t, o, j, id), id + 1)
    else if t[o].size == 3 then
      if t[j].size == 3 then Clash else Found(Splice(t, o, t[j].size), id)
    else
      SearchFrom(t, o, j + 1, id)
  }

  lemma SpliceForClose(t: Tokens, o: nat, j: nat)
    requires o < j < |t| && FreeOpen(t[o]) && FreeClose(t[j]) && Sized(t)
    requires t[j].size == 3 && t[o].size != 3
    ensures var r := Splice(t, j, t[o].size);
            Sized(r) && r[o] == t[o] && LiveThrees(r) == LiveThrees(t) - 1
  {
    SpliceShrinks(t, j, t[o].size);
    SpliceSized(t, j, t[o].size);
    SplicePoints(t, j, t[o].size);
  }

  /** The list may grow, but only at the cost of a live marker of size 3. */
  lemma {:induction false} SearchMeasure(t: Tokens, o: nat, j: nat, id: nat)
    requires o < j <= |t| && FreeOpen(t[o]) && Sized(t)
    ensures var r := SearchFrom(t, o, j, id);
            r.Found? ==>
              && Sized(r.tokens) && |t| <= |r.tokens|
              && (LiveThrees(r.tokens) < LiveThrees(t) || (LiveThrees(r.tokens) == LiveThrees(t) && |r.tokens| == |t|))
    decreases LiveThrees(t), |t| - j
  {
    if j == |t| {
    } else if !FreeClose(t[j]) {
      SearchMeasure(t, o, j + 1, id);
    } else if t[j].size == 3 && t[o].size != 3 {
      SpliceForClose(t, o, j);
      SearchMeasure(Splice(t, j, t[o].size), o, j + 1, id);
    } else if Alike(t[o], t[j]) {
      JoinMeasure(t, o, j, id);
    } else if t[o].size == 3 {
      if t[j].size != 3 {
        SpliceShrinks(t, o, t[j].size);
        SpliceSized(t, o, t[j].size);
      }
    } else {
      SearchMeasure(t, o, j + 1, id);
    }
  }

  /** The outer loop from position `i`. */
  function PairFrom(t: Tokens, i: nat, id: nat): (r: Search)
    requires i <= |t| && Sized(t)
    decreases LiveThrees(t), |t| - i
  {
    if i == |t| then
      Found(t, id)
    else if FreeOpen(t[i]) then
      SearchMeasure(t, i, i + 1, id);
      match SearchFrom(t, i, i + 1, id)
      case Clash => Clash
      case Found(t', id') => PairFrom(t', i + 1, id')
    else
      PairFrom(t, i + 1, id)
  }

  function PairAll(t: Tokens): Search
    requires Sized(t)
  {
    PairFrom(t, 0, 0)
  }

  // ---- What the two updates keep ----

  /** Where a position of `t` goes when two tokens are inserted behind `i`. */
  function Shift(i: nat, n: nat): nat {
    if n <= i then n else n + 2
  }

  /** Where a position of the longer list comes from. */
  function Back(i: nat, n: int): int {
    if n <= i then n else n - 2
  }

  lemma SplicePaired(t: Tokens, i: nat, k: nat, n: int)
    requires i < |t| && t[i].Marker? && t[i].standing.Free? && k <= t[i].size
    requires 0 <= n < |t| + 2 && IsPaired(Splice(t, i, k)[n])
    ensures 0 <= Back(i, n) < |t| && Back(i, n) != i && Splice(t, i, k)[n] == t[Back(i, n)]
  {
    SplicePoints(t, i, k);
  }

  lemma SpliceKeepsPartner(t: Tokens, i: nat, k: nat, n: int, m: int)
    requires i < |t| && t[i].Marker? && t[i].standing.Free? && k <= t[i].size
    requires 0 <= n < |t| + 2 && IsPaired(Splice(t, i, k)[n])
    requires 0 <= m < |t| && m != Back(i, n) && SameId(Splice(t, i, k)[n], t[m])
    ensures HasPartner(Splice(t, i, k), n)
  {
    SplicePoints(t, i, k);
    assert Splice(t, i, k)[Shift(i, m)] == t[m];
  }

  lemma SpliceKeepsPartnered(t: Tokens, i: nat, k: nat, next: nat)
    requires i < |t| && t[i].Marker? && t[i].standing.Free? && k <= t[i].size
    requires Partnered(t) && IdsBelow(t, next)
    ensures Partnered(Splice(t, i, k)) && IdsBelow(Splice(t, i, k), next)
  {
    var r := Splice(t, i, k);
    forall n | 0 <= n < |r| && IsPaired(r[n])
      ensures r[n].standing.id < next && HasPartner(r, n)
    {
      SplicePaired(t, i, k, n);
      assert HasPartner(t, Back(i, n));
      var m :| 0 <= m < |t| && m != Back(i, n) && SameId(t[Back(i, n)], t[m]);
      SpliceKeepsPartner(t, i, k, n, m);
    }
  }

  lemma SpliceKeepsOrdered(t: Tokens, i: nat, k: nat)
    requires i < |t| && t[i].Marker? && t[i].standing.Free? && k <= t[i].size
    requires Ordered(t)
    ensures Ordered(Splice(t, i, k))
  {
    var r := Splice(t, i, k);
    forall a, b | 0 <= a < b < |r| && SameId(r[a], r[b])
      ensures r[a].open && !r[b].open && Alike(r[a], r[b])
    {
      SplicePaired(t, i, k, a);
      SplicePaired(t, i, k, b);
      assert SameId(t[Back(i, a)], t[Back(i, b)]);
    }
  }

  lemma JoinKeepsPartnered(t: Tokens, o: nat, c: nat, next: nat)
    requires o < c < |t| && FreeOpen(t[o]) && FreeClose(t[c])
    requires Partnered(t) && IdsBelow(t, next)
    ensures Partnered(Join(t, o, c, next)) && IdsBelow(Join(t, o, c, next), next + 1)
  {
    var r := Join(t, o, c, next);
    forall n | 0 <= n < |r| && IsPaired(r[n])
      ensures r[n].standing.id < next + 1 && HasPartner(r, n)
    {
      if n == o {
        assert SameId(r[n], r[c]);
      } else if n == c {
        assert SameId(r[n], r[o]);
      } else {
        assert HasPartner(t, n);
        var m :| 0 <= m < |t| && m != n && SameId(t[n], t[m]);
        assert SameId(r[n], r[m]);
      }
    }
  }

  lemma JoinKeepsOrdered(t: Tokens, o: nat, c: nat, next: nat)
    requires o < c < |t| && FreeOpen(t[o]) && FreeClose(t[c]) && Alike(t[o], t[c])
    requires Ordered(t) && IdsBelow(t, next)
    ensures Ordered(Join(t, o, c, next))
  {
    var r := Join(t, o, c, next);
    forall a, b | 0 <= a < b < |r| && SameId(r[a], r[b])
      ensures r[a].open && !r[b].open && Alike(r[a], r[b])
    {
      if a in {o, c} || b in {o, c} {
        assert a == o && b == c;
      } else {
        assert SameId(t[a], t[b]);
      }
    }
  }

  lemma SpellThree(x: Token, y: Token, z: Token)
    ensures Spell([x, y, z]) == SpellToken(x) + SpellToken(y) + SpellToken(z)
  {
    assert [x, y, z][1..] == [y, z] && [y, z][1..] == [z];
    assert Spell([z]) == SpellToken(z);
    assert Spell([y, z]) == SpellToken(y) + SpellToken(z);
  }

  lemma SpellAround(a: Tokens, b: Tokens, c: Tokens)
    ensures Spell(a + b + c) == Spell(a) + Spell(b) + Spell(c)
  {
    SpellConcat(a + b, c);
    SpellConcat(a, b);
  }

  lemma SplitSpelling(x: Token, k: nat)
    requires x.Marker? && x.standing.Free? && k <= x.size
    ensures Spell(Split(x, k)) == Spell([x])
  {
    var parts := Split(x, k);
    assert parts == [parts[0], parts[1], parts[2]];
    SpellThree(parts[0], parts[1], parts[2]);
    assert Spell([x]) == SpellToken(x);
    assert Repeat(x.ch, x.size - k) + Repeat(x.ch, k) == Repeat(x.ch, x.size);
  }

  lemma SpliceKeepsSpelling(t: Tokens, i: nat, k: nat)
    requires i < |t| && t[i].Marker? && t[i].standing.Free? && k <= t[i].size
    ensures Spell(Splice(t, i, k)) == Spell(t)
  {
    var a, b := t[..i], t[i + 1..];
    SplitSpelling(t[i], k);
    assert t == a + [t[i]] + b;
    assert Spell(t) == Spell(a) + Spell([t[i]]) + Spell(b) by {
      SpellAround(a, [t[i]], b);
    }
    SpellAround(a, Split(t[i], k), b);
  }

  lemma JoinKeepsSpelling(t: Tokens, o: nat, c: nat, id: nat)
    requires o < c < |t| && FreeOpen(t[o]) && FreeClose(t[c])
    ensures Spell(Join(t, o, c, id)) == Spell(t)
  {
    SpellPointwise(Join(t, o, c, id), t);
  }

  // ---- Invariant of the pass ----

  /** Neither alike nor of size 3: an open and a close the pass leaves unmatched for good. */
  predicate Apart(x: Token, y: Token)
    requires x.Marker? && y.Marker?
  {
    !Alike(x, y) && x.size != 3 && y.size != 3
  }

  /** Every open before `i` that is still free is apart from every free close behind it. */
  ghost predicate Settled(t: Tokens, i: int) {
    forall a, c | 0 <= a < i && a < c < |t| && FreeOpen(t[a]) && FreeClose(t[c]) :: Apart(t[a], t[c])
  }

  ghost predicate PassInvariant(t: Tokens, i: int, next: nat, typed: string) {
    Sized(t) && Matching(t) && IdsBelow(t, next) && Settled(t, i) && Spell(t) == typed
  }

  lemma SpliceCloseSettled(t: Tokens, o: nat, j: nat)
    requires o < j < |t| && FreeOpen(t[o]) && FreeClose(t[j]) && t[j].size == 3 && 1 <= t[o].size < 3
    requires Settled(t, o)
    requires forall c | o < c < j && FreeClose(t[c]) :: Apart(t[o], t[c])
    ensures var r := Splice(t, j, t[o].size);
            Settled(r, o) && forall c | o < c < j + 1 && FreeClose(r[c]) :: Apart(r[o], r[c])
  {
    SplicePoints(t, j, t[o].size);
    // An earlier open that is still free would be apart from t[j], whose size is 3.
    assert forall a | 0 <= a < o :: !FreeOpen(t[a]);
  }

  lemma SpliceOpenSettled(t: Tokens, o: nat, k: nat)
    requires o < |t| && FreeOpen(t[o]) && k <= t[o].size
    requires Settled(t, o)
    ensures Settled(Splice(t, o, k), o + 1)
  {
    SplicePoints(t, o, k);
    var r := Splice(t, o, k);
    forall a, c | 0 <= a < o + 1 && a < c < |r| && FreeOpen(r[a]) && FreeClose(r[c])
      ensures Apart(r[a], r[c])
    {
      assert r[a] == t[a];
      assert r[c] == t[Back(o, c)];
      assert Apart(t[a], t[Back(o, c)]);
    }
  }

  lemma JoinSettled(t: Tokens, o: nat, c: nat, id: nat)
    requires o < c < |t| && FreeOpen(t[o]) && FreeClose(t[c])
    requires Settled(t, o)
    ensures Settled(Join(t, o, c, id), o + 1)
  {
    var r := Join(t, o, c, id);
    forall a, b | 0 <= a < o + 1 && a < b < |r| && FreeOpen(r[a]) && FreeClose(r[b])
      ensures Apart(r[a], r[b])
    {
      assert r[a] == t[a] && r[b] == t[b];
    }
  }

  lemma SpliceKeeps(t: Tokens, i: nat, k: nat, id: nat)
    requires i < |t| && t[i].Marker? && t[i].standing.Free? && 1 <= k < t[i].size
    requires Sized(t) && Matching(t) && IdsBelow(t, id)
    ensures var r := Splice(t, i, k);
            Sized(r) && Matching(r) && IdsBelow(r, id) && Spell(r) == Spell(t)
  {
    SpliceKeepsPartnered(t, i, k, id);
    SpliceKeepsOrdered(t, i, k);
    SpliceKeepsSpelling(t, i, k);
    SpliceSized(t, i, k);
  }

  lemma JoinKeeps(t: Tokens, o: nat, c: nat, id: nat)
    requires o < c < |t| && FreeOpen(t[o]) && FreeClose(t[c]) && Alike(t[o], t[c])
    requires Sized(t) && Matching(t) && IdsBelow(t, id)
    ensures var r := Join(t, o, c, id);
            Sized(r) && Matching(r) && IdsBelow(r, id + 1) && Spell(r) == Spell(t)
  {
    JoinKeepsPartnered(t, o, c, id);
    JoinKeepsOrdered(t, o, c, id);
    JoinKeepsSpelling(t, o, c, id);
  }

  lemma {:induction false} SearchKeeps(t: Tokens, o: nat, j: nat, id: nat, typed: string)
    requires o < j <= |t| && FreeOpen(t[o])
    requires PassInvariant(t, o, id, typed)
    requires forall c | o < c < j && FreeClose(t[c]) :: Apart(t[o], t[c])
    requires SearchFrom(t, o, j, id).Found?
    ensures var r := SearchFrom(t, o, j, id);
            o < |r.tokens| && PassInvariant(r.tokens, o + 1, r.next, typed)
    decreases LiveThrees(t), |t| - j
  {
    if j == |t| {
    } else if !FreeClose(t[j]) {
      SearchKeeps(t, o, j + 1, id, typed);
    } else if t[j].size == 3 && t[o].size != 3 {
      SpliceForClose(t, o, j);
      SpliceKeeps(t, j, t[o].size, id);
      SpliceCloseSettled(t, o, j);
      SearchKeeps(Splice(t, j, t[o].size), o, j + 1, id, typed);
    } else if Alike(t[o], t[j]) {
      JoinKeeps(t, o, j, id);
      JoinSettled(t, o, j, id);
    } else if t[o].size == 3 {
      SpliceKeeps(t, o, t[j].size, id);
      SpliceOpenSettled(t, o, t[j].size);
    } else {
      SearchKeeps(t, o, j + 1, id, typed);
    }
  }

  lemma {:induction false} PairKeeps(t: Tokens, i: nat, id: nat, typed: string)
    requires i <= |t| && PassInvariant(t, i, id, typed)
    requires PairFrom(t, i, id).Found?
    ensures var r := PairFrom(t, i, id);
            PassInvariant(r.tokens, |r.tokens|, r.next, typed)
    decreases LiveThrees(t), |t| - i
  {
    if i == |t| {
    } else if FreeOpen(t[i]) {
      SearchMeasure(t, i, i + 1, id);
      SearchKeeps(t, i, i + 1, id, typed);
      var r := SearchFrom(t, i, i + 1, id);
      PairKeeps(r.tokens, i + 1, r.next, typed);
    } else {
      PairKeeps(t, i + 1, id, typed);
    }
  }

  /**
   The pairing pass on a freshly scanned list: the result is a matching of alike opens and closes, it
   spells what was typed, and no open left unmatched has a later unmatched close it could be joined with.
   */
  lemma PairAllCorrect(t: Tokens)
    requires Unprocessed(t) && PairAll(t).Found?
    ensures var r := PairAll(t);
            && Sized(r.tokens) && Matching(r.tokens) && Spell(r.tokens) == Spell(t)
            && forall o, c | 0 <= o < c < |r.tokens| && FreeOpen(r.tokens[o]) && FreeClose(r.tokens[c]) ::
                 !Alike(r.tokens[o], r.tokens[c])
  {
    PairKeeps(t, 0, 0, Spell(t));
  }

  // ---- When the pass clashes ----

  /** No open of size 3 has a later close of size 3 with another character. */
  ghost predicate ThreesAgree(t: Tokens) {
    forall o, c | 0 <= o < c < |t| && FreeOpen(t[o]) && FreeClose(t[c]) && t[o].size == 3 && t[c].size == 3 ::
      t[o].ch == t[c].ch
  }

  lemma {:induction false} SearchAgrees(t: Tokens, o: nat, j: nat, id: nat)
    requires o < j <= |t| && FreeOpen(t[o]) && Sized(t) && ThreesAgree(t)
    ensures SearchFrom(t, o, j, id).Found? && ThreesAgree(SearchFrom(t, o, j, id).tokens)
    decreases LiveThrees(t), |t| - j
  {
    if j == |t| {
    } else if !FreeClose(t[j]) {
      SearchAgrees(t, o, j + 1, id);
    } else if t[j].size == 3 && t[o].size != 3 {
      SpliceForClose(t, o, j);
      SpliceAgrees(t, j, t[o].size);
      SearchAgrees(Splice(t, j, t[o].size), o, j + 1, id);
    } else if Alike(t[o], t[j]) {
    } else if t[o].size == 3 {
      SpliceAgrees(t, o, t[j].size);
    } else {
      SearchAgrees(t, o, j + 1, id);
    }
  }

  lemma SpliceAgrees(t: Tokens, i: nat, k: nat)
    requires i < |t| && t[i].Marker? && t[i].size == 3 && 1 <= k <= 2 && ThreesAgree(t)
    ensures ThreesAgree(Splice(t, i, k))
  {
    var r := Splice(t, i, k);
    SplicePoints(t, i, k);
    forall o, c | 0 <= o < c < |r| && FreeOpen(r[o]) && FreeClose(r[c]) && r[o].size == 3 && r[c].size == 3
      ensures r[o].ch == r[c].ch
    {
      assert r[o] == t[Back(i, o)] && r[c] == t[Back(i, c)];
    }
  }

  lemma {:induction false} PairAgrees(t: Tokens, i: nat, id: nat)
    requires i <= |t| && Sized(t) && ThreesAgree(t)
    ensures PairFrom(t, i, id).Found?
    decreases LiveThrees(t), |t| - i
  {
    if i == |t| {
    } else if FreeOpen(t[i]) {
      SearchMeasure(t, i, i + 1, id);
      SearchAgrees(t, i, i + 1, id);
      var r := SearchFrom(t, i, i + 1, id);
      PairAgrees(r.tokens, i + 1, r.next);
    } else {
      PairAgrees(t, i + 1, id);
    }
  }

  lemma {:induction false} SearchIds(t: Tokens, o: nat, j: nat, id: nat)
    requires o < j <= |t| && FreeOpen(t[o]) && Sized(t) && IdsBelow(t, id)
    requires SearchFrom(t, o, j, id).Found?
    ensures IdsBelow(SearchFrom(t, o, j, id).tokens, SearchFrom(t, o, j, id).next)
    decreases LiveThrees(t), |t| - j
  {
    if j == |t| {
    } else if !FreeClose(t[j]) {
      SearchIds(t, o, j + 1, id);
    } else if t[j].size == 3 && t[o].size != 3 {
      SpliceForClose(t, o, j);
      SplicePoints(t, j, t[o].size);
      SearchIds(Splice(t, j, t[o].size), o, j + 1, id);
    } else if Alike(t[o], t[j]) {
    } else if t[o].size == 3 {
      SplicePoints(t, o, t[j].size);
    } else {
      SearchIds(t, o, j + 1, id);
    }
  }
}
