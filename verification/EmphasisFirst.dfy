/** Which close an open marker takes: the first of its kind that no earlier open has taken. */
module EmphasisFirst {
  import opened EmphasisModel
  import opened EmphasisPairing

  /** A close marker between a joined open and its close. */
  ghost predicate Between(t: Tokens, o: int, c: int, j: int) {
    PairOf(t, o, c) && o < j < c && t[j].Marker? && !t[j].open
  }

  /** A close the open at `o` has passed: it could not be joined or split, or it had been joined before. */
  ghost predicate Passed(t: Tokens, o: int, j: int)
    requires 0 <= o < |t| && 0 <= j < |t| && IsPaired(t[o]) && t[j].Marker?
  {
    && (t[j].standing.Free? ==> !Alike(t[o], t[j]) && t[j].size != 3)
    && (IsPaired(t[j]) && Alike(t[o], t[j]) ==> t[j].standing.id < t[o].standing.id)
  }

  ghost predicate AllPassed(t: Tokens) {
    forall o, c, j :: Between(t, o, c, j) ==> Passed(t, o, j)
  }

  /** The opens joined so far lie before `i`, and were joined in order. */
  ghost predicate JoinedInOrder(t: Tokens, i: int) {
    && (forall a | 0 <= a < |t| && IsPaired(t[a]) && t[a].open :: a < i)
    && (forall a, b | 0 <= a < b < |t| && IsPaired(t[a]) && t[a].open && IsPaired(t[b]) && t[b].open ::
          t[a].standing.id < t[b].standing.id)
  }

  ghost predicate Outside(t: Tokens, i: int) {
    forall o, c :: PairOf(t, o, c) ==> !(o < i < c)
  }

  lemma PairBack(t: Tokens, i: nat, k: nat, o: int, c: int)
    requires i < |t| && t[i].Marker? && t[i].standing.Free? && k <= t[i].size
    requires PairOf(Splice(t, i, k), o, c)
    ensures PairOf(t, Back(i, o), Back(i, c))
    ensures Splice(t, i, k)[o] == t[Back(i, o)] && Splice(t, i, k)[c] == t[Back(i, c)]
    ensures (o < i || i + 2 < o) && (c < i || i + 2 < c)
  {
    SplicePoints(t, i, k);
    SplicePaired(t, i, k, o);
    SplicePaired(t, i, k, c);
  }

  /** Splitting an open, or a close outside all pairs, keeps what has been passed. */
  lemma SplicePassed(t: Tokens, i: nat, k: nat)
    requires i < |t| && t[i].Marker? && t[i].standing.Free? && k <= t[i].size
    requires AllPassed(t) && (t[i].open || Outside(t, i))
    ensures AllPassed(Splice(t, i, k))
  {
    var r := Splice(t, i, k);
    SplicePoints(t, i, k);
    forall o, c, j | Between(r, o, c, j) ensures Passed(r, o, j) {
      PairBack(t, i, k, o, c);
      if j < i || i + 2 < j {
        assert r[j] == t[Back(i, j)];
        assert Between(t, Back(i, o), Back(i, c), Back(i, j));
      }
    }
  }

  lemma SpliceInOrder(t: Tokens, i: nat, k: nat, o: nat)
    requires o <= i < |t| && t[i].Marker? && t[i].standing.Free? && k <= t[i].size
    requires JoinedInOrder(t, o)
    ensures JoinedInOrder(Splice(t, i, k), o)
  {
    var r := Splice(t, i, k);
    forall a | 0 <= a < |r| && IsPaired(r[a]) && r[a].open ensures a < o && r[a] == t[a] {
      SplicePaired(t, i, k, a);
    }
  }

  /** A free close of size 3 lies in no pair. */
  lemma ThreeOutside(t: Tokens, j: nat)
    requires AllPassed(t) && j < |t| && FreeClose(t[j]) && t[j].size == 3
    ensures Outside(t, j)
  {
    forall o, c | PairOf(t, o, c) ensures !(o < j < c) {
      assert Between(t, o, c, j) <==> o < j < c;
    }
  }

  lemma JoinedPair(t: Tokens, o: nat, c: nat, id: nat, a: int, b: int)
    requires o < c < |t| && FreeOpen(t[o]) && FreeClose(t[c]) && IdsBelow(t, id)
    requires PairOf(Join(t, o, c, id), a, b)
    ensures (a == o && b == c) || (PairOf(t, a, b) && a != o && b != o && a != c && b != c)
  {
    var r := Join(t, o, c, id);
    assert a in {o, c} <==> r[a].standing.id == id;
    assert b in {o, c} <==> r[b].standing.id == id;
  }

  /** Joining an open with the first close that is alike keeps what has been passed. */
  lemma JoinPassed(t: Tokens, o: nat, c: nat, id: nat)
    requires o < c < |t| && FreeOpen(t[o]) && FreeClose(t[c]) && Alike(t[o], t[c]) && IdsBelow(t, id)
    requires AllPassed(t) && forall j | o < j < c && FreeClose(t[j]) :: Apart(t[o], t[j])
    ensures AllPassed(Join(t, o, c, id))
  {
    var r := Join(t, o, c, id);
    forall a, b, j | Between(r, a, b, j) ensures Passed(r, a, j) {
      JoinedPair(t, o, c, id, a, b);
      if a != o {
        assert Between(t, a, b, j);
      }
    }
  }

  lemma JoinInOrder(t: Tokens, o: nat, c: nat, id: nat)
    requires o < c < |t| && FreeOpen(t[o]) && FreeClose(t[c]) && IdsBelow(t, id) && JoinedInOrder(t, o)
    ensures JoinedInOrder(Join(t, o, c, id), o + 1)
  {
    var r := Join(t, o, c, id);
    forall a | 0 <= a < |r| && IsPaired(r[a]) && r[a].open ensures a < o + 1 && (a == o || r[a] == t[a]) {
    }
  }

  ghost predicate FirstInvariant(t: Tokens, i: int) {
    AllPassed(t) && JoinedInOrder(t, i)
  }

  lemma {:induction false} SearchFirst(t: Tokens, o: nat, j: nat, id: nat)
    requires o < j <= |t| && FreeOpen(t[o]) && Sized(t) && IdsBelow(t, id) && FirstInvariant(t, o)
    requires forall c | o < c < j && FreeClose(t[c]) :: Apart(t[o], t[c])
    requires SearchFrom(t, o, j, id).Found?
    ensures FirstInvariant(SearchFrom(t, o, j, id).tokens, o + 1)
    decreases LiveThrees(t), |t| - j
  {
    if j == |t| {
    } else if !FreeClose(t[j]) {
      SearchFirst(t, o, j + 1, id);
    } else if t[j].size == 3 && t[o].size != 3 {
      SpliceForClose(t, o, j);
      SplitFirst(t, o, j, id);
      SearchFirst(Splice(t, j, t[o].size), o, j + 1, id);
    } else if Alike(t[o], t[j]) {
      JoinPassed(t, o, j, id);
      JoinInOrder(t, o, j, id);
    } else if t[o].size == 3 {
      SplicePassed(t, o, t[j].size);
      SpliceInOrder(t, o, t[j].size, o);
    } else {
      SearchFirst(t, o, j + 1, id);
    }
  }

  lemma SplitFirst(t: Tokens, o: nat, j: nat, id: nat)
    requires o < j < |t| && FreeOpen(t[o]) && Sized(t) && IdsBelow(t, id) && FirstInvariant(t, o)
    requires FreeClose(t[j]) && t[j].size == 3 && t[o].size != 3
    requires forall c | o < c < j && FreeClose(t[c]) :: Apart(t[o], t[c])
    ensures var r := Splice(t, j, t[o].size);
            && FirstInvariant(r, o) && IdsBelow(r, id)
            && forall c | o < c < j + 1 && FreeClose(r[c]) :: Apart(r[o], r[c])
  {
    ThreeOutside(t, j);
    SplicePassed(t, j, t[o].size);
    SpliceInOrder(t, j, t[o].size, o);
    SplicePoints(t, j, t[o].size);
  }

  lemma {:induction false} PairFirst(t: Tokens, i: nat, id: nat)
    requires i <= |t| && Sized(t) && IdsBelow(t, id) && FirstInvariant(t, i) && PairFrom(t, i, id).Found?
    ensures FirstInvariant(PairFrom(t, i, id).tokens, |PairFrom(t, i, id).tokens|)
    decreases LiveThrees(t), |t| - i
  {
    if i < |t| {
      if FreeOpen(t[i]) {
        SearchMeasure(t, i, i + 1, id);
        SearchIds(t, i, i + 1, id);
        SearchFirst(t, i, i + 1, id);
        var r := SearchFrom(t, i, i + 1, id);
        PairFirst(r.tokens, i + 1, r.next);
      } else {
        PairFirst(t, i + 1, id);
      }
    }
  }

  /**
   First come, first served: whatever live close of its kind lies between an open and the close it was joined with, an
   earlier open was joined with it.
   */
  lemma TakesFirst(t: Tokens, o: int, c: int, j: int)
    requires Unprocessed(t) && PairAll(t).Found?
    requires Between(PairAll(t).tokens, o, c, j)
    requires !PairAll(t).tokens[j].standing.Disabled? && Alike(PairAll(t).tokens[o], PairAll(t).tokens[j])
    ensures exists o' :: o' < o && PairOf(PairAll(t).tokens, o', j)
  {
    var r := PairAll(t).tokens;
    PairAllCorrect(t);
    PairFirst(t, 0, 0);
    assert Passed(r, o, j);
    assert HasPartner(r, j);
    var o' :| 0 <= o' < |r| && o' != j && SameId(r[j], r[o']);
    EarlierOpen(r, o, j, o');
  }

  lemma EarlierOpen(r: Tokens, o: int, j: int, o': int)
    requires Ordered(r) && JoinedInOrder(r, |r|) && 0 <= o < j < |r| && 0 <= o' < |r| && o' != j
    requires IsPaired(r[o]) && r[o].open && IsPaired(r[j]) && !r[j].open && SameId(r[j], r[o'])
    requires r[j].standing.id < r[o].standing.id
    ensures o' < o && PairOf(r, o', j)
  {
    if o' < j {
      assert SameId(r[o'], r[j]);
    }
  }
}
