/** When the pairing pass ends, decided by one scan of the list from left to right. */
module EmphasisScan {
  import opened EmphasisModel
  import opened EmphasisPairing
  import opened EmphasisDelimiters

  /** The markers that can still be matched, in order. */
  function Live(t: Tokens): seq<Delim>
    requires Sized(t)
  {
    if t == [] then [] else LiveOne(t[0]) + Live(t[1..])
  }

  function LiveOne(x: Token): seq<Delim>
    requires x.Marker? ==> 1 <= x.size <= 3
  {
    if x.Marker? && x.standing.Free? then [Delimiter(x.open, x.ch, x.size)] else []
  }

  /** The markers of the list never make the pairing pass run for ever. */
  predicate Harmless(t: Tokens)
    requires Sized(t)
  {
    !EverClashing([], Live(t))
  }

  // ---- The pass on tokens is the pass on their delimiters ----

  lemma {:induction false} LiveConcat(a: Tokens, b: Tokens)
    requires Sized(a) && Sized(b)
    ensures Live(a + b) == Live(a) + Live(b)
  {
    if a == [] {
      assert a + b == b;
    } else {
      assert (a + b)[1..] == a[1..] + b;
      LiveConcat(a[1..], b);
    }
  }

  lemma LiveFrom(t: Tokens, i: nat)
    requires Sized(t) && i < |t|
    ensures Live(t[i..]) == LiveOne(t[i]) + Live(t[i + 1..])
  {
    assert t[i..][1..] == t[i + 1..];
  }

  function Kind(x: Token): Delim
    requires x.Marker? && 1 <= x.size <= 3
  {
    Delimiter(x.open, x.ch, x.size)
  }

  lemma LiveSplice(t: Tokens, i: nat, k: nat)
    requires Sized(t) && i < |t| && t[i].Marker? && t[i].size == 3 && 1 <= k <= 2
    ensures Sized(Splice(t, i, k))
    ensures Live(Splice(t, i, k)[i + 1..]) ==
            TwoMore(Part(Kind(t[i]), 3 - k), Part(Kind(t[i]), k), Live(t[i + 1..]))
  {
    var r := Splice(t, i, k);
    SpliceSized(t, i, k);
    SplicePoints(t, i, k);
    LiveFrom(r, i + 1);
    LiveFrom(r, i + 2);
    assert r[i + 3..] == t[i + 1..];
  }

  /** The list `r` is `t` with the markers from `j` on walked past by the small open at `o`. */
  ghost predicate WalkedPast(t: Tokens, o: nat, j: nat, r: Tokens)
    requires o < j <= |t| && FreeOpen(t[o]) && Sized(t) && t[o].size < 3
  {
    && j <= |r| && Sized(r) && r[o + 1..j] == t[o + 1..j]
    && Live(r[j..]) == Walked(Kind(t[o]), Live(t[j..]))
  }

  lemma WalkedOver(w: Delim, x: seq<Delim>, rest: seq<Delim>)
    requires w.size < 3 && |x| <= 1 && (x != [] ==> x[0].open || (x[0].size < 3 && !Same(w, x[0])))
    ensures Walked(w, x + rest) == x + Walked(w, rest)
  {
    if x == [] {
      assert x + rest == rest && x + Walked(w, rest) == Walked(w, rest);
    } else {
      assert x == [x[0]];
      WalkedCons(w, x[0], rest);
    }
  }

  lemma SkipWalks(t: Tokens, o: nat, j: nat, r: Tokens)
    requires o < j < |t| && FreeOpen(t[o]) && Sized(t) && t[o].size < 3 && WalkedPast(t, o, j + 1, r)
    requires !FreeClose(t[j]) || (t[j].size != 3 && !Alike(t[o], t[j]))
    ensures WalkedPast(t, o, j, r)
  {
    SearchSkips(t, r, o, j);
    LiveFrom(t, j);
    WalkedOver(Kind(t[o]), LiveOne(t[j]), Live(t[j + 1..]));
  }

  lemma SplitLive(t: Tokens, o: nat, j: nat, s: Tokens)
    requires o < j < |t| && FreeOpen(t[o]) && Sized(t) && t[o].size < 3
    requires FreeClose(t[j]) && t[j].size == 3 && s == Splice(t, j, t[o].size) && Sized(s)
    ensures j < |s| && LiveOne(s[j]) == [] && s[o + 1..j] == t[o + 1..j]
    ensures Walked(Kind(t[o]), Live(s[j + 1..])) == Walked(Kind(t[o]), Live(t[j..]))
  {
    SplicePoints(t, j, t[o].size);
    LiveSplice(t, j, t[o].size);
    LiveFrom(t, j);
    WalkedParts(Kind(t[o]), Kind(t[j]), Live(t[j + 1..]));
  }

  lemma SplitWalks(t: Tokens, o: nat, j: nat, s: Tokens, r: Tokens)
    requires o < j < |t| && FreeOpen(t[o]) && Sized(t) && t[o].size < 3
    requires FreeClose(t[j]) && t[j].size == 3 && s == Splice(t, j, t[o].size) && Sized(s)
    requires j + 1 <= |s| && FreeOpen(s[o]) && s[o] == t[o] && WalkedPast(s, o, j + 1, r)
    ensures WalkedPast(t, o, j, r)
  {
    SearchSkips(s, r, o, j);
    SplitLive(t, o, j, s);
    assert [] + Live(r[j + 1..]) == Live(r[j + 1..]);
  }

  lemma JoinWalks(t: Tokens, o: nat, j: nat, id: nat)
    requires o < j < |t| && FreeOpen(t[o]) && Sized(t) && t[o].size < 3
    requires FreeClose(t[j]) && Alike(t[o], t[j])
    ensures WalkedPast(t, o, j, Join(t, o, j, id))
  {
    var r := Join(t, o, j, id);
    LiveFrom(t, j);
    LiveFrom(r, j);
    WalkedCons(Kind(t[o]), Kind(t[j]), Live(t[j + 1..]));
    assert r[j + 1..] == t[j + 1..] && r[o + 1..j] == t[o + 1..j];
    assert [] + Live(r[j + 1..]) == Live(r[j + 1..]);
  }

  /** What the inner loop of a small open leaves behind it. */
  lemma {:induction false} SmallSearch(t: Tokens, o: nat, j: nat, id: nat)
    requires o < j <= |t| && FreeOpen(t[o]) && Sized(t) && t[o].size < 3
    ensures SearchFrom(t, o, j, id).Found? && WalkedPast(t, o, j, SearchFrom(t, o, j, id).tokens)
    decreases LiveThrees(t), |t| - j
  {
    if j == |t| {
      assert t[j..] == [];
    } else if !FreeClose(t[j]) || (t[j].size != 3 && !Alike(t[o], t[j])) {
      SmallSearch(t, o, j + 1, id);
      SkipWalks(t, o, j, SearchFrom(t, o, j + 1, id).tokens);
    } else if t[j].size == 3 {
      SpliceForClose(t, o, j);
      var s := Splice(t, j, t[o].size);
      SmallSearch(s, o, j + 1, id);
      SplitWalks(t, o, j, s, SearchFrom(s, o, j + 1, id).tokens);
    } else {
      JoinWalks(t, o, j, id);
    }
  }

  lemma SameInit<T>(x: seq<T>, y: seq<T>, p: T, q: T)
    requires x + [p] == y + [q] && |x| == |y|
    ensures x == y && p == q
  {
    assert (x + [p])[..|x|] == x && (y + [q])[..|x|] == y;
    assert (x + [p])[|x|] == p && (y + [q])[|x|] == q;
  }

  lemma SearchSkips(t: Tokens, r: Tokens, o: nat, j: nat)
    requires o < j < |t| && j + 1 <= |r| && Sized(t) && Sized(r)
    requires r[o + 1..j + 1] == t[o + 1..j + 1]
    ensures r[o + 1..j] == t[o + 1..j] && r[j] == t[j]
    ensures Live(r[j..]) == LiveOne(t[j]) + Live(r[j + 1..])
  {
    assert r[o + 1..j + 1] == r[o + 1..j] + [r[j]] && t[o + 1..j + 1] == t[o + 1..j] + [t[j]];
    SameInit(r[o + 1..j], t[o + 1..j], r[j], t[j]);
    LiveFrom(r, j);
  }

  /** What the inner loop of an open of size 3 comes to: the first free close decides. */
  ghost predicate DecidedByFirst(t: Tokens, o: nat, j: nat, id: nat)
    requires o < j <= |t| && FreeOpen(t[o]) && Sized(t) && t[o].size == 3
  {
    var r, l, k := SearchFrom(t, o, j, id), Live(t[j..]), FirstClose(Live(t[j..]));
    if k == |l| then r == Found(t, id)
    else if l[k].size < 3 then r == Found(Splice(t, o, l[k].size), id)
    else if l[k].ch != t[o].ch then r == Clash
    else
      && r.Found? && j <= |r.tokens| && Sized(r.tokens) && r.tokens[o + 1..j] == t[o + 1..j]
      && Live(r.tokens[j..]) == Without(l, k)
  }

  lemma SkipDecided(t: Tokens, o: nat, j: nat, id: nat)
    requires o < j < |t| && FreeOpen(t[o]) && Sized(t) && t[o].size == 3 && !FreeClose(t[j])
    requires DecidedByFirst(t, o, j + 1, id)
    ensures DecidedByFirst(t, o, j, id)
  {
    var l, rest := Live(t[j..]), Live(t[j + 1..]);
    LiveFrom(t, j);
    if LiveOne(t[j]) != [] {
      FirstCloseCons(Kind(t[j]), rest);
    } else {
      assert l == rest;
    }
    var k, r := FirstClose(rest), SearchFrom(t, o, j + 1, id);
    if k < |rest| && rest[k].size == 3 && rest[k].ch == t[o].ch {
      SearchSkips(t, r.tokens, o, j);
      if LiveOne(t[j]) != [] {
        WithoutCons(Kind(t[j]), rest, k, k + 1);
      }
    }
  }

  lemma CloseDecides(t: Tokens, o: nat, j: nat, id: nat)
    requires o < j < |t| && FreeOpen(t[o]) && Sized(t) && t[o].size == 3 && FreeClose(t[j])
    ensures DecidedByFirst(t, o, j, id)
  {
    LiveFrom(t, j);
    var rest := Live(t[j + 1..]);
    FirstCloseCons(Kind(t[j]), rest);
    if Alike(t[o], t[j]) {
      assert Without([Kind(t[j])] + rest, 0) == rest;
      var r := Join(t, o, j, id);
      LiveFrom(r, j);
      assert r[j + 1..] == t[j + 1..] && r[o + 1..j] == t[o + 1..j];
      assert [] + Live(r[j + 1..]) == Live(r[j + 1..]);
    }
  }

  lemma {:induction false} ThreeSearch(t: Tokens, o: nat, j: nat, id: nat)
    requires o < j <= |t| && FreeOpen(t[o]) && Sized(t) && t[o].size == 3
    ensures DecidedByFirst(t, o, j, id)
    decreases |t| - j
  {
    if j == |t| {
      assert t[j..] == [];
    } else if FreeClose(t[j]) {
      CloseDecides(t, o, j, id);
    } else {
      ThreeSearch(t, o, j + 1, id);
      SkipDecided(t, o, j, id);
    }
  }

  /** The search of an open of size 3 fails, or what it leaves decides, as on the delimiters. */
  lemma ThreeDecides(t: Tokens, i: nat, j: nat, id: nat)
    requires i < |t| && j == i + 1 && FreeOpen(t[i]) && Sized(t) && t[i].size == 3 && DecidedByFirst(t, i, j, id)
    ensures var r, w, rest := SearchFrom(t, i, j, id), Kind(t[i]), Live(t[j..]);
            var k := FirstClose(rest);
            if r.Clash? then k < |rest| && rest[k].size == 3 && rest[k].ch != w.ch
            else
              && j <= |r.tokens| && Sized(r.tokens)
              && Live(r.tokens[j..]) ==
                   (if k == |rest| then rest
                    else if rest[k].size < 3 then TwoMore(Part(w, 3 - rest[k].size), Part(w, rest[k].size), rest)
                    else Without(rest, k))
              && (k < |rest| && rest[k].size == 3 ==> rest[k].ch == w.ch)
  {
    var rest := Live(t[j..]);
    var k := FirstClose(rest);
    if k < |rest| && rest[k].size < 3 {
      LiveSplice(t, i, rest[k].size);
    }
  }

  /** The pass over tokens ends exactly when the pass over their delimiters does. */
  lemma PairFromOpen(t: Tokens, i: nat, k: nat, id: nat)
    requires i < |t| && FreeOpen(t[i]) && Sized(t) && k == i + 1
    ensures var r := SearchFrom(t, i, k, id);
            r.Found? ==> Sized(r.tokens) && k <= |r.tokens| && PairFrom(t, i, id) == PairFrom(r.tokens, k, r.next)
    ensures SearchFrom(t, i, k, id).Clash? ==> PairFrom(t, i, id).Clash?
  {
    SearchMeasure(t, i, k, id);
  }

  lemma {:induction false} PairStops(t: Tokens, i: nat, id: nat)
    requires i <= |t| && Sized(t)
    ensures PairFrom(t, i, id).Found? <==> Stops(Live(t[i..]))
    decreases LiveThrees(t), |t| - i
  {
    if i == |t| {
      assert t[i..] == [];
      return;
    }
    var k := i + 1;
    LiveFrom(t, i);
    var rest := Live(t[k..]);
    if !FreeOpen(t[i]) {
      PairStops(t, k, id);
      PassedBy(t[i], rest);
      return;
    }
    SearchMeasure(t, i, k, id);
    PairFromOpen(t, i, k, id);
    OpenStops(t, i, k, id);
    var r := SearchFrom(t, i, k, id);
    if r.Found? {
      PairStops(r.tokens, k, r.next);
    }
  }

  /** The pass over the delimiters goes on with what the search of the open leaves, or fails with it. */
  lemma OpenStops(t: Tokens, i: nat, k: nat, id: nat)
    requires i < |t| && FreeOpen(t[i]) && Sized(t) && k == i + 1
    ensures var r, l := SearchFrom(t, i, k, id), LiveOne(t[i]) + Live(t[k..]);
            if r.Clash? then !Stops(l)
            else Sized(r.tokens) && k <= |r.tokens| && Stops(l) == Stops(Live(r.tokens[k..]))
  {
    StopsCons(Kind(t[i]), Live(t[k..]));
    if t[i].size < 3 {
      SmallSearch(t, i, k, id);
    } else {
      ThreeSearch(t, i, k, id);
      ThreeDecides(t, i, k, id);
    }
  }

  lemma PassedBy(x: Token, rest: seq<Delim>)
    requires (x.Marker? ==> 1 <= x.size <= 3) && !FreeOpen(x)
    ensures Stops(LiveOne(x) + rest) == Stops(rest)
  {
    if LiveOne(x) == [] {
      assert LiveOne(x) + rest == rest;
    } else {
      StopsCons(Kind(x), rest);
    }
  }

  /**
   The pairing pass on a freshly scanned list comes to its end exactly when no close of size 3 is offered to
   a waiting open of size 3 and another character.
   */
  lemma FoundExactly(t: Tokens)
    requires Sized(t)
    ensures PairAll(t).Found? <==> Harmless(t)
  {
    assert t[0..] == t;
    PairStops(t, 0, 0);
    ScanIsPass([], Live(t));
    assert [] + Live(t) == Live(t);
  }

  /** Threes of one character only are harmless. */
  lemma AgreeingIsHarmless(t: Tokens)
    requires Sized(t) && ThreesAgree(t)
    ensures Harmless(t)
  {
    PairAgrees(t, 0, 0);
    FoundExactly(t);
  }
}
