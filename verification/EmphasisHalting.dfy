/**
 Does the pairing pass end? The two nested iterator loops are written out as a machine that makes
 one loop turn a step, and compared with the total functions of `EmphasisPairing`.
 */
module EmphasisHalting {
  import opened EmphasisModel
  import opened EmphasisPairing
  import opened EmphasisDelimiters
  import opened EmphasisScan

  datatype Walk =
    | Outer(t: Tokens, i: nat, id: nat)
    | Inner(t: Tokens, o: nat, j: nat, id: nat)
    | Ended(t: Tokens, id: nat)

  ghost predicate AtMostThree(t: Tokens) {
    forall i | 0 <= i < |t| && t[i].Marker? :: t[i].size <= 3
  }

  ghost predicate Valid(w: Walk) {
    AtMostThree(w.t) &&
    match w
    case Outer(t, i, _) => i <= |t|
    case Inner(t, o, j, _) => o < j <= |t| && FreeOpen(t[o])
    case Ended(_, _) => true
  }

  /** One turn of the outer or the inner loop. Size-0 markers are not excluded. */
  ghost function Step(w: Walk): (r: Walk)
    requires Valid(w)
  {
    match w
    case Ended(_, _) => w
    case Outer(t, i, id) =>
      if i == |t| then Ended(t, id)
      else if FreeOpen(t[i]) then Inner(t, i, i + 1, id)
      else Outer(t, i + 1, id)
    case Inner(t, o, j, id) =>
      if j == |t| then Outer(t, o + 1, id)
      else if !FreeClose(t[j]) then Inner(t, o, j + 1, id)
      else if t[j].size == 3 && t[o].size != 3 then Inner(Splice(t, j, t[o].size), o, j + 1, id)
      else if Alike(t[o], t[j]) then Outer(Join(t, o, j, id), o + 1, id + 1)
      else if t[o].size == 3 then Outer(Splice(t, o, t[j].size), o + 1, id)
      else Inner(t, o, j + 1, id)
  }

  lemma SpliceAtMostThree(t: Tokens, i: nat, k: nat)
    requires AtMostThree(t) && i < |t| && t[i].Marker? && k <= t[i].size
    ensures AtMostThree(Splice(t, i, k))
  {
    SplicePoints(t, i, k);
  }

  lemma StepValid(w: Walk)
    requires Valid(w)
    ensures Valid(Step(w))
  {
    if w.Inner? && w.j < |w.t| && FreeClose(w.t[w.j]) {
      if w.t[w.j].size == 3 && w.t[w.o].size != 3 {
        SpliceAtMostThree(w.t, w.j, w.t[w.o].size);
        SplicePoints(w.t, w.j, w.t[w.o].size);
      } else if w.t[w.o].size == 3 {
        SpliceAtMostThree(w.t, w.o, w.t[w.j].size);
      }
    }
  }

  ghost function Run(w: Walk, n: nat): (r: Walk)
    requires Valid(w)
    ensures Valid(r)
    decreases n
  {
    if n == 0 then w else StepValid(w); Run(Step(w), n - 1)
  }

  ghost predicate Halts(w: Walk)
    requires Valid(w)
  {
    exists n: nat :: Run(w, n).Ended?
  }

  // ---- A pass that finds its end is a halting run ----

  /** One step, and then the others. */
  lemma RunNext(w: Walk, v: Walk, n: nat, m: nat)
    requires Valid(w) && v == Step(w) && m == n + 1
    ensures Valid(v) && Run(w, m) == Run(v, n)
  {
    StepValid(w);
  }

  lemma {:induction false} RunSearch(t: Tokens, o: nat, j: nat, id: nat) returns (n: nat)
    requires o < j <= |t| && FreeOpen(t[o]) && Sized(t)
    requires SearchFrom(t, o, j, id).Found?
    ensures var r := SearchFrom(t, o, j, id);
            o < |r.tokens| && Sized(r.tokens) && Run(Inner(t, o, j, id), n) == Outer(r.tokens, o + 1, r.next)
    decreases LiveThrees(t), |t| - j
  {
    SearchMeasure(t, o, j, id);
    var w := Inner(t, o, j, id);
    if j == |t| || (FreeClose(t[j]) && !(t[j].size == 3 && t[o].size != 3) && (Alike(t[o], t[j]) || t[o].size == 3)) {
      n := 1;
      RunNext(w, Outer(SearchFrom(t, o, j, id).tokens, o + 1, SearchFrom(t, o, j, id).next), 0, n);
    } else if FreeClose(t[j]) && t[j].size == 3 && t[o].size != 3 {
      SpliceForClose(t, o, j);
      var s := Splice(t, j, t[o].size);
      var k := RunSearch(s, o, j + 1, id);
      n := k + 1;
      RunNext(w, Inner(s, o, j + 1, id), k, n);
    } else {
      var k := RunSearch(t, o, j + 1, id);
      n := k + 1;
      RunNext(w, Inner(t, o, j + 1, id), k, n);
    }
  }

  lemma {:induction false} RunPlus(w: Walk, m: nat, n: nat)
    requires Valid(w)
    ensures Run(w, m + n) == Run(Run(w, m), n)
    decreases m
  {
    if m > 0 {
      StepValid(w);
      RunPlus(Step(w), m - 1, n);
    }
  }

  lemma {:induction false} RunPair(t: Tokens, i: nat, id: nat) returns (n: nat)
    requires i <= |t| && Sized(t)
    requires PairFrom(t, i, id).Found?
    ensures Run(Outer(t, i, id), n) == Ended(PairFrom(t, i, id).tokens, PairFrom(t, i, id).next)
    decreases LiveThrees(t), |t| - i
  {
    var w := Outer(t, i, id);
    StepValid(w);
    if i == |t| {
      n := 1;
      assert Run(w, 1) == Run(Step(w), 0);
    } else if FreeOpen(t[i]) {
      SearchMeasure(t, i, i + 1, id);
      var a := RunSearch(t, i, i + 1, id);
      var r := SearchFrom(t, i, i + 1, id);
      var b := RunPair(r.tokens, i + 1, r.next);
      RunPlus(Step(w), a, b);
      n := 1 + (a + b);
    } else {
      n := RunPair(t, i + 1, id);
      n := n + 1;
    }
  }

  // ---- A clash never ends ----

  /** An open of size 0 is looking right, and the first free close it will meet, at `c`, has size 3. */
  ghost predicate Stuck(w: Walk, c: int) {
    && w.Inner? && Valid(w) && w.t[w.o].size == 0 && w.j <= c < |w.t|
    && FreeClose(w.t[c]) && w.t[c].size == 3
    && forall k | w.j <= k < c :: !FreeClose(w.t[k])
  }

  lemma {:induction false} StuckForever(w: Walk, c: int, n: nat)
    requires Stuck(w, c)
    ensures !Run(w, n).Ended?
    decreases n
  {
    if n > 0 {
      StepValid(w);
      if w.j < c {
        StuckForever(Step(w), c, n - 1);
      } else {
        SplicePoints(w.t, w.j, 0);
        StuckForever(Step(w), c + 1, n - 1);
      }
    }
  }

  /** Where a run that has not ended after `m` steps never does, the whole run never does. */
  lemma NeverAfter(w: Walk, m: nat, n: nat)
    requires Valid(w) && (n > m ==> !Run(Run(w, m), n - m).Ended?) && !Run(w, m).Ended?
    ensures !Run(w, n).Ended?
  {
    if n > m {
      RunPlus(w, m, n - m);
    } else if Run(w, n).Ended? {
      RunPlus(w, n, m - n);
      EndedStays(Run(w, n), m - n);
    }
  }

  lemma {:induction false} EndedStays(w: Walk, n: nat)
    requires Valid(w) && w.Ended?
    ensures Run(w, n) == w
    decreases n
  {
    if n > 0 {
      EndedStays(Step(w), n - 1);
    }
  }

  /**
   The guard of the branch that fails: the inner loop clashes exactly when the open has size 3 and
   the first free close behind it has size 3 as well, but another character.
   */
  ghost predicate MeetsOtherThree(t: Tokens, o: nat, j: nat, c: int)
    requires o < j <= |t| && FreeOpen(t[o])
  {
    && j <= c < |t| && FreeClose(t[c]) && t[o].size == 3 && t[c].size == 3 && t[c].ch != t[o].ch
    && forall k | j <= k < c :: !FreeClose(t[k])
  }

  lemma {:induction false} ClashExactly(t: Tokens, o: nat, j: nat, id: nat)
    requires o < j <= |t| && FreeOpen(t[o]) && Sized(t)
    ensures SearchFrom(t, o, j, id).Clash? <==> exists c :: MeetsOtherThree(t, o, j, c)
    decreases LiveThrees(t), |t| - j
  {
    if j == |t| {
    } else if !FreeClose(t[j]) {
      ClashExactly(t, o, j + 1, id);
      var next := j + 1;
      if c :| MeetsOtherThree(t, o, j, c) {
        assert MeetsOtherThree(t, o, next, c);
      }
      if c :| MeetsOtherThree(t, o, next, c) {
        assert MeetsOtherThree(t, o, j, c);
      }
    } else if t[o].size != 3 {
      SearchSmallNoClash(t, o, j, id);
    } else if t[j].size == 3 && t[j].ch != t[o].ch {
      assert MeetsOtherThree(t, o, j, j);
    } else {
      assert forall c :: MeetsOtherThree(t, o, j, c) ==> c == j;
    }
  }

  lemma {:induction false} SearchSmallNoClash(t: Tokens, o: nat, j: nat, id: nat)
    requires o < j <= |t| && FreeOpen(t[o]) && Sized(t) && t[o].size != 3
    ensures SearchFrom(t, o, j, id).Found?
    decreases LiveThrees(t), |t| - j
  {
    if j == |t| {
    } else if FreeClose(t[j]) && t[j].size == 3 {
      SpliceForClose(t, o, j);
      SearchSmallNoClash(Splice(t, j, t[o].size), o, j + 1, id);
    } else {
      SearchSmallNoClash(t, o, j + 1, id);
    }
  }

  /** Steps from the clashing inner loop to a stuck one: walk to `c`, split the open, start over. */
  lemma {:induction false} ClashGetsStuck(t: Tokens, o: nat, j: nat, id: nat, c: int) returns (n: nat)
    requires Valid(Inner(t, o, j, id)) && MeetsOtherThree(t, o, j, c)
    requires forall k | o < k < j :: !FreeClose(t[k])
    ensures Stuck(Run(Inner(t, o, j, id), n), c + 2)
    decreases c - j
  {
    var w := Inner(t, o, j, id);
    StepValid(w);
    if j < c {
      n := ClashGetsStuck(t, o, j + 1, id, c);
      n := n + 1;
    } else {
      n := 2;
      SplicePoints(t, o, 3);
      StepValid(Step(w));
      assert Run(w, 2) == Run(Step(w), 1) == Run(Step(Step(w)), 0);
    }
  }

  /** The inner loop starts for an open of size 3 whose first free close is of size 3 and another character. */
  ghost predicate ThreesMeet(w: Walk) {
    w.Inner? && Valid(w) && w.j == w.o + 1 && exists c :: MeetsOtherThree(w.t, w.o, w.j, c)
  }

  ghost predicate ThreesEverMeet(w: Walk)
    requires Valid(w)
  {
    exists n: nat :: ThreesMeet(Run(w, n))
  }

  lemma ThreesMeetNeverEnds(w: Walk, m: nat)
    requires Valid(w) && ThreesMeet(Run(w, m))
    ensures !Halts(w)
  {
    var v := Run(w, m);
    var c :| MeetsOtherThree(v.t, v.o, v.j, c);
    var a := ClashGetsStuck(v.t, v.o, v.j, v.id, c);
    RunPlus(w, m, a);
    var k := m + a;
    forall n: nat
      ensures !Run(w, n).Ended?
    {
      if n > k {
        StuckForever(Run(w, k), c + 2, n - k);
      }
      NeverAfter(w, k, n);
    }
  }

  lemma {:induction false} ClashedPassMeets(t: Tokens, i: nat, id: nat) returns (n: nat)
    requires i <= |t| && Sized(t) && PairFrom(t, i, id).Clash?
    ensures ThreesMeet(Run(Outer(t, i, id), n))
    decreases LiveThrees(t), |t| - i
  {
    var w := Outer(t, i, id);
    StepValid(w);
    if !FreeOpen(t[i]) {
      n := ClashedPassMeets(t, i + 1, id);
      n := n + 1;
    } else {
      SearchMeasure(t, i, i + 1, id);
      match SearchFrom(t, i, i + 1, id)
      case Clash =>
        ClashExactly(t, i, i + 1, id);
        n := 1;
        assert Run(w, 1) == Run(Step(w), 0);
      case Found(t', id') =>
        var a := RunSearch(t, i, i + 1, id);
        var b := ClashedPassMeets(t', i + 1, id');
        RunPlus(Step(w), a, b);
        n := 1 + (a + b);
    }
  }

  lemma FoundIsTheEnd(t: Tokens, n: nat)
    requires Unprocessed(t) && PairAll(t).Found? && Run(Outer(t, 0, 0), n).Ended?
    ensures Run(Outer(t, 0, 0), n).t == PairAll(t).tokens
  {
    var w := Outer(t, 0, 0);
    var m := RunPair(t, 0, 0);
    if n <= m {
      RunPlus(w, n, m - n);
      EndedStays(Run(w, n), m - n);
    } else {
      RunPlus(w, m, n - m);
      EndedStays(Run(w, m), n - m);
    }
  }

  /**
   The pairing pass on a freshly scanned list ends exactly when one scan of the list offers no close of
   size 3 to a longest waiting open of size 3 and another character. That is when it never starts to look
   for the partner of an open of size 3 whose first free close is of size 3 and another character; and it
   then ends with the list `PairAll` gives.
   */
  lemma HaltsExactly(t: Tokens)
    requires Unprocessed(t)
    ensures Halts(Outer(t, 0, 0)) <==> Harmless(t)
    ensures Halts(Outer(t, 0, 0)) <==> !ThreesEverMeet(Outer(t, 0, 0))
    ensures forall n: nat :: Run(Outer(t, 0, 0), n).Ended? ==>
              PairAll(t).Found? && Run(Outer(t, 0, 0), n).t == PairAll(t).tokens
  {
    var w := Outer(t, 0, 0);
    FoundExactly(t);
    if n: nat :| ThreesMeet(Run(w, n)) {
      ThreesMeetNeverEnds(w, n);
    }
    if PairAll(t).Found? {
      var m := RunPair(t, 0, 0);
      assert Halts(w);
      forall n: nat | Run(w, n).Ended?
        ensures Run(w, n).t == PairAll(t).tokens
      {
        FoundIsTheEnd(t, n);
      }
    } else {
      var m := ClashedPassMeets(t, 0, 0);
      ThreesMeetNeverEnds(w, m);
    }
  }

  /** A list without an open and a later close of size 3 and different characters is safe. */
  lemma AgreeingThreesHalt(t: Tokens)
    requires Unprocessed(t) && ThreesAgree(t)
    ensures Halts(Outer(t, 0, 0))
  {
    AgreeingIsHarmless(t);
    HaltsExactly(t);
  }

  /** `***a___` never ends. */
  lemma DisagreeingThrees()
    ensures !Halts(Outer([Marker(true, '*', 3, Free), Text("a"), Marker(false, '_', 3, Free)], 0, 0))
  {
    var t := [Marker(true, '*', 3, Free), Text("a"), Marker(false, '_', 3, Free)];
    var o, c := Delimiter(true, '*', 3), Delimiter(false, '_', 3);
    LiveThreeTokens(t);
    OpenArrives([], o, [c]);
    CloseArrives([o], c, []);
    HaltsExactly(t);
  }

  /** With an open `*` in front, which splits the close, the same two markers do no harm. */
  lemma HarmlessThrees()
    ensures var o, c := Marker(true, '*', 3, Free), Marker(false, '_', 3, Free);
            !ThreesAgree([Marker(true, '*', 1, Free), o, c]) && Halts(Outer([Marker(true, '*', 1, Free), o, c], 0, 0))
  {
    var t := [Marker(true, '*', 1, Free), Marker(true, '*', 3, Free), Marker(false, '_', 3, Free)];
    var first, o, c := Delimiter(true, '*', 1), Delimiter(true, '*', 3), Delimiter(false, '_', 3);
    assert FreeOpen(t[1]) && FreeClose(t[2]);
    LiveThreeTokens(t);
    OpenArrives([], first, [o] + [c]);
    OpenArrives([first], o, [c]);
    CloseArrives([first] + [o], c, []);
    HaltsExactly(t);
  }

  lemma LiveThreeTokens(t: Tokens)
    requires |t| == 3 && Sized(t)
    ensures Live(t) == LiveOne(t[0]) + (LiveOne(t[1]) + LiveOne(t[2]))
  {
    assert t[0..] == t && t[3..] == [];
    LiveFrom(t, 0);
    LiveFrom(t, 1);
    LiveFrom(t, 2);
    assert LiveOne(t[2]) + [] == LiveOne(t[2]);
  }
}
