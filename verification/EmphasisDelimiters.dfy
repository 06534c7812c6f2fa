/**
 The markers alone, and two ways to match them. The pass takes the opens one by one and walks over all later
 closes; the scan takes the closes one by one and keeps the opens that are still waiting for a partner. Both
 visit an open and a close only after all that could have changed them.
 */
module EmphasisDelimiters {
  datatype Delimiter = Delimiter(open: bool, ch: char, size: nat)

  type Delim = d: Delimiter | 1 <= d.size <= 3 witness Delimiter(true, '*', 1)

  /** The part of a split marker that has this size. */
  function Part(d: Delim, size: nat): Delim
    requires 1 <= size <= 2
  {
    Delimiter(d.open, d.ch, size)
  }

  predicate Same(a: Delim, b: Delim) {
    a.ch == b.ch && a.size == b.size
  }

  // ---- The scan ----

  /** Offer a close of size 1 or 2 to the waiting opens, in order; an open of size 3 is split by it. */
  function OfferSmall(waiting: seq<Delim>, c: Delim): (r: seq<Delim>)
    requires c.size < 3
  {
    if waiting == [] then []
    else
      var w, rest := waiting[0], waiting[1..];
      if Same(w, c) then rest
      else if w.size < 3 then [w] + OfferSmall(rest, c)
      else if w.ch == c.ch then [Part(w, 3 - c.size)] + rest
      else [Part(w, 3 - c.size)] + ([Part(w, c.size)] + OfferSmall(rest, c))
  }

  /** Offer any close. One of size 3 is split by a smaller open, and its parts go on one after the other. */
  function Offer(waiting: seq<Delim>, c: Delim): seq<Delim> {
    if c.size < 3 then OfferSmall(waiting, c)
    else if waiting == [] then []
    else
      var w, rest := waiting[0], waiting[1..];
      if w.size == 3 then rest
      else
        var other := OfferSmall(rest, Part(c, 3 - w.size));
        if w.ch == c.ch then other else [w] + OfferSmall(other, Part(c, w.size))
  }

  /** A close of size 3 arrives while the open that has waited longest has size 3 and another character. */
  predicate Clashing(waiting: seq<Delim>, c: Delim) {
    c.size == 3 && waiting != [] && waiting[0].size == 3 && waiting[0].ch != c.ch
  }

  predicate EverClashing(waiting: seq<Delim>, l: seq<Delim>)
    decreases |l|
  {
    l != [] &&
    if l[0].open then EverClashing(waiting + [l[0]], l[1..])
    else Clashing(waiting, l[0]) || EverClashing(Offer(waiting, l[0]), l[1..])
  }

  // ---- The pass on delimiters ----

  function Threes(l: seq<Delim>): nat {
    if l == [] then 0 else (if l[0].size == 3 then 1 else 0) + Threes(l[1..])
  }

  lemma {:induction false} ThreesConcat(a: seq<Delim>, b: seq<Delim>)
    ensures Threes(a + b) == Threes(a) + Threes(b)
  {
    if a == [] {
      assert a + b == b;
    } else {
      assert (a + b)[1..] == a[1..] + b;
      ThreesConcat(a[1..], b);
    }
  }

  /** The parts of a split marker in front of the others. */
  function TwoMore(a: Delim, b: Delim, rest: seq<Delim>): (r: seq<Delim>)
    requires a.size < 3 && b.size < 3
    ensures Threes(r) == Threes(rest) && |r| == |rest| + 2
  {
    var tail := [b] + rest;
    assert tail[1..] == rest && ([a] + tail)[1..] == tail;
    [a] + tail
  }

  /** What an open of size 1 or 2 leaves of the markers behind it. */
  function Walked(w: Delim, l: seq<Delim>): (r: seq<Delim>)
    requires w.size < 3
    ensures Threes(r) <= Threes(l) && (Threes(r) == Threes(l) ==> |r| <= |l|)
  {
    if l == [] then []
    else
      var c, rest := l[0], l[1..];
      if c.open || (c.size < 3 && !Same(w, c)) then [c] + Walked(w, rest)
      else if c.size < 3 then rest
      else if w.ch == c.ch then [Part(c, 3 - w.size)] + rest
      else TwoMore(Part(c, 3 - w.size), Part(c, w.size), Walked(w, rest))
  }

  function FirstClose(l: seq<Delim>): (k: nat)
    ensures k <= |l| && (k < |l| ==> !l[k].open) && forall i | 0 <= i < k :: l[i].open
  {
    if l == [] || !l[0].open then 0 else 1 + FirstClose(l[1..])
  }

  function Without(l: seq<Delim>, k: nat): (r: seq<Delim>)
    requires k < |l|
    ensures Threes(r) <= Threes(l)
  {
    ThreesConcat(l[..k], l[k..]);
    ThreesConcat(l[..k], l[k + 1..]);
    assert l[..k] + l[k..] == l;
    l[..k] + l[k + 1..]
  }

  /** The two loops of the pass: does an open of size 3 ever meet its like in another character? */
  predicate Stops(l: seq<Delim>)
    decreases Threes(l), |l|
  {
    if l == [] then true
    else
      var w, rest := l[0], l[1..];
      if !w.open then Stops(rest)
      else if w.size < 3 then Stops(Walked(w, rest))
      else
        var k := FirstClose(rest);
        if k == |rest| then Stops(rest)
        else if rest[k].size < 3 then Stops(TwoMore(Part(w, 3 - rest[k].size), Part(w, rest[k].size), rest))
        else rest[k].ch == w.ch && Stops(Without(rest, k))
  }

  lemma WalkedCons(w: Delim, c: Delim, rest: seq<Delim>)
    requires w.size < 3
    ensures Walked(w, [c] + rest) ==
              if c.open || (c.size < 3 && !Same(w, c)) then [c] + Walked(w, rest)
              else if c.size < 3 then rest
              else if w.ch == c.ch then [Part(c, 3 - w.size)] + rest
              else TwoMore(Part(c, 3 - w.size), Part(c, w.size), Walked(w, rest))
  {
    assert ([c] + rest)[1..] == rest;
  }

  lemma WalkedParts(w: Delim, c: Delim, rest: seq<Delim>)
    requires w.size < 3 && !c.open && c.size == 3
    ensures Walked(w, TwoMore(Part(c, 3 - w.size), Part(c, w.size), rest)) == Walked(w, [c] + rest)
  {
    var a, b := Part(c, 3 - w.size), Part(c, w.size);
    WalkedCons(w, c, rest);
    WalkedCons(w, b, rest);
    WalkedCons(w, a, [b] + rest);
  }

  lemma FirstCloseCons(c: Delim, rest: seq<Delim>)
    ensures FirstClose([c] + rest) == if c.open then 1 + FirstClose(rest) else 0
  {
    assert ([c] + rest)[1..] == rest;
  }

  lemma WithoutCons(c: Delim, rest: seq<Delim>, k: nat, j: nat)
    requires k < |rest| && j == k + 1
    ensures Without([c] + rest, j) == [c] + Without(rest, k)
  {
    var l := [c] + rest;
    assert l[..j] == [c] + rest[..k] && l[j + 1..] == rest[k + 1..];
  }

  // ---- The scan is the pass on delimiters ----

  lemma OfferSmallCons(w: Delim, rest: seq<Delim>, c: Delim)
    requires c.size < 3
    ensures OfferSmall([w] + rest, c) ==
              if Same(w, c) then rest
              else if w.size < 3 then [w] + OfferSmall(rest, c)
              else if w.ch == c.ch then [Part(w, 3 - c.size)] + rest
              else [Part(w, 3 - c.size)] + ([Part(w, c.size)] + OfferSmall(rest, c))
  {
    assert ([w] + rest)[1..] == rest;
  }

  lemma OpenArrives(waiting: seq<Delim>, v: Delim, l: seq<Delim>)
    requires v.open
    ensures EverClashing(waiting, [v] + l) == EverClashing(waiting + [v], l)
  {
    assert ([v] + l)[1..] == l;
  }

  lemma CloseArrives(waiting: seq<Delim>, c: Delim, l: seq<Delim>)
    requires !c.open
    ensures EverClashing(waiting, [c] + l) == (Clashing(waiting, c) || EverClashing(Offer(waiting, c), l))
  {
    assert ([c] + l)[1..] == l;
  }

  /** A small open in front meets a close before the others do: its walk may be taken first. */
  lemma CloseCommutes(w: Delim, waiting: seq<Delim>, c: Delim, l: seq<Delim>)
    requires w.size < 3 && !c.open
    requires forall ws :: EverClashing([w] + ws, l) == EverClashing(ws, Walked(w, l))
    ensures EverClashing([w] + waiting, [c] + l) == EverClashing(waiting, Walked(w, [c] + l))
  {
    CloseArrives([w] + waiting, c, l);
    WalkedCons(w, c, l);
    if c.size < 3 {
      SmallCommutes(w, waiting, c, l);
    } else {
      ThreeCommutes(w, waiting, c, l);
    }
  }

  lemma SmallCommutes(w: Delim, waiting: seq<Delim>, c: Delim, l: seq<Delim>)
    requires w.size < 3 && !c.open && c.size < 3
    requires forall ws :: EverClashing([w] + ws, l) == EverClashing(ws, Walked(w, l))
    ensures EverClashing(Offer([w] + waiting, c), l) ==
            EverClashing(waiting, if Same(w, c) then l else [c] + Walked(w, l))
  {
    OfferSmallCons(w, waiting, c);
    if !Same(w, c) {
      CloseArrives(waiting, c, Walked(w, l));
    }
  }

  lemma ThreeCommutes(w: Delim, waiting: seq<Delim>, c: Delim, l: seq<Delim>)
    requires w.size < 3 && !c.open && c.size == 3
    requires forall ws :: EverClashing([w] + ws, l) == EverClashing(ws, Walked(w, l))
    ensures EverClashing(Offer([w] + waiting, c), l) ==
            EverClashing(waiting, if w.ch == c.ch then [Part(c, 3 - w.size)] + l
                                  else TwoMore(Part(c, 3 - w.size), Part(c, w.size), Walked(w, l)))
  {
    var a, b := Part(c, 3 - w.size), Part(c, w.size);
    assert ([w] + waiting)[1..] == waiting;
    if w.ch == c.ch {
      CloseArrives(waiting, a, l);
    } else {
      CloseArrives(waiting, a, [b] + Walked(w, l));
      CloseArrives(OfferSmall(waiting, a), b, Walked(w, l));
    }
  }

  lemma {:induction false} WalkCommutes(w: Delim, waiting: seq<Delim>, l: seq<Delim>)
    requires w.size < 3
    ensures EverClashing([w] + waiting, l) == EverClashing(waiting, Walked(w, l))
    decreases |l|
  {
    if l != [] {
      var c, rest := l[0], l[1..];
      assert l == [c] + rest;
      if c.open {
        WalkCommutes(w, waiting + [c], rest);
        OpenArrives([w] + waiting, c, rest);
        OpenArrives(waiting, c, Walked(w, rest));
        assert [w] + waiting + [c] == [w] + (waiting + [c]);
        WalkedCons(w, c, rest);
      } else {
        forall ws ensures EverClashing([w] + ws, rest) == EverClashing(ws, Walked(w, rest)) {
          WalkCommutes(w, ws, rest);
        }
        CloseCommutes(w, waiting, c, rest);
      }
    }
  }

  predicate AllOpen(l: seq<Delim>) {
    forall i | 0 <= i < |l| :: l[i].open
  }

  lemma HeadFirst(a: seq<Delim>, l: seq<Delim>)
    requires a != []
    ensures a + l == [a[0]] + (a[1..] + l)
  {
  }

  lemma {:induction false} WalkedOpens(w: Delim, a: seq<Delim>, l: seq<Delim>)
    requires w.size < 3 && AllOpen(a)
    ensures Walked(w, a + l) == a + Walked(w, l)
  {
    if a == [] {
      assert a + l == l && a + Walked(w, l) == Walked(w, l);
    } else {
      var v, tail := a[0], a[1..];
      WalkedOpens(w, tail, l);
      HeadFirst(a, l);
      WalkedCons(w, v, tail + l);
      HeadFirst(a, Walked(w, l));
    }
  }

  lemma {:induction false} FirstCloseBehind(a: seq<Delim>, l: seq<Delim>)
    requires AllOpen(a) && (l != [] ==> !l[0].open)
    ensures FirstClose(a + l) == |a|
  {
    if a == [] {
      assert a + l == l;
    } else {
      FirstCloseBehind(a[1..], l);
      assert a + l == [a[0]] + (a[1..] + l);
      FirstCloseCons(a[0], a[1..] + l);
    }
  }

  lemma {:induction false} OpensStop(l: seq<Delim>)
    requires AllOpen(l)
    ensures Stops(l)
  {
    if l != [] {
      var w, rest := l[0], l[1..];
      OpensStop(rest);
      assert rest + [] == rest;
      if w.size < 3 {
        WalkedOpens(w, rest, []);
      } else {
        FirstCloseBehind(rest, []);
      }
    }
  }

  lemma StopsCons(w: Delim, rest: seq<Delim>)
    ensures var k := FirstClose(rest);
            Stops([w] + rest) ==
              if !w.open then Stops(rest)
              else if w.size < 3 then Stops(Walked(w, rest))
              else if k == |rest| then Stops(rest)
              else if rest[k].size < 3 then Stops(TwoMore(Part(w, 3 - rest[k].size), Part(w, rest[k].size), rest))
              else rest[k].ch == w.ch && Stops(Without(rest, k))
  {
    assert ([w] + rest)[1..] == rest;
  }

  lemma ThreesCons(w: Delim, rest: seq<Delim>)
    ensures Threes([w] + rest) == (if w.size == 3 then 1 else 0) + Threes(rest)
  {
    assert ([w] + rest)[1..] == rest;
  }

  /** An open of size 3 that has waited longest, and a smaller close: both sides split the open first. */
  lemma HalvesWait(w: Delim, waiting: seq<Delim>, c: Delim, l: seq<Delim>)
    requires w.open && w.size == 3 && !c.open && c.size < 3
    ensures EverClashing([w] + waiting, [c] + l) ==
            EverClashing(TwoMore(Part(w, 3 - c.size), Part(w, c.size), waiting), [c] + l)
  {
    var a, b := Part(w, 3 - c.size), Part(w, c.size);
    CloseArrives([w] + waiting, c, l);
    CloseArrives(TwoMore(a, b, waiting), c, l);
    OfferSmallCons(w, waiting, c);
    OfferSmallCons(a, [b] + waiting, c);
    OfferSmallCons(b, waiting, c);
  }

  lemma HalvesStop(w: Delim, waiting: seq<Delim>, c: Delim, l: seq<Delim>)
    requires w.open && w.size == 3 && !c.open && c.size < 3 && AllOpen(waiting)
    ensures Stops([w] + (waiting + ([c] + l))) ==
            Stops(TwoMore(Part(w, 3 - c.size), Part(w, c.size), waiting) + ([c] + l))
  {
    var a, b, closes := Part(w, 3 - c.size), Part(w, c.size), [c] + l;
    FirstCloseBehind(waiting, closes);
    assert (waiting + closes)[|waiting|] == c;
    StopsCons(w, waiting + closes);
    TwoMoreJoin(a, b, waiting, closes);
  }

  lemma TwoMoreJoin(a: Delim, b: Delim, l: seq<Delim>, more: seq<Delim>)
    requires a.size < 3 && b.size < 3
    ensures TwoMore(a, b, l) + more == TwoMore(a, b, l + more)
  {
  }

  /** The same open and a close of size 3: joined or clashing on both sides. */
  lemma ThreesWait(w: Delim, waiting: seq<Delim>, c: Delim, l: seq<Delim>)
    requires w.open && w.size == 3 && !c.open && c.size == 3 && AllOpen(waiting)
    ensures EverClashing([w] + waiting, [c] + l) == (w.ch != c.ch || EverClashing(waiting, l))
    ensures Stops([w] + (waiting + ([c] + l))) == (w.ch == c.ch && Stops(waiting + l))
  {
    var rest := waiting + ([c] + l);
    CloseArrives([w] + waiting, c, l);
    assert ([w] + waiting)[1..] == waiting;
    FirstCloseBehind(waiting, [c] + l);
    assert rest[|waiting|] == c;
    StopsCons(w, rest);
    assert Without(rest, |waiting|) == waiting + l;
  }

  /** With the opens in front already waiting, the scan meets a clash exactly when the pass does not stop. */
  lemma {:induction false} ScanIsPass(waiting: seq<Delim>, l: seq<Delim>)
    requires AllOpen(waiting)
    ensures EverClashing(waiting, l) <==> !Stops(waiting + l)
    decreases Threes(waiting + l), |waiting + l|, |l|
  {
    if l != [] && l[0].open {
      var v, rest := l[0], l[1..];
      assert l == [v] + rest && waiting + l == waiting + [v] + rest;
      OpenArrives(waiting, v, rest);
      ScanIsPass(waiting + [v], rest);
    } else if waiting == [] {
      assert waiting + l == l;
      if l != [] {
        var c, rest := l[0], l[1..];
        assert l == [c] + rest && [] + rest == rest;
        CloseArrives([], c, rest);
        StopsCons(c, rest);
        ThreesCons(c, rest);
        ScanIsPass([], rest);
      }
    } else if l == [] {
      assert waiting + l == waiting;
      OpensStop(waiting);
    } else {
      WaitingFirst(waiting, l);
    }
  }

  lemma {:induction false} WaitingFirst(waiting: seq<Delim>, l: seq<Delim>)
    requires AllOpen(waiting) && waiting != [] && l != [] && !l[0].open
    ensures EverClashing(waiting, l) <==> !Stops(waiting + l)
    decreases Threes(waiting + l), |waiting + l|, |l|, 0
  {
    var w, others, c, rest := waiting[0], waiting[1..], l[0], l[1..];
    assert waiting == [w] + others && l == [c] + rest;
    HeadFirst(waiting, l);
    ThreesCons(w, others + l);
    if w.size < 3 {
      WalkedOpens(w, others, l);
      StopsCons(w, others + l);
      WalkCommutes(w, others, l);
      ScanIsPass(others, Walked(w, l));
    } else if c.size < 3 {
      HalvesWait(w, others, c, rest);
      HalvesStop(w, others, c, rest);
      var halves := TwoMore(Part(w, 3 - c.size), Part(w, c.size), others);
      assert AllOpen(halves);
      HalvesThrees(w, others, c, l);
      ScanIsPass(halves, l);
    } else {
      ThreesWait(w, others, c, rest);
      if w.ch == c.ch {
        FewerThrees(others, c, rest);
        ScanIsPass(others, rest);
      }
    }
  }

  lemma HalvesThrees(w: Delim, waiting: seq<Delim>, c: Delim, l: seq<Delim>)
    requires c.size < 3
    ensures Threes(TwoMore(Part(w, 3 - c.size), Part(w, c.size), waiting) + l) == Threes(waiting + l)
  {
    ThreesConcat(TwoMore(Part(w, 3 - c.size), Part(w, c.size), waiting), l);
    ThreesConcat(waiting, l);
  }

  lemma FewerThrees(waiting: seq<Delim>, c: Delim, l: seq<Delim>)
    ensures Threes(waiting + l) <= Threes(waiting + ([c] + l))
  {
    ThreesConcat(waiting, l);
    ThreesConcat(waiting, [c] + l);
    ThreesCons(c, l);
  }
}
