/**
 The markers as objects, with the list of tokens that points to them. `Views` reads the objects as
 values of `EmphasisModel`.
 */
module EmphasisMarkers {
  import opened EmphasisModel
  import opened EmphasisPairing
  import opened EmphasisNesting

  class BoldOrItalicMarker {
    const openMarker: bool
    const tokenCharacter: char
    const size: nat
    var partner: BoldOrItalicMarker?
    var cannotMatch: bool
    var disabled: bool
    var id: int

    constructor (open: bool, c: char, size: nat)
      ensures openMarker == open && tokenCharacter == c && this.size == size
      ensures Sound() && Look() == Marker(open, c, size, Free)
    {
      openMarker, tokenCharacter, this.size := open, c, size;
      partner, cannotMatch, disabled, id := null, false, false, -1;
    }

    /** The fields agree: a disabled marker has no partner, and ids are those of matched markers. */
    ghost predicate Sound()
      reads this
    {
      cannotMatch == disabled && (disabled ==> partner == null) && (if partner == null then id == -1 else id >= 0)
    }

    ghost function Look(): (x: Token)
      reads this
      ensures x.Marker?
    {
      Marker(openMarker, tokenCharacter, size,
        if disabled then Disabled else if partner != null && id >= 0 then Paired(id) else Free)
    }

    predicate IsUnmatchedOpenMarker()
      reads this
    {
      openMarker && partner == null && !cannotMatch
    }

    predicate IsUnmatchedCloseMarker()
      reads this
    {
      !openMarker && partner == null && !cannotMatch
    }

    predicate IsMatchedOpenMarker()
      reads this
    {
      openMarker && partner != null
    }

    predicate IsMatchedCloseMarker()
      reads this
    {
      !openMarker && partner != null
    }

    method Matched(m: BoldOrItalicMarker?, id: int := -1)
      requires Sound() && !disabled && (if m == null then id == -1 else id >= 0)
      modifies this
      ensures Sound() && partner == m && this.id == id && !disabled
      ensures Look() == Marker(openMarker, tokenCharacter, size, if m == null then Free else Paired(id))
    {
      partner := m;
      this.id := id;
    }

    method Disable()
      requires Sound() && partner == null
      modifies this
      ensures Sound() && partner == null && disabled
      ensures Look() == Marker(openMarker, tokenCharacter, size, Disabled)
    {
      cannotMatch := true;
      disabled := true;
    }
  }

  datatype Item = Raw(text: string) | Mark(m: BoldOrItalicMarker)

  ghost function Objects(l: seq<Item>): set<BoldOrItalicMarker> {
    set i | 0 <= i < |l| && l[i].Mark? :: l[i].m
  }

  ghost function View(x: Item): Token
    reads if x.Mark? then {x.m} else {}
  {
    match x
    case Raw(s) => Text(s)
    case Mark(m) => m.Look()
  }

  ghost function Views(l: seq<Item>): (t: Tokens)
    reads Objects(l)
    ensures |t| == |l|
    ensures forall i | 0 <= i < |l| :: t[i] == View(l[i])
  {
    seq(|l|, i requires 0 <= i < |l| reads Objects(l) => View(l[i]))
  }

  ghost predicate Distinct(l: seq<Item>) {
    forall i, j | 0 <= i < j < |l| && l[i].Mark? && l[j].Mark? :: l[i].m != l[j].m
  }

  /** Every marker of the set is sound, and partners are in the set, point back and share an id. */
  ghost predicate Linked(s: set<BoldOrItalicMarker>)
    reads s
  {
    && (forall m | m in s :: m.Sound())
    && (forall m | m in s && m.partner != null ::
          m.partner in s && m.partner != m && m.partner.partner == m && m.partner.id == m.id)
  }

  ghost predicate Consistent(l: seq<Item>)
    reads Objects(l)
  {
    Distinct(l) && Linked(Objects(l))
  }

  lemma SplitObjects(l: seq<Item>, i: nat, a: BoldOrItalicMarker, b: BoldOrItalicMarker)
    requires i < |l| && Distinct(l) && a !in Objects(l) && b !in Objects(l) && a != b
    ensures var r := l[..i + 1] + [Mark(a), Mark(b)] + l[i + 1..];
            Distinct(r) && Objects(r) == Objects(l) + {a, b}
  {
    var r := l[..i + 1] + [Mark(a), Mark(b)] + l[i + 1..];
    assert r[i + 1] == Mark(a) && r[i + 2] == Mark(b);
    assert forall n | 0 <= n < |l| :: r[Shift(i, n)] == l[n];
  }

  lemma SplitViews(l: seq<Item>, t: Tokens, i: nat, k: nat, a: BoldOrItalicMarker, b: BoldOrItalicMarker)
    requires i < |l| == |t| && t[i].Marker? && k <= t[i].size
    requires forall n | 0 <= n < |l| && n != i :: View(l[n]) == t[n]
    requires View(l[i]) == t[i].(standing := Disabled)
    requires a.Look() == Marker(t[i].open, t[i].ch, t[i].size - k, Free)
    requires b.Look() == Marker(t[i].open, t[i].ch, k, Free)
    ensures Views(l[..i + 1] + [Mark(a), Mark(b)] + l[i + 1..]) == Splice(t, i, k)
  {
    SplicePoints(t, i, k);
  }

  method DisableAt(l: seq<Item>, i: nat)
    requires i < |l| && l[i].Mark? && Consistent(l) && View(l[i]).standing.Free?
    modifies l[i].m
    ensures Consistent(l) && View(l[i]) == old(View(l[i]).(standing := Disabled))
    ensures forall n | 0 <= n < |l| && n != i :: View(l[n]) == old(View(l[n]))
  {
    assert l[i].m in Objects(l);
    l[i].m.Disable();
  }

  lemma LinkedWithFree(s: set<BoldOrItalicMarker>, a: BoldOrItalicMarker, b: BoldOrItalicMarker)
    requires Linked(s) && a.Sound() && b.Sound() && a.partner == null && b.partner == null
    ensures Linked(s + {a, b})
  {
  }

  /** Put two fresh markers of the kind of the one at `i` behind it. */
  method InsertTwo(l: seq<Item>, i: nat, k: nat) returns (r: seq<Item>, a: BoldOrItalicMarker, b: BoldOrItalicMarker)
    requires i < |l| && l[i].Mark? && Consistent(l) && k <= l[i].m.size
    ensures fresh({a, b}) && r == l[..i + 1] + [Mark(a), Mark(b)] + l[i + 1..]
    ensures Consistent(r) && Objects(r) == Objects(l) + {a, b}
    ensures a.Look() == Marker(l[i].m.openMarker, l[i].m.tokenCharacter, l[i].m.size - k, Free)
    ensures b.Look() == Marker(l[i].m.openMarker, l[i].m.tokenCharacter, k, Free)
  {
    a := new BoldOrItalicMarker(l[i].m.openMarker, l[i].m.tokenCharacter, l[i].m.size - k);
    b := new BoldOrItalicMarker(l[i].m.openMarker, l[i].m.tokenCharacter, k);
    r := l[..i + 1] + [Mark(a), Mark(b)] + l[i + 1..];
    SplitObjects(l, i, a, b);
    LinkedWithFree(Objects(l), a, b);
  }

  /** Disable the marker at `i` and put two fresh ones behind it. */
  method SplitAt(l: seq<Item>, i: nat, k: nat) returns (r: seq<Item>)
    requires i < |l| && l[i].Mark? && Consistent(l)
    requires View(l[i]).standing.Free? && k <= l[i].m.size
    modifies l[i].m
    ensures Consistent(r) && Views(r) == Splice(old(Views(l)), i, k)
    ensures fresh(Objects(r) - Objects(l)) && Objects(l) <= Objects(r)
    ensures |r| == |l| + 2 && forall n | 0 <= n <= i :: r[n] == l[n]
  {
    ghost var t := Views(l);
    var a, b;
    DisableAt(l, i);
    r, a, b := InsertTwo(l, i, k);
    SplitViews(l, t, i, k, a, b);
  }

  method Link(ghost s: set<BoldOrItalicMarker>, x: BoldOrItalicMarker, y: BoldOrItalicMarker, id: nat)
    requires Linked(s) && x in s && y in s && x != y
    requires x.partner == null && y.partner == null && !x.disabled && !y.disabled
    modifies x, y
    ensures Linked(s)
    ensures x.Look() == Marker(x.openMarker, x.tokenCharacter, x.size, Paired(id))
    ensures y.Look() == Marker(y.openMarker, y.tokenCharacter, y.size, Paired(id))
  {
    x.Matched(y, id);
    y.Matched(x, id);
  }

  method JoinAt(l: seq<Item>, o: nat, c: nat, id: nat)
    requires o < c < |l| && l[o].Mark? && l[c].Mark? && Consistent(l)
    requires View(l[o]).standing.Free? && View(l[c]).standing.Free?
    modifies l[o].m, l[c].m
    ensures Consistent(l) && Views(l) == Join(old(Views(l)), o, c, id)
  {
    ghost var t := Views(l);
    assert l[o].m in Objects(l) && l[c].m in Objects(l);
    Link(Objects(l), l[o].m, l[c].m, id);
    assert forall i | 0 <= i < |l| && i != o && i != c :: View(l[i]) == t[i];
  }

  /** What the search from the open marker at `ii` will find from `iii` on. */
  ghost function ResultFrom(l: seq<Item>, ii: nat, iii: nat, id: nat): Search
    requires ii < iii <= |l| && FreeOpen(Views(l)[ii]) && Sized(Views(l))
    reads Objects(l)
  {
    SearchFrom(Views(l), ii, iii, id)
  }

  /** The search from the open marker at `ii` has come to `iii`. */
  ghost predicate Searching(l: seq<Item>, ii: nat, iii: nat, id: nat, result: Search)
    reads Objects(l)
  {
    && ii < iii <= |l| && Consistent(l) && Sized(Views(l)) && FreeOpen(Views(l)[ii]) && IdsBelow(Views(l), id)
    && ResultFrom(l, ii, iii, id) == result && result.Found?
  }

  /** A close marker of size 3 is split by a smaller open marker. */
  method SplitClose(l: seq<Item>, ii: nat, iii: nat, id: nat, ghost result: Search) returns (r: seq<Item>)
    requires Searching(l, ii, iii, id, result) && iii < |l| && l[ii].Mark?
    requires FreeClose(Views(l)[iii]) && Views(l)[iii].size == 3 && l[ii].m.size != 3
    modifies l[iii].m
    ensures Searching(r, ii, iii + 1, id, result) && r[ii] == l[ii]
    ensures LiveThrees(Views(r)) < old(LiveThrees(Views(l)))
    ensures fresh(Objects(r) - Objects(l)) && Objects(l) <= Objects(r)
  {
    ghost var t := Views(l);
    SpliceForClose(t, ii, iii);
    SpliceKeepsIds(t, iii, l[ii].m.size, id);
    r := SplitAt(l, iii, l[ii].m.size);
  }

  /** A close marker of the same kind is the partner. */
  method JoinFound(l: seq<Item>, ii: nat, iii: nat, id: nat, ghost result: Search)
    requires Searching(l, ii, iii, id, result) && iii < |l| && l[ii].Mark? && l[iii].Mark?
    requires FreeClose(Views(l)[iii]) && Alike(Views(l)[ii], Views(l)[iii])
    modifies l[ii].m, l[iii].m
    ensures Consistent(l) && Found(Views(l), id + 1) == result
  {
    JoinAt(l, ii, iii, id);
  }

  /** An open marker of size 3 is split by a smaller close marker; its parts are searched for later. */
  method SplitOpen(l: seq<Item>, ii: nat, iii: nat, id: nat, ghost result: Search) returns (r: seq<Item>)
    requires Searching(l, ii, iii, id, result) && iii < |l| && l[ii].Mark? && l[iii].Mark?
    requires FreeClose(Views(l)[iii]) && !Alike(Views(l)[ii], Views(l)[iii]) && l[ii].m.size == 3
    modifies l[ii].m
    ensures Consistent(r) && Found(Views(r), id) == result
    ensures fresh(Objects(r) - Objects(l)) && Objects(l) <= Objects(r)
  {
    r := SplitAt(l, ii, l[iii].m.size);
  }

  lemma NotAClose(l: seq<Item>, ii: nat, iii: nat, id: nat, result: Search)
    requires Searching(l, ii, iii, id, result) && iii < |l|
    requires FreeClose(Views(l)[iii]) ==>
               Views(l)[iii].size != 3 && Views(l)[ii].size != 3 && !Alike(Views(l)[ii], Views(l)[iii])
    ensures Searching(l, ii, iii + 1, id, result)
  {
  }

  /** One turn of the inner loop: the partner is looked for at `iii`, and the search may go on at `j`. */
  method SearchAt(l: seq<Item>, ii: nat, iii: nat, id: nat, ghost result: Search)
    returns (r: seq<Item>, next: nat, j: nat, done: bool)
    requires Searching(l, ii, iii, id, result) && iii < |l| && l[ii].Mark?
    modifies Objects(l)
    ensures j == iii + 1
    ensures if done then Consistent(r) && Found(Views(r), next) == result else Searching(r, ii, j, id, result)
    ensures !done ==> next == id && ii < |r| && r[ii] == l[ii]
    ensures !done ==> LiveThrees(Views(r)) < old(LiveThrees(Views(l))) || (r == l && Views(r) == old(Views(l)))
    ensures fresh(Objects(r) - Objects(l)) && Objects(l) <= Objects(r)
  {
    r, next, j, done := l, id, iii + 1, false;
    var open := l[ii].m;
    MarkStanding(l, ii);
    MarkStanding(l, iii);
    if l[iii].Mark? && l[iii].m.IsUnmatchedCloseMarker() {
      var close := l[iii].m;
      if close.size == 3 && open.size != 3 {
        r := SplitClose(l, ii, iii, id, result);
        return;
      }
      if close.tokenCharacter == open.tokenCharacter && close.size == open.size {
        JoinFound(l, ii, iii, id, result);
        next, done := id + 1, true;
        return;
      } else if open.size == 3 {
        r := SplitOpen(l, ii, iii, id, result);
        done := true;
        return;
      }
    }
    NotAClose(l, ii, iii, id, result);
  }

  /** The inner loop: look for a partner of the open marker at `ii`. */
  method FindPartner(l: seq<Item>, ii: nat, id: nat) returns (tgt: seq<Item>, next: nat)
    requires ii < |l| && Consistent(l) && Sized(Views(l)) && FreeOpen(Views(l)[ii]) && IdsBelow(Views(l), id)
    requires SearchFrom(Views(l), ii, ii + 1, id).Found?
    modifies Objects(l)
    ensures Consistent(tgt) && Found(Views(tgt), next) == old(SearchFrom(Views(l), ii, ii + 1, id))
    ensures fresh(Objects(tgt) - Objects(l)) && Objects(l) <= Objects(tgt)
  {
    tgt, next := l, id;
    var iii: nat := ii + 1;
    ghost var result := SearchFrom(Views(l), ii, ii + 1, id);
    while iii < |tgt|
      invariant Searching(tgt, ii, iii, id, result) && tgt[ii] == l[ii] && next == id
      invariant fresh(Objects(tgt) - Objects(l)) && Objects(l) <= Objects(tgt)
      decreases LiveThrees(Views(tgt)), |tgt| - iii
    {
      var done;
      tgt, next, iii, done := SearchAt(tgt, ii, iii, id, result);
      if done {
        return;
      }
    }
  }

  /** What the predicates of a marker say of its token. */
  lemma MarkStanding(l: seq<Item>, i: nat)
    requires Consistent(l) && i < |l|
    ensures l[i].Mark? ==> l[i].m in Objects(l) && (l[i].m.IsUnmatchedCloseMarker() <==> FreeClose(View(l[i])))
    ensures l[i].Mark? ==> (l[i].m.IsUnmatchedOpenMarker() <==> FreeOpen(View(l[i])))
  {
    if l[i].Mark? {
      assert l[i].m in Objects(l);
    }
  }

  lemma SpliceKeepsIds(t: Tokens, i: nat, k: nat, next: nat)
    requires i < |t| && t[i].Marker? && t[i].standing.Free? && k <= t[i].size
    requires IdsBelow(t, next)
    ensures IdsBelow(Splice(t, i, k), next)
  {
    SplicePoints(t, i, k);
  }

  /** The pairing pass over the list of tokens. */
  method PairMarkers(l: seq<Item>) returns (tgt: seq<Item>)
    requires Consistent(l) && Unprocessed(Views(l)) && PairAll(Views(l)).Found?
    modifies Objects(l)
    ensures Consistent(tgt) && Views(tgt) == old(PairAll(Views(l)).tokens)
    ensures fresh(Objects(tgt) - Objects(l)) && Objects(l) <= Objects(tgt)
  {
    tgt := l;
    var id := 0;
    var ii := 0;
    ghost var result := PairAll(Views(l));
    while ii < |tgt|
      invariant ii <= |tgt| && Consistent(tgt) && Sized(Views(tgt)) && IdsBelow(Views(tgt), id)
      invariant PairFrom(Views(tgt), ii, id) == result
      invariant fresh(Objects(tgt) - Objects(l)) && Objects(l) <= Objects(tgt)
      decreases LiveThrees(Views(tgt)), |tgt| - ii
    {
      assert tgt[ii].Mark? ==> tgt[ii].m in Objects(tgt);
      if tgt[ii].Mark? && tgt[ii].m.IsUnmatchedOpenMarker() {
        SearchMeasure(Views(tgt), ii, ii + 1, id);
        SearchIds(Views(tgt), ii, ii + 1, id);
        tgt, id := FindPartner(tgt, ii, id);
      }
      ii := ii + 1;
    }
  }

  /** The stack of markers mirrors the positions `p`. */
  ghost predicate StackAt(l: seq<Item>, stack: seq<BoldOrItalicMarker>, p: seq<nat>) {
    |stack| == |p| && forall i | 0 <= i < |p| :: p[i] < |l| && l[p[i]] == Mark(stack[i])
  }

  method Unlink(ghost s: set<BoldOrItalicMarker>, x: BoldOrItalicMarker, y: BoldOrItalicMarker)
    requires Linked(s) && x in s && y in s && y.partner == x
    modifies x, y
    ensures Linked(s) && x.partner == null && y.partner == null
    ensures !x.disabled && !y.disabled
  {
    y.partner.Matched(null);
    y.Matched(null);
  }

  /** Undo the pair of positions `o` and `c`, starting from the close. */
  method UndoAt(l: seq<Item>, ghost o: nat, c: nat)
    requires o < c < |l| && l[o].Mark? && l[c].Mark? && Consistent(l) && Ordered(Views(l))
    requires SameId(View(l[o]), View(l[c]))
    modifies l[o].m, l[c].m
    ensures Consistent(l)
    ensures Views(l) == old(Views(l)[o := Views(l)[o].(standing := Free)][c := Views(l)[c].(standing := Free)])
  {
    ghost var t := Views(l);
    PartnerIs(l, o, c);
    Unlink(Objects(l), l[c].m.partner, l[c].m);
    assert forall i | 0 <= i < |l| && i != o && i != c :: View(l[i]) == t[i];
  }

  lemma PartnerIs(l: seq<Item>, o: nat, c: nat)
    requires o < c < |l| && l[o].Mark? && l[c].Mark? && Consistent(l) && Ordered(Views(l))
    requires SameId(View(l[o]), View(l[c]))
    ensures l[o].m in Objects(l) && l[c].m in Objects(l)
    ensures l[c].m.partner == l[o].m && l[o].m.partner == l[c].m
  {
    var t := Views(l);
    assert l[o].m in Objects(l) && l[c].m in Objects(l);
    var m := l[c].m.partner;
    var i :| 0 <= i < |l| && l[i] == Mark(m);
    assert SameId(t[c], t[i]);
    PartnerUnique(t, c, o, i);
  }

  lemma TokenAt(l: seq<Item>, t: Tokens, k: nat)
    requires Consistent(l) && Views(l) == UndoneUpTo(t, k) && k < |l|
    ensures View(l[k]) == t[k] && (l[k].Mark? ==> (l[k].m.partner != null <==> IsPaired(t[k])))
  {
    NotYetUndone(t, k);
    assert l[k].Mark? ==> l[k].m in Objects(l);
  }

  lemma Pushed(l: seq<Item>, stack: seq<BoldOrItalicMarker>, t: Tokens, p: seq<nat>, k: nat)
    requires k < |l| == |t| && l[k].Mark? && Matching(t) && IsPaired(t[k]) && t[k].open
    requires StackAt(l, stack, p) && StackReady(t, p, k)
    ensures StackAt(l, stack + [l[k].m], p + [k]) && StackReady(t, p + [k], k + 1)
    ensures UndoneUpTo(t, k) == UndoneUpTo(t, k + 1)
  {
    StackPushes(t, p, k);
  }

  /** The pass has come to `k`: pairs closed before `k` that are crossed are undone, and the stack is ready. */
  ghost predicate Unnested(l: seq<Item>, stack: seq<BoldOrItalicMarker>, t: Tokens, p: seq<nat>, k: nat)
    reads Objects(l)
  {
    Consistent(l) && Views(l) == UndoneUpTo(t, k) && StackAt(l, stack, p) && StackReady(t, p, k)
  }

  lemma NothingUndone(t: Tokens)
    ensures UndoneUpTo(t, 0) == t && StackReady(t, [], 0)
  {
  }

  /** What the un-nesting pass does at one token. */
  method UnnestStep(l: seq<Item>, stack: seq<BoldOrItalicMarker>, ghost t: Tokens, ghost p: seq<nat>, k: nat)
    returns (stack': seq<BoldOrItalicMarker>, ghost p': seq<nat>)
    requires Unnested(l, stack, t, p, k) && k < |l| && Matching(t)
    modifies Objects(l)
    ensures Unnested(l, stack', t, p', k + 1)
  {
    TokenAt(l, t, k);
    stack', p' := stack, p;
    if l[k].Mark? && l[k].m.IsMatchedOpenMarker() {
      Pushed(l, stack, t, p, k);
      stack', p' := stack + [l[k].m], p + [k];
    } else if l[k].Mark? && l[k].m.IsMatchedCloseMarker() {
      ghost var o := PartnerOfClose(t, k);
      stack', p' := CloseStep(l, stack, t, p, k, o);
    } else {
      StackSkips(t, p, k);
    }
  }

  /**
   The un-nesting pass: a stack of opens, and a close that is not for the top is undone with its open.
   What is left on the stack is nothing.
   */
  method UnnestMarkers(l: seq<Item>) returns (ghost left: seq<BoldOrItalicMarker>)
    requires Consistent(l) && Matching(Views(l))
    modifies Objects(l)
    ensures Consistent(l) && Views(l) == Survivors(old(Views(l)))
    ensures left == []
  {
    var openMatches: seq<BoldOrItalicMarker> := [];
    ghost var t := Views(l);
    ghost var p: seq<nat> := [];
    NothingUndone(t);
    for ii := 0 to |l|
      invariant Unnested(l, openMatches, t, p, ii)
    {
      openMatches, p := UnnestStep(l, openMatches, t, p, ii);
    }
    StackEndsEmpty(t, p);
    left := openMatches;
  }

  /** At a matched close the ids of the close and of the top differ exactly if the pair is crossed. */
  lemma TopTest(l: seq<Item>, stack: seq<BoldOrItalicMarker>, t: Tokens, p: seq<nat>, k: nat, o: nat)
    requires Unnested(l, stack, t, p, k) && k < |l| && Ordered(t) && PairOf(t, o, k)
    ensures l[k].Mark? && stack != []
    ensures l[k].m.id == stack[|stack| - 1].id <==> !Crossed(t, o, k)
    ensures View(l[o]) == t[o] && View(l[k]) == t[k]
  {
    TopDecides(t, p, k, o);
    var last := p[|p| - 1];
    PendingNotUndone(t, last, k);
    PendingNotUndone(t, o, k);
    NotYetUndone(t, k);
    assert View(l[last]) == t[last];
  }

  method CloseStep(l: seq<Item>, stack: seq<BoldOrItalicMarker>, ghost t: Tokens, ghost p: seq<nat>, k: nat,
                   ghost o: nat)
    returns (stack': seq<BoldOrItalicMarker>, ghost p': seq<nat>)
    requires Unnested(l, stack, t, p, k) && k < |l| && l[k].Mark? && Ordered(t) && PairOf(t, o, k)
    modifies Objects(l)
    ensures Unnested(l, stack', t, p', k + 1)
  {
    TopTest(l, stack, t, p, k, o);
    if l[k].m.id != stack[|stack| - 1].id {
      UndoCrossed(l, stack, t, p, k, o);
      stack', p' := stack, p;
    } else {
      stack', p' := PopMatched(l, stack, t, p, k, o);
    }
  }

  method PopMatched(l: seq<Item>, stack: seq<BoldOrItalicMarker>, ghost t: Tokens, ghost p: seq<nat>, k: nat,
                    ghost o: nat)
    returns (stack': seq<BoldOrItalicMarker>, ghost p': seq<nat>)
    requires Unnested(l, stack, t, p, k) && Ordered(t) && PairOf(t, o, k) && !Crossed(t, o, k)
    ensures Unnested(l, stack', t, p', k + 1)
  {
    TopDecides(t, p, k, o);
    StackPops(t, p, k, o);
    stack', p' := PopUndone(l, stack[..|stack| - 1], t, p[..|p| - 1], k + 1);
  }

  method UndoCrossed(l: seq<Item>, stack: seq<BoldOrItalicMarker>, ghost t: Tokens, ghost p: seq<nat>, k: nat,
                     ghost o: nat)
    requires Unnested(l, stack, t, p, k) && k < |l| && l[k].Mark? && Ordered(t) && PairOf(t, o, k) && Crossed(t, o, k)
    requires View(l[o]) == t[o] && View(l[k]) == t[k]
    modifies Objects(l)
    ensures Unnested(l, stack, t, p, k + 1)
  {
    StackUndoes(t, p, k, o);
    UndoneOrdered(t, k);
    assert l[o].m in Objects(l) && l[k].m in Objects(l);
    UndoAt(l, o, k);
  }

  method PopUndone(l: seq<Item>, stack: seq<BoldOrItalicMarker>, ghost t: Tokens, ghost p: seq<nat>, k: nat)
    returns (stack': seq<BoldOrItalicMarker>, ghost p': seq<nat>)
    requires Consistent(l) && Ordered(t)
    requires Views(l) == UndoneUpTo(t, k) && StackAt(l, stack, p) && StackHolds(t, p, k)
    ensures Unnested(l, stack', t, p', k)
  {
    stack', p' := stack, p;
    while stack' != [] && stack'[|stack'| - 1].partner == null
      invariant StackAt(l, stack', p') && StackHolds(t, p', k)
    {
      TopUndone(l, t, p', k);
      StackDrops(t, p', k);
      stack', p' := stack'[..|stack'| - 1], p'[..|p'| - 1];
    }
    if stack' != [] {
      TopUndone(l, t, p', k);
      StackDrops(t, p', k);
    }
  }

  lemma TopUndone(l: seq<Item>, t: Tokens, p: seq<nat>, k: nat)
    requires Consistent(l) && Views(l) == UndoneUpTo(t, k) && p != []
    requires StackHolds(t, p, k) && Ordered(t)
    requires p[|p| - 1] < |l| && l[p[|p| - 1]].Mark?
    ensures l[p[|p| - 1]].m.partner == null <==> UndoneBefore(t, p[|p| - 1], k)
  {
    var last := p[|p| - 1];
    assert last in p;
    assert l[last].m in Objects(l);
    if Pending(t, last, k) {
      PendingNotUndone(t, last, k);
    }
  }
}
