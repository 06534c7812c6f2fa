/**
 The passes of `RawText::processSpanElements` that replace matches of an expression: each match is
 given by where it starts and ends, and by what the pass makes of it.
 */
module MarkdownPasses {
  import opened Wrappers
  import opened Text
  import opened MarkdownPlaceholders
  import opened MarkdownSpans

  /**
   What becomes of a match. `Hide`: a token that prints as `entry`. `Show`: a token that prints the
   restored text of a part of the match in its own way, as code spans and HTML tags do. `Link`: an
   opening token, a part of the match left in the text, and a closing token.
   */
  datatype Act =
    | Hide(entry: string)
    | Show(first: nat, second: nat, show: string -> string)
    | Link(first: nat, second: nat, open: string, close: string)

  datatype Cut = Cut(from: nat, to: nat, act: Act)

  /** The labels of a pass: links use the second one for their closing token. */
  datatype Labels = Labels(first: string, second: string)

  function Slot(k: nat, tag: string): Segment {
    Placeholder(Item(k), tag)
  }

  /** The matches lie behind `prev` and behind each other, and parts of them inside them. */
  predicate Ordered(prev: nat, cuts: seq<Cut>, size: nat)
    decreases |cuts|
  {
    if cuts == [] then prev <= size
    else
      var c := cuts[0];
      && prev <= c.from <= c.to
      && (!c.act.Hide? ==> c.from <= c.act.first <= c.act.second <= c.to)
      && Ordered(c.to, cuts[1..], size)
  }

  lemma {:induction false} OrderedEnds(prev: nat, cuts: seq<Cut>, size: nat)
    requires Ordered(prev, cuts, size)
    ensures prev <= size
    ensures cuts != [] ==> cuts[0].to <= size
    decreases |cuts|
  {
    if cuts != [] {
      OrderedEnds(cuts[0].to, cuts[1..], size);
    }
  }

  lemma InsideSlice(segs: seq<Segment>, a: nat, b: nat, size: nat, more: nat)
    requires Inside(segs, size) && a <= b <= |segs|
    ensures Inside(segs[a..b], size + more) && Inside(segs, size + more)
  {
  }

  /** The tokens a match adds to the table. */
  function Entries(segs: seq<Segment>, c: Cut, table: seq<string>): (entries: seq<string>)
    requires Inside(segs, |table|)
    requires c.from <= c.to <= |segs| && (!c.act.Hide? ==> c.from <= c.act.first <= c.act.second <= c.to)
    ensures |entries| == if c.act.Link? then 2 else 1
  {
    match c.act
    case Hide(entry) => [entry]
    case Show(a, b, show) =>
      InsideSlice(segs, a, b, |table|, 0);
      RestoresIffInside(segs[a..b], table);
      [show(RestoreSegments(segs[a..b], table).value)]
    case Link(_, _, open, close) => [open, close]
  }

  /** What stands in the text in place of a match. */
  function Replacement(segs: seq<Segment>, c: Cut, size: nat, labels: Labels): seq<Segment>
    requires c.from <= c.to <= |segs| && (!c.act.Hide? ==> c.from <= c.act.first <= c.act.second <= c.to)
  {
    if c.act.Link? then [Slot(size, labels.first)] + segs[c.act.first..c.act.second] + [Slot(size + 1, labels.second)]
    else [Slot(size, labels.first)]
  }

  /** The text and the table that a pass makes of the text behind `prev`. */
  function Pass(segs: seq<Segment>, prev: nat, cuts: seq<Cut>, table: seq<string>, labels: Labels)
    : (r: (seq<Segment>, seq<string>))
    requires Inside(segs, |table|) && Ordered(prev, cuts, |segs|)
    decreases |cuts|
  {
    OrderedEnds(prev, cuts, |segs|);
    if cuts == [] then (segs[prev..], table)
    else
      var c := cuts[0];
      var entries := Entries(segs, c, table);
      InsideSlice(segs, 0, 0, |table|, |entries|);
      var rest := Pass(segs, c.to, cuts[1..], table + entries, labels);
      (segs[prev..c.from] + Replacement(segs, c, |table|, labels) + rest.0, rest.1)
  }

  predicate CleanTag(tag: string) {
    tag != "" && NoChar(tag, MARK) && NoChar(tag, '\\')
  }

  predicate CleanLabels(labels: Labels) {
    CleanTag(labels.first) && CleanTag(labels.second)
  }

  lemma GoodSlice(segs: seq<Segment>, a: nat, b: nat, size: nat, more: nat)
    requires Good(segs, size) && a <= b <= |segs|
    ensures Good(segs[a..b], size + more) && Good(segs, size + more)
  {
  }

  lemma GoodReplacement(segs: seq<Segment>, c: Cut, table: seq<string>, labels: Labels)
    requires Good(segs, |table|) && CleanLabels(labels)
    requires c.from <= c.to <= |segs| && (!c.act.Hide? ==> c.from <= c.act.first <= c.act.second <= c.to)
    ensures Good(Replacement(segs, c, |table|, labels), |table| + |Entries(segs, c, table)|)
  {
    var size := |table| + |Entries(segs, c, table)|;
    if c.act.Link? {
      GoodSlice(segs, c.act.first, c.act.second, |table|, 2);
      GoodJoin([Slot(|table|, labels.first)], segs[c.act.first..c.act.second], size);
      GoodJoin([Slot(|table|, labels.first)] + segs[c.act.first..c.act.second], [Slot(|table| + 1, labels.second)], size);
    }
  }

  /** Every placeholder that a pass leaves in the text names an entry of the table it leaves. */
  lemma {:induction false} PassKeeps(segs: seq<Segment>, prev: nat, cuts: seq<Cut>, table: seq<string>, labels: Labels)
    requires Good(segs, |table|) && Ordered(prev, cuts, |segs|) && CleanLabels(labels)
    ensures Good(Pass(segs, prev, cuts, table, labels).0, |Pass(segs, prev, cuts, table, labels).1|)
    ensures table <= Pass(segs, prev, cuts, table, labels).1
    decreases |cuts|
  {
    OrderedEnds(prev, cuts, |segs|);
    if cuts == [] {
      GoodSlice(segs, prev, |segs|, |table|, 0);
    } else {
      var c := cuts[0];
      var entries := Entries(segs, c, table);
      GoodSlice(segs, prev, c.from, |table|, |entries|);
      PassKeeps(segs, c.to, cuts[1..], table + entries, labels);
      GoodReplacement(segs, c, table, labels);
      var rest := Pass(segs, c.to, cuts[1..], table + entries, labels);
      var middle := Replacement(segs, c, |table|, labels);
      GoodGrown(segs[prev..c.from], |table + entries|, |rest.1|);
      GoodGrown(middle, |table + entries|, |rest.1|);
      GoodJoin(segs[prev..c.from], middle, |rest.1|);
      GoodJoin(segs[prev..c.from] + middle, rest.0, |rest.1|);
    }
  }

  lemma GoodGrown(segs: seq<Segment>, size: nat, larger: nat)
    requires Good(segs, size) && size <= larger
    ensures Good(segs, larger)
  {
  }

  // ---- The loop over the text ----

  function Place(segs: seq<Segment>, k: nat): nat
    requires k <= |segs|
  {
    |Flat(segs[..k])|
  }

  lemma Middle(x: string, y: string, z: string)
    ensures (x + y + z)[|x|..|x + y|] == y
  {
  }

  lemma PlaceSlice(segs: seq<Segment>, a: nat, b: nat)
    requires a <= b <= |segs|
    ensures Place(segs, a) <= Place(segs, b) <= |Flat(segs)|
    ensures Flat(segs)[Place(segs, a)..Place(segs, b)] == Flat(segs[a..b])
  {
    var x, y, z := segs[..a], segs[a..b], segs[b..];
    assert x + y == segs[..b] && x + y + z == segs;
    FlatJoin(x, y);
    FlatJoin(x + y, z);
    Middle(Flat(x), Flat(y), Flat(z));
  }

  /** The match in the text: positions in the text, none of them inside a placeholder. */
  ghost predicate Locates(segs: seq<Segment>, s: Cut, c: Cut) {
    && c.from <= c.to <= |segs| && s.from == Place(segs, c.from) && s.to == Place(segs, c.to)
    && match c.act
       case Hide(_) => s.act == c.act
       case Show(a, b, show) =>
         a <= b <= |segs| && s.act == Show(Place(segs, a), Place(segs, b), show)
       case Link(a, b, open, close) =>
         a <= b <= |segs| && s.act == Link(Place(segs, a), Place(segs, b), open, close)
  }

  /** The restored text of a part of a match: restoring it cannot fail. */
  method RestorePart(part: string, table: seq<string>, ghost segs: seq<Segment>, ghost a: nat, ghost b: nat)
    returns (restored: string)
    requires Good(segs, |table|) && a <= b <= |segs| && part == Flat(segs[a..b])
    ensures RestoreSegments(segs[a..b], table) == Some(restored)
  {
    GoodSlice(segs, a, b, |table|, 0);
    RestoreFlat(segs[a..b], table);
    var r := RestoreProcessedItems(part, table);
    restored := r.value;
  }

  /** One match of a pass: the new text and the new table. */
  method ReplaceMatch(src: string, s: Cut, table: seq<string>, labels: Labels, ghost segs: seq<Segment>, ghost c: Cut)
    returns (text: string, grown: seq<string>)
    requires src == Flat(segs) && Good(segs, |table|) && Locates(segs, s, c)
    requires c.from <= c.to <= |segs| && (!c.act.Hide? ==> c.from <= c.act.first <= c.act.second <= c.to)
    ensures text == Flat(Replacement(segs, c, |table|, labels))
    ensures grown == table + Entries(segs, c, table)
  {
    text := Spelled(Slot(|table|, labels.first));
    FlatOne(Slot(|table|, labels.first));
    match s.act
    case Hide(entry) =>
      grown := table + [entry];
    case Show(a, b, show) =>
      PlaceSlice(segs, c.act.first, c.act.second);
      var restored := RestorePart(src[a..b], table, segs, c.act.first, c.act.second);
      grown := table + [show(restored)];
    case Link(a, b, open, close) =>
      PlaceSlice(segs, c.act.first, c.act.second);
      TwoEntries(table, open, close);
      grown := table + [open];
      var last := Slot(|grown|, labels.second);
      Bracketed(Slot(|table|, labels.first), segs[c.act.first..c.act.second], last);
      text := text + src[a..b] + Spelled(last);
      grown := grown + [close];
  }

  lemma TwoEntries(table: seq<string>, open: string, close: string)
    ensures table + [open] + [close] == table + [open, close] && |table + [open]| == |table| + 1
  {
  }

  lemma Bracketed(a: Segment, part: seq<Segment>, b: Segment)
    ensures Flat([a] + part + [b]) == Spelled(a) + Flat(part) + Spelled(b)
  {
    FlatJoin([a], part);
    FlatJoin([a] + part, [b]);
    FlatOne(a);
    FlatOne(b);
  }

  lemma FlatOne(g: Segment)
    ensures Flat([g]) == Spelled(g)
  {
    assert [g][1..] == [] && Spelled(g) + "" == Spelled(g);
  }

  /** The loop that all replacing passes share. */
  method RunPass(src: string, matches: seq<Cut>, table: seq<string>, labels: Labels,
                 ghost segs: seq<Segment>, ghost cuts: seq<Cut>)
    returns (tgt: string, grown: seq<string>)
    requires src == Flat(segs) && Good(segs, |table|) && Ordered(0, cuts, |segs|) && CleanLabels(labels)
    requires |matches| == |cuts| && forall i | 0 <= i < |cuts| :: Locates(segs, matches[i], cuts[i])
    ensures tgt == Flat(Pass(segs, 0, cuts, table, labels).0)
    ensures grown == Pass(segs, 0, cuts, table, labels).1
  {
    tgt, grown := "", table;
    var prev: nat := 0;
    ghost var at: nat, whole := 0, Pass(segs, 0, cuts, table, labels);
    for i := 0 to |matches|
      invariant at <= |segs| && prev == Place(segs, at)
      invariant Good(segs, |grown|) && Ordered(at, cuts[i..], |segs|)
      invariant whole.1 == Pass(segs, at, cuts[i..], grown, labels).1
      invariant Flat(whole.0) == tgt + Flat(Pass(segs, at, cuts[i..], grown, labels).0)
    {
      ghost var c := cuts[i];
      PassStep(segs, at, cuts[i..], grown, labels);
      assert cuts[i..][1..] == cuts[i + 1..];
      PlaceSlice(segs, at, c.from);
      var text, more := ReplaceMatch(src, matches[i], grown, labels, segs, c);
      Append(tgt, src[prev..matches[i].from] + text, Flat(Pass(segs, c.to, cuts[i + 1..], more, labels).0));
      tgt := tgt + (src[prev..matches[i].from] + text);
      prev, grown := matches[i].to, more;
      at := c.to;
    }
    PlaceSlice(segs, at, |segs|);
    assert segs[..|segs|] == segs;
    tgt := tgt + src[prev..];
  }

  lemma PassStep(segs: seq<Segment>, prev: nat, cuts: seq<Cut>, table: seq<string>, labels: Labels)
    requires Good(segs, |table|) && cuts != [] && Ordered(prev, cuts, |segs|)
    ensures prev <= cuts[0].from <= cuts[0].to <= |segs|
    ensures var c := cuts[0];
            var next := table + Entries(segs, c, table);
            && Good(segs, |next|)
            && Pass(segs, prev, cuts, table, labels).1 == Pass(segs, c.to, cuts[1..], next, labels).1
            && Flat(Pass(segs, prev, cuts, table, labels).0) ==
               Flat(segs[prev..c.from]) + Flat(Replacement(segs, c, |table|, labels)) +
               Flat(Pass(segs, c.to, cuts[1..], next, labels).0)
  {
    var c := cuts[0];
    OrderedEnds(prev, cuts, |segs|);
    var entries := Entries(segs, c, table);
    GoodSlice(segs, 0, 0, |table|, |entries|);
    var middle := Replacement(segs, c, |table|, labels);
    FlatJoin(segs[prev..c.from], middle);
    FlatJoin(segs[prev..c.from] + middle, Pass(segs, c.to, cuts[1..], table + entries, labels).0);
  }

  // ---- Code spans ----

  /** A match of the single-backtick expression, whose token prints its contents between backticks. */
  ghost predicate CodeSpan(segs: seq<Segment>, c: Cut) {
    && c.act.Show? && c.from < c.act.first == c.from + 1 <= c.act.second < c.to == c.act.second + 1 <= |segs|
    && segs[c.from] == Char('`') && segs[c.act.second] == Char('`')
    && forall t :: c.act.show(t) == "`" + t + "`"
  }

  lemma Ends(segs: seq<Segment>, from: nat, a: nat, b: nat, to: nat)
    requires from + 1 == a <= b && b + 1 == to <= |segs|
    ensures segs[from..to] == [segs[from]] + segs[a..b] + [segs[b]]
  {
  }

  lemma CodeSpanEntry(segs: seq<Segment>, c: Cut, table: seq<string>)
    requires Inside(segs, |table|) && CodeSpan(segs, c)
    ensures RestoreSegments(segs[c.from..c.to], table) == Some(Entries(segs, c, table)[0])
  {
    var a, b := c.act.first, c.act.second;
    Ends(segs, c.from, a, b, c.to);
    RestoreJoin([Char('`')], segs[a..b], table);
    RestoreJoin([Char('`')] + segs[a..b], [Char('`')], table);
    RestoreOne(Char('`'), table);
    InsideSlice(segs, a, b, |table|, 0);
    RestoresIffInside(segs[a..b], table);
  }

  /** Setting code spans aside does not change what the text stands for. */
  lemma {:induction false} CodeSpansRestore(segs: seq<Segment>, prev: nat, cuts: seq<Cut>, table: seq<string>,
                                            labels: Labels)
    requires Good(segs, |table|) && Ordered(prev, cuts, |segs|) && CleanLabels(labels)
    requires forall i | 0 <= i < |cuts| :: CodeSpan(segs, cuts[i])
    ensures var (text, grown) := Pass(segs, prev, cuts, table, labels);
            prev <= |segs| && RestoreSegments(text, grown) == RestoreSegments(segs[prev..], table)
    decreases |cuts|
  {
    OrderedEnds(prev, cuts, |segs|);
    if cuts != [] {
      var c := cuts[0];
      var entries := Entries(segs, c, table);
      GoodSlice(segs, 0, 0, |table|, |entries|);
      CodeSpansRestore(segs, c.to, cuts[1..], table + entries, labels);
      PassKeeps(segs, c.to, cuts[1..], table + entries, labels);
      var rest := Pass(segs, c.to, cuts[1..], table + entries, labels);
      CodeSpanRestores(segs, prev, c, table, rest.1, rest.0, labels);
    }
  }

  lemma TailParts(segs: seq<Segment>, a: nat, b: nat, c: nat)
    requires a <= b <= c <= |segs|
    ensures segs[a..] == segs[a..b] + segs[b..c] + segs[c..]
  {
  }

  lemma CodeSpanRestores(segs: seq<Segment>, prev: nat, c: Cut, table: seq<string>, grown: seq<string>,
                         rest: seq<Segment>, labels: Labels)
    requires Good(segs, |table|) && prev <= c.from && CodeSpan(segs, c) && table + Entries(segs, c, table) <= grown
    requires RestoreSegments(rest, grown) == RestoreSegments(segs[c.to..], table + Entries(segs, c, table))
    ensures RestoreSegments(segs[prev..c.from] + [Slot(|table|, labels.first)] + rest, grown) ==
            RestoreSegments(segs[prev..], table)
  {
    var entries := Entries(segs, c, table);
    var before, behind := segs[prev..c.from], segs[c.to..];
    GoodSlice(segs, prev, c.from, |table|, 0);
    GoodSlice(segs, c.to, |segs|, |table|, 0);
    assert grown == table + grown[|table|..];
    RestoreGrown(before, table, grown[|table|..]);
    RestoreGrown(behind, table, entries);
    assert RestoreSegments([Slot(|table|, labels.first)], grown) == Some(entries[0]) by {
      assert grown[|table|] == (table + entries)[|table|];
      JoinEmpty(Some(entries[0]));
    }
    RestoreJoin(before, [Slot(|table|, labels.first)], grown);
    RestoreJoin(before + [Slot(|table|, labels.first)], rest, grown);
    CodeSpanEntry(segs, c, table);
    RestoreJoin(before, segs[c.from..c.to], table);
    RestoreJoin(before + segs[c.from..c.to], behind, table);
    TailParts(segs, prev, c.from, c.to);
  }

  // ---- What a pass means ----

  /** What a match is meant to print: its tokens, and the restored text of the part that they show or leave. */
  function Prints(segs: seq<Segment>, c: Cut, table: seq<string>): Option<string>
    requires c.from <= c.to <= |segs| && (!c.act.Hide? ==> c.from <= c.act.first <= c.act.second <= c.to)
  {
    match c.act
    case Hide(entry) => Some(entry)
    case Show(a, b, show) =>
      var part := RestoreSegments(segs[a..b], table);
      if part.Some? then Some(show(part.value)) else None
    case Link(a, b, open, close) => Join(Some(open), Join(RestoreSegments(segs[a..b], table), Some(close)))
  }

  /** What the text behind `prev` is meant to print, its matches replaced and all else restored. */
  function Meaning(segs: seq<Segment>, prev: nat, cuts: seq<Cut>, table: seq<string>): Option<string>
    requires Ordered(prev, cuts, |segs|)
    decreases |cuts|
  {
    OrderedEnds(prev, cuts, |segs|);
    if cuts == [] then RestoreSegments(segs[prev..], table)
    else
      var c := cuts[0];
      Join(RestoreSegments(segs[prev..c.from], table), Join(Prints(segs, c, table), Meaning(segs, c.to, cuts[1..], table)))
  }

  lemma SliceGrown(segs: seq<Segment>, a: nat, b: nat, table: seq<string>, more: seq<string>)
    requires Inside(segs, |table|) && a <= b <= |segs|
    ensures RestoreSegments(segs[a..b], table + more) == RestoreSegments(segs[a..b], table)
  {
    InsideSlice(segs, a, b, |table|, 0);
    RestoreGrown(segs[a..b], table, more);
  }

  lemma {:induction false} MeaningGrown(segs: seq<Segment>, prev: nat, cuts: seq<Cut>, table: seq<string>,
                                        more: seq<string>)
    requires Inside(segs, |table|) && Ordered(prev, cuts, |segs|)
    ensures Meaning(segs, prev, cuts, table + more) == Meaning(segs, prev, cuts, table)
    decreases |cuts|
  {
    OrderedEnds(prev, cuts, |segs|);
    if cuts == [] {
      assert segs[prev..] == segs[prev..|segs|];
      SliceGrown(segs, prev, |segs|, table, more);
    } else {
      var c := cuts[0];
      SliceGrown(segs, prev, c.from, table, more);
      if !c.act.Hide? {
        SliceGrown(segs, c.act.first, c.act.second, table, more);
      }
      MeaningGrown(segs, c.to, cuts[1..], table, more);
    }
  }

  lemma RestoreSlot(k: nat, tag: string, grown: seq<string>)
    requires k < |grown|
    ensures RestoreSegments([Slot(k, tag)], grown) == Some(grown[k])
  {
    RestoreOne(Slot(k, tag), grown);
  }

  /** The replacement of a match prints what it is meant to. */
  lemma ReplacementPrints(segs: seq<Segment>, c: Cut, table: seq<string>, more: seq<string>, labels: Labels)
    requires Good(segs, |table|)
    requires c.from <= c.to <= |segs| && (!c.act.Hide? ==> c.from <= c.act.first <= c.act.second <= c.to)
    ensures RestoreSegments(Replacement(segs, c, |table|, labels), table + Entries(segs, c, table) + more)
         == Prints(segs, c, table)
  {
    var entries, n := Entries(segs, c, table), |table|;
    var grown := table + entries + more;
    assert grown[n] == entries[0];
    RestoreSlot(n, labels.first, grown);
    match c.act
    case Hide(entry) =>
    case Show(a, b, show) =>
      InsideSlice(segs, a, b, n, 0);
      RestoresIffInside(segs[a..b], table);
    case Link(a, b, open, close) =>
      var next, part := n + 1, segs[a..b];
      assert grown[next] == entries[1];
      RestoreSlot(next, labels.second, grown);
      SliceGrown(segs, a, b, table, entries + more);
      Append(table, entries, more);
      RestoreJoin([Slot(n, labels.first)], part, grown);
      RestoreJoin([Slot(n, labels.first)] + part, [Slot(next, labels.second)], grown);
      JoinAgain(Some(open), RestoreSegments(part, table), Some(close));
  }

  /**
   A pass changes the meaning of a text exactly as its matches say: what it leaves restores to the text with each match
   replaced by what its tokens print.
   */
  lemma {:induction false} PassMeans(segs: seq<Segment>, prev: nat, cuts: seq<Cut>, table: seq<string>, labels: Labels)
    requires Good(segs, |table|) && Ordered(prev, cuts, |segs|) && CleanLabels(labels)
    ensures var (text, grown) := Pass(segs, prev, cuts, table, labels);
            RestoreSegments(text, grown) == Meaning(segs, prev, cuts, table)
    decreases |cuts|
  {
    OrderedEnds(prev, cuts, |segs|);
    if cuts != [] {
      var c := cuts[0];
      var entries := Entries(segs, c, table);
      GoodSlice(segs, 0, 0, |table|, |entries|);
      PassMeans(segs, c.to, cuts[1..], table + entries, labels);
      PassKeeps(segs, c.to, cuts[1..], table + entries, labels);
      MeaningGrown(segs, c.to, cuts[1..], table, entries);
      var rest := Pass(segs, c.to, cuts[1..], table + entries, labels);
      PartsPrint(segs, prev, c, table, rest.1[|table + entries|..], rest.0, labels);
      assert table + entries + rest.1[|table + entries|..] == rest.1;
    }
  }

  lemma PartsPrint(segs: seq<Segment>, prev: nat, c: Cut, table: seq<string>, more: seq<string>, rest: seq<Segment>,
                   labels: Labels)
    requires Good(segs, |table|) && prev <= c.from
    requires c.from <= c.to <= |segs| && (!c.act.Hide? ==> c.from <= c.act.first <= c.act.second <= c.to)
    ensures var grown := table + Entries(segs, c, table) + more;
            RestoreSegments(segs[prev..c.from] + Replacement(segs, c, |table|, labels) + rest, grown) ==
            Join(RestoreSegments(segs[prev..c.from], table), Join(Prints(segs, c, table), RestoreSegments(rest, grown)))
  {
    var entries := Entries(segs, c, table);
    var grown := table + entries + more;
    var before, middle := segs[prev..c.from], Replacement(segs, c, |table|, labels);
    SliceGrown(segs, prev, c.from, table, entries + more);
    Append(table, entries, more);
    ReplacementPrints(segs, c, table, more, labels);
    RestoreJoin(before, middle, grown);
    RestoreJoin(before + middle, rest, grown);
    JoinAgain(RestoreSegments(before, table), Prints(segs, c, table), RestoreSegments(rest, grown));
  }

  // ---- What a pass leaves in the text ----

  /** The text less what the matches take out; the inner part of a link stays. */
  function Left(segs: seq<Segment>, prev: nat, cuts: seq<Cut>): seq<Segment>
    requires Ordered(prev, cuts, |segs|)
    decreases |cuts|
  {
    OrderedEnds(prev, cuts, |segs|);
    if cuts == [] then segs[prev..]
    else
      var c := cuts[0];
      segs[prev..c.from] + (if c.act.Link? then segs[c.act.first..c.act.second] else []) + Left(segs, c.to, cuts[1..])
  }

  predicate Newer(g: Segment, size: nat) {
    g.Placeholder? && g.ref.Item? && size <= g.ref.slot
  }

  /** The text without placeholders for table entries from `size` on. */
  function Older(segs: seq<Segment>, size: nat): seq<Segment> {
    if segs == [] then [] else (if Newer(segs[0], size) then [] else [segs[0]]) + Older(segs[1..], size)
  }

  lemma {:induction false} OlderJoin(a: seq<Segment>, b: seq<Segment>, size: nat)
    ensures Older(a + b, size) == Older(a, size) + Older(b, size)
  {
    if a == [] {
      assert a + b == b;
    } else {
      assert (a + b)[1..] == a[1..] + b;
      OlderJoin(a[1..], b, size);
    }
  }

  lemma {:induction false} OlderInside(segs: seq<Segment>, size: nat)
    requires Inside(segs, size)
    ensures Older(segs, size) == segs
  {
    if segs != [] {
      OlderInside(segs[1..], size);
      assert !Newer(segs[0], size);
      assert segs == [segs[0]] + segs[1..];
    }
  }

  lemma {:induction false} OlderTwice(segs: seq<Segment>, size: nat, larger: nat)
    requires size <= larger
    ensures Older(segs, size) == Older(Older(segs, larger), size)
  {
    if segs != [] {
      var g, rest := segs[0], segs[1..];
      OlderTwice(rest, size, larger);
      if Newer(g, larger) {
        assert Older(segs, larger) == Older(rest, larger);
      } else {
        assert ([g] + Older(rest, larger))[1..] == Older(rest, larger);
      }
    }
  }

  lemma {:induction false} LeftInside(segs: seq<Segment>, prev: nat, cuts: seq<Cut>, size: nat)
    requires Inside(segs, size) && Ordered(prev, cuts, |segs|)
    ensures Inside(Left(segs, prev, cuts), size)
    decreases |cuts|
  {
    OrderedEnds(prev, cuts, |segs|);
    if cuts != [] {
      LeftInside(segs, cuts[0].to, cuts[1..], size);
    }
  }

  lemma OlderReplacement(segs: seq<Segment>, c: Cut, size: nat, labels: Labels)
    requires Inside(segs, size)
    requires c.from <= c.to <= |segs| && (!c.act.Hide? ==> c.from <= c.act.first <= c.act.second <= c.to)
    ensures Older(Replacement(segs, c, size, labels), size) ==
            if c.act.Link? then segs[c.act.first..c.act.second] else []
  {
    var a, b := Slot(size, labels.first), Slot(size + 1, labels.second);
    assert Older([a], size) == [] && Older([b], size) == [] by {
      assert [a][1..] == [] && [b][1..] == [];
    }
    if c.act.Link? {
      var part := segs[c.act.first..c.act.second];
      InsideSlice(segs, c.act.first, c.act.second, size, 0);
      OlderInside(part, size);
      OlderJoin([a], part, size);
      OlderJoin([a] + part, [b], size);
    }
  }

  /** But for its own placeholders, a pass leaves everything outside the matches as it is, and nothing of what they take. */
  lemma {:induction false} PassLeaves(segs: seq<Segment>, prev: nat, cuts: seq<Cut>, table: seq<string>, labels: Labels)
    requires Inside(segs, |table|) && Ordered(prev, cuts, |segs|)
    ensures Older(Pass(segs, prev, cuts, table, labels).0, |table|) == Left(segs, prev, cuts)
    decreases |cuts|
  {
    OrderedEnds(prev, cuts, |segs|);
    if cuts == [] {
      OlderInside(segs[prev..], |table|);
    } else {
      var c, n := cuts[0], |table|;
      var entries := Entries(segs, c, table);
      var m := |table + entries|;
      InsideSlice(segs, prev, c.from, n, 0);
      InsideSlice(segs, 0, 0, n, |entries|);
      PassLeaves(segs, c.to, cuts[1..], table + entries, labels);
      var before, middle := segs[prev..c.from], Replacement(segs, c, n, labels);
      var rest := Pass(segs, c.to, cuts[1..], table + entries, labels).0;
      LeftInside(segs, c.to, cuts[1..], n);
      OlderInside(Left(segs, c.to, cuts[1..]), n);
      OlderTwice(rest, n, m);
      OlderInside(before, n);
      OlderReplacement(segs, c, n, labels);
      OlderJoin(before, middle, n);
      OlderJoin(before + middle, rest, n);
    }
  }

  // ---- All passes ----

  /** The passes before emphasis: any number of replacing passes and of escaping passes. */
  datatype Step = Replacing(cuts: seq<Cut>, labels: Labels) | Escaping

  datatype Working = Working(segs: seq<Segment>, table: seq<string>)

  ghost predicate Fits(w: Working, step: Step) {
    step.Replacing? ==> Ordered(0, step.cuts, |w.segs|) && CleanLabels(step.labels)
  }

  ghost function After(w: Working, step: Step): Working
    requires Inside(w.segs, |w.table|) && Fits(w, step)
  {
    match step
    case Replacing(cuts, labels) => var (segs, table) := Pass(w.segs, 0, cuts, w.table, labels); Working(segs, table)
    case Escaping => Working(EscapeSegments(w.segs), w.table)
  }

  ghost predicate Run(ws: seq<Working>, steps: seq<Step>) {
    && |ws| == |steps| + 1
    && forall i | 0 <= i < |steps| ::
         && Fits(ws[i], steps[i])
         && (Inside(ws[i].segs, |ws[i].table|) ==> ws[i + 1] == After(ws[i], steps[i]))
  }

  /**
   In every run from a text free of marks, whatever the passes and their matches, every placeholder
   of the working text names an entry of the table; so any stretch of it between placeholders'
   ends can be restored, and split into tokens.
   */
  lemma {:induction false} PlaceholdersResolve(ws: seq<Working>, steps: seq<Step>, s: string, k: nat)
    requires NoChar(s, MARK) && Run(ws, steps) && ws[0] == Working(Chars(s), [])
    requires k < |ws|
    ensures Good(ws[k].segs, |ws[k].table|)
    ensures forall a, b | 0 <= a <= b <= |ws[k].segs| :: Restore(Flat(ws[k].segs[a..b]), ws[k].table).Some?
  {
    if k > 0 {
      PlaceholdersResolve(ws, steps, s, k - 1);
      var w, step := ws[k - 1], steps[k - 1];
      if step.Replacing? {
        PassKeeps(w.segs, 0, step.cuts, w.table, step.labels);
      } else {
        EscapeGood(w.segs, |w.table|);
      }
    }
    forall a, b | 0 <= a <= b <= |ws[k].segs| ensures Restore(Flat(ws[k].segs[a..b]), ws[k].table).Some? {
      GoodSlice(ws[k].segs, a, b, |ws[k].table|, 0);
      RestoreFlat(ws[k].segs[a..b], ws[k].table);
    }
  }
}
