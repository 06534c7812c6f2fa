/**
 The token automaton of the config parser as a function, and the grammar it accepts.
 */
module ConfigGrammar {
  import Text
  import opened ConfigLexer

  /** A parsed statement: its words and the statements of its block. */
  datatype Tree = Node(words: seq<string>, kids: seq<Tree>)

  // ---- The automaton ----

  /** `Undefined`: the stack of open blocks is used after a `}` has emptied it. */
  datatype Outcome = Accept(tree: Tree) | Reject | Undefined

  /** The statement on top is complete: it becomes the last child of the one below. */
  function Fold(fs: seq<Tree>): seq<Tree>
    requires |fs| >= 2
  {
    var n := |fs| - 2;
    fs[..n] + [Node(fs[n].words, fs[n].kids + [fs[n + 1]])]
  }

  function AddWord(fs: seq<Tree>, w: string): seq<Tree>
    requires fs != []
  {
    var n := |fs| - 1;
    fs[..n] + [Node(fs[n].words + [w], fs[n].kids)]
  }

  /** States the automaton can be in: after a word the statement being read lies on top of its block. */
  predicate State(fs: seq<Tree>, last: TokenType) {
    match last
    case Start => |fs| == 1
    case Normal => |fs| >= 2
    case StartBlock => |fs| >= 2
    case StatementEnd => |fs| >= 1
    case EndBlock => true
    case _ => false
  }

  datatype Turn = Go(fs: seq<Tree>, last: TokenType) | Stop(outcome: Outcome)

  /**
   One token. `fs` are the trees under construction, outermost first: the root, the open blocks, and after
   a word also the statement it belongs to.
   */
  function Advance(fs: seq<Tree>, last: TokenType, tok: Tok): (r: Turn)
    requires State(fs, last)
    ensures r.Go? ==> State(r.fs, r.last)
  {
    match tok
    case Word(w) =>
      if last == Normal then Go(AddWord(fs, w), Normal)
      else if fs == [] then Stop(Undefined)
      else Go(fs + [Node([w], [])], Normal)
    case Semicolon =>
      if last == Normal then Go(Fold(fs), StatementEnd) else Stop(Reject)
    case OpenBrace =>
      if last == Normal then Go(fs, StartBlock) else Stop(Reject)
    case CloseBrace =>
      if last !in {StatementEnd, EndBlock, StartBlock} then Stop(Reject)
      else if fs == [] then Stop(Undefined)
      else Go(if |fs| == 1 then [] else Fold(fs), EndBlock)
  }

  /** The run of the automaton to the end of the tokens. */
  function Parse(fs: seq<Tree>, last: TokenType, toks: seq<Tok>, clean: bool): Outcome
    requires State(fs, last)
    decreases |toks|
  {
    if toks == [] then
      if clean && last in {StatementEnd, EndBlock, Start} && |fs| == 1 then Accept(fs[0]) else Reject
    else
      match Advance(fs, last, toks[0])
      case Stop(o) => o
      case Go(fs', last') => Parse(fs', last', toks[1..], clean)
  }

  // ---- The grammar ----

  /** stmt ::= word+ `;` | word+ `{` stmt* `}` */
  datatype Stmt = Simple(words: seq<string>) | Block(words: seq<string>, body: seq<Stmt>)

  function WordToks(words: seq<string>): seq<Tok> {
    seq(|words|, i requires 0 <= i < |words| => Word(words[i]))
  }

  function Yield(s: Stmt): seq<Tok>
    decreases s, 0
  {
    match s
    case Simple(words) => WordToks(words) + [Semicolon]
    case Block(words, body) => WordToks(words) + [OpenBrace] + YieldAll(body) + [CloseBrace]
  }

  function YieldAll(ss: seq<Stmt>): seq<Tok>
    decreases ss, 1
  {
    if ss == [] then [] else YieldAll(ss[..|ss| - 1]) + Yield(ss[|ss| - 1])
  }

  /** Every statement, at every depth, has a word. */
  predicate Worded(s: Stmt) {
    s.words != [] && (s.Block? ==> forall i | 0 <= i < |s.body| :: Worded(s.body[i]))
  }

  predicate AllWorded(ss: seq<Stmt>) {
    forall i | 0 <= i < |ss| :: Worded(ss[i])
  }

  function TreeOf(s: Stmt): Tree
    decreases s, 0
  {
    match s
    case Simple(words) => Node(words, [])
    case Block(words, body) => Node(words, TreesOf(body))
  }

  function TreesOf(ss: seq<Stmt>): (r: seq<Tree>)
    ensures |r| == |ss|
    decreases ss, 1
  {
    if ss == [] then [] else TreesOf(ss[..|ss| - 1]) + [TreeOf(ss[|ss| - 1])]
  }

  lemma YieldSnoc(ss: seq<Stmt>, s: Stmt)
    ensures YieldAll(ss + [s]) == YieldAll(ss) + Yield(s) && TreesOf(ss + [s]) == TreesOf(ss) + [TreeOf(s)]
  {
    assert (ss + [s])[..|ss|] == ss;
  }

  lemma {:induction false} YieldConcat(a: seq<Stmt>, b: seq<Stmt>)
    ensures YieldAll(a + b) == YieldAll(a) + YieldAll(b) && TreesOf(a + b) == TreesOf(a) + TreesOf(b)
    decreases |b|
  {
    if b == [] {
      assert a + b == a;
    } else {
      var init, s := b[..|b| - 1], b[|b| - 1];
      assert a + b == (a + init) + [s] && b == init + [s];
      YieldSnoc(a + init, s);
      YieldConcat(a, init);
    }
  }

  // ---- What is derived is accepted ----

  function AddWords(fs: seq<Tree>, words: seq<string>): seq<Tree>
    requires fs != []
  {
    var n := |fs| - 1;
    fs[..n] + [Node(fs[n].words + words, fs[n].kids)]
  }

  lemma AddWordsCons(fs: seq<Tree>, w: string, words: seq<string>)
    requires fs != []
    ensures AddWords(AddWord(fs, w), words) == AddWords(fs, [w] + words)
  {
    var n := |fs| - 1;
    Text.Append(fs[n].words, [w], words);
    assert AddWord(fs, w)[..n] == fs[..n];
  }

  lemma AddNoWords(fs: seq<Tree>)
    requires fs != []
    ensures AddWords(fs, []) == fs
  {
    var n := |fs| - 1;
    assert fs[n].words + [] == fs[n].words;
    assert fs == fs[..n] + [fs[n]];
  }

  lemma {:induction false} RunWords(fs: seq<Tree>, words: seq<string>, rest: seq<Tok>, clean: bool)
    requires |fs| >= 2
    ensures Parse(fs, Normal, WordToks(words) + rest, clean) == Parse(AddWords(fs, words), Normal, rest, clean)
    decreases |words|
  {
    var toks := WordToks(words) + rest;
    if words == [] {
      assert toks == rest;
      AddNoWords(fs);
    } else {
      assert toks[0] == Word(words[0]) && toks[1..] == WordToks(words[1..]) + rest;
      assert words == [words[0]] + words[1..];
      AddWordsCons(fs, words[0], words[1..]);
      RunWords(AddWord(fs, words[0]), words[1..], rest, clean);
    }
  }

  /** Between statements: the automaton may start one. */
  predicate Between(fs: seq<Tree>, last: TokenType) {
    State(fs, last) && fs != [] && last != Normal
  }

  lemma RunHead(fs: seq<Tree>, last: TokenType, words: seq<string>, rest: seq<Tok>, clean: bool)
    requires Between(fs, last) && words != []
    ensures Parse(fs, last, WordToks(words) + rest, clean) == Parse(fs + [Node(words, [])], Normal, rest, clean)
  {
    var toks := WordToks(words) + rest;
    assert toks[1..] == WordToks(words[1..]) + rest;
    var fs' := fs + [Node([words[0]], [])];
    RunWords(fs', words[1..], rest, clean);
    assert fs'[..|fs|] == fs && [words[0]] + words[1..] == words;
  }

  function AddKids(fs: seq<Tree>, kids: seq<Tree>): (r: seq<Tree>)
    requires fs != []
    ensures |r| == |fs|
  {
    var n := |fs| - 1;
    fs[..n] + [Node(fs[n].words, fs[n].kids + kids)]
  }

  lemma AddNoKids(fs: seq<Tree>)
    requires fs != []
    ensures AddKids(fs, []) == fs
  {
    var n := |fs| - 1;
    assert fs[n].kids + [] == fs[n].kids;
    assert fs == fs[..n] + [fs[n]];
  }

  lemma AddKidsTwice(fs: seq<Tree>, a: seq<Tree>, b: seq<Tree>)
    requires fs != []
    ensures AddKids(AddKids(fs, a), b) == AddKids(fs, a + b)
  {
    var n := |fs| - 1;
    assert (fs[n].kids + a) + b == fs[n].kids + (a + b);
  }

  lemma {:induction false} RunStmt(fs: seq<Tree>, last: TokenType, s: Stmt, rest: seq<Tok>, clean: bool)
    requires Between(fs, last) && Worded(s)
    ensures var last' := if s.Simple? then StatementEnd else EndBlock;
            Parse(fs, last, Yield(s) + rest, clean) == Parse(AddKids(fs, [TreeOf(s)]), last', rest, clean)
    decreases s, 0
  {
    var fs' := fs + [Node(s.words, [])];
    match s
    case Simple(words) =>
      assert Yield(s) + rest == WordToks(words) + ([Semicolon] + rest);
      RunHead(fs, last, words, [Semicolon] + rest, clean);
      assert ([Semicolon] + rest)[1..] == rest;
      assert Fold(fs') == AddKids(fs, [TreeOf(s)]);
    case Block(words, body) =>
      var tail := YieldAll(body) + ([CloseBrace] + rest);
      assert Yield(s) + rest == WordToks(words) + ([OpenBrace] + tail);
      RunHead(fs, last, words, [OpenBrace] + tail, clean);
      assert ([OpenBrace] + tail)[1..] == tail;
      var last' := RunStmts(fs', StartBlock, body, [CloseBrace] + rest, clean);
      assert ([CloseBrace] + rest)[1..] == rest;
      assert [] + TreesOf(body) == TreesOf(body);
      assert AddKids(fs', TreesOf(body)) == fs + [TreeOf(s)];
      assert Fold(fs + [TreeOf(s)]) == AddKids(fs, [TreeOf(s)]);
  }

  lemma {:induction false} RunStmts(fs: seq<Tree>, last: TokenType, ss: seq<Stmt>, rest: seq<Tok>, clean: bool)
    returns (last': TokenType)
    requires Between(fs, last) && AllWorded(ss)
    ensures Between(AddKids(fs, TreesOf(ss)), last')
    ensures if ss == [] then last' == last else last' in {StatementEnd, EndBlock}
    ensures Parse(fs, last, YieldAll(ss) + rest, clean) == Parse(AddKids(fs, TreesOf(ss)), last', rest, clean)
    decreases ss, 1
  {
    if ss == [] {
      assert YieldAll(ss) + rest == rest;
      AddNoKids(fs);
      return last;
    }
    var init, s := ss[..|ss| - 1], ss[|ss| - 1];
    LastStmt(ss, rest);
    var mid := RunStmts(fs, last, init, Yield(s) + rest, clean);
    RunNextStmt(fs, mid, TreesOf(init), s, rest, clean);
    last' := if s.Simple? then StatementEnd else EndBlock;
  }

  lemma LastStmt(ss: seq<Stmt>, rest: seq<Tok>)
    requires ss != []
    ensures var init, s := ss[..|ss| - 1], ss[|ss| - 1];
            && YieldAll(ss) + rest == YieldAll(init) + (Yield(s) + rest)
            && TreesOf(ss) == TreesOf(init) + [TreeOf(s)]
  {
    Text.Append(YieldAll(ss[..|ss| - 1]), Yield(ss[|ss| - 1]), rest);
  }

  lemma {:induction false} RunNextStmt(fs: seq<Tree>, last: TokenType, kids: seq<Tree>, s: Stmt, rest: seq<Tok>,
                                       clean: bool)
    requires fs != [] && Between(AddKids(fs, kids), last) && Worded(s)
    ensures var last' := if s.Simple? then StatementEnd else EndBlock;
            && Between(AddKids(fs, kids + [TreeOf(s)]), last')
            && Parse(AddKids(fs, kids), last, Yield(s) + rest, clean) ==
               Parse(AddKids(fs, kids + [TreeOf(s)]), last', rest, clean)
    decreases s, 1
  {
    var mid, all := AddKids(fs, kids), kids + [TreeOf(s)];
    RunStmt(mid, last, s, rest, clean);
    NextBetween(fs, kids, TreeOf(s), mid, all, if s.Simple? then StatementEnd else EndBlock);
  }

  lemma NextBetween(fs: seq<Tree>, kids: seq<Tree>, t: Tree, mid: seq<Tree>, all: seq<Tree>, last: TokenType)
    requires fs != [] && mid == AddKids(fs, kids) && all == kids + [t] && last in {StatementEnd, EndBlock}
    ensures AddKids(mid, [t]) == AddKids(fs, all) && Between(AddKids(fs, all), last)
  {
    AddKidsTwice(fs, kids, [t]);
  }

  // ---- What is accepted is derived ----

  /** One open block: the statements read in it so far, and the words that open it. */
  datatype Level = Level(words: seq<string>, done: seq<Stmt>)

  function Frame(root: Tree, l: Level, i: nat): Tree {
    if i == 0 then Node(root.words, root.kids + TreesOf(l.done)) else Node(l.words, TreesOf(l.done))
  }

  function FramesOf(root: Tree, ls: seq<Level>): (fs: seq<Tree>)
    ensures |fs| == |ls|
  {
    seq(|ls|, i requires 0 <= i < |ls| => Frame(root, ls[i], i))
  }

  /** The tokens that open level `i`, without the brace if its block is not open yet. */
  function Head(words: seq<string>, i: nat, headOnly: bool): seq<Tok> {
    if i == 0 then [] else if headOnly then WordToks(words) else WordToks(words) + [OpenBrace]
  }

  /** The tokens read so far; `headOnly` if the last level is a statement whose block is not open. */
  function Consumed(ls: seq<Level>, headOnly: bool): seq<Tok> {
    if ls == [] then []
    else
      var n := |ls| - 1;
      Consumed(ls[..n], false) + Head(ls[n].words, n, headOnly) + YieldAll(ls[n].done)
  }

  predicate LevelsOk(ls: seq<Level>, last: TokenType) {
    && ls != []
    && (forall i | 0 <= i < |ls| :: AllWorded(ls[i].done) && (i > 0 ==> ls[i].words != []))
    && (last == Normal ==> |ls| >= 2 && ls[|ls| - 1].done == [])
    && (last in {StatementEnd, EndBlock} ==> ls[|ls| - 1].done != [])
  }

  lemma ConsumedTop(ls: seq<Level>, l: Level, headOnly: bool)
    ensures Consumed(ls + [l], headOnly) == Consumed(ls, false) + Head(l.words, |ls|, headOnly) + YieldAll(l.done)
  {
    assert (ls + [l])[..|ls|] == ls;
  }

  lemma Regroup<T>(a: seq<T>, w: seq<T>, b: seq<T>, c: seq<T>)
    ensures a + (w + b + c) == (a + w + b) + c
  {
  }

  lemma ConsumedMore(ls: seq<Level>, l: Level, s: Stmt)
    ensures Consumed(ls + [Level(l.words, l.done + [s])], false) == Consumed(ls + [l], false) + Yield(s)
  {
    var a, w, b, c := Consumed(ls, false), Head(l.words, |ls|, false), YieldAll(l.done), Yield(s);
    assert Consumed(ls + [Level(l.words, l.done + [s])], false) == a + w + (b + c) by {
      ConsumedTop(ls, Level(l.words, l.done + [s]), false);
      YieldSnoc(l.done, s);
    }
    assert Consumed(ls + [l], false) == a + w + b by {
      ConsumedTop(ls, l, false);
    }
    Text.Append(a + w, b, c);
  }

  lemma ConsumedOne(ls: seq<Level>)
    requires |ls| == 1
    ensures Consumed(ls, false) == YieldAll(ls[0].done)
  {
    assert ls == [] + [ls[0]];
    ConsumedTop([], ls[0], false);
  }

  lemma WordToksSnoc(words: seq<string>, w: string)
    ensures WordToks(words + [w]) == WordToks(words) + [Word(w)]
  {
  }

  /** Closing the statement on top, as a simple statement or as a block. */
  function CloseTop(ls: seq<Level>, s: Stmt): seq<Level>
    requires |ls| >= 2
  {
    var n := |ls| - 2;
    ls[..n] + [Level(ls[n].words, ls[n].done + [s])]
  }

  lemma ClosedFrame(root: Tree, l: Level, i: nat, s: Stmt)
    ensures Frame(root, Level(l.words, l.done + [s]), i) ==
            Node(Frame(root, l, i).words, Frame(root, l, i).kids + [TreeOf(s)])
  {
    YieldSnoc(l.done, s);
    assert root.kids + (TreesOf(l.done) + [TreeOf(s)]) == (root.kids + TreesOf(l.done)) + [TreeOf(s)];
  }

  lemma ClosedFrames(root: Tree, ls: seq<Level>, s: Stmt)
    requires |ls| >= 2 && TreeOf(s) == Node(ls[|ls| - 1].words, TreesOf(ls[|ls| - 1].done))
    ensures FramesOf(root, CloseTop(ls, s)) == Fold(FramesOf(root, ls))
  {
    ClosedFrame(root, ls[|ls| - 2], |ls| - 2, s);
  }

  lemma ClosedConsumed(ls: seq<Level>, s: Stmt)
    requires |ls| >= 2
    ensures Consumed(CloseTop(ls, s), false) == Consumed(ls[..|ls| - 1], false) + Yield(s)
  {
    var n := |ls| - 2;
    assert ls[..n + 1] == ls[..n] + [ls[n]];
    ConsumedMore(ls[..n], ls[n], s);
  }

  lemma SimpleConsumed(ls: seq<Level>)
    requires |ls| >= 2 && ls[|ls| - 1].done == []
    ensures Consumed(ls[..|ls| - 1], false) + Yield(Simple(ls[|ls| - 1].words)) == Consumed(ls, true) + [Semicolon]
  {
    var n := |ls| - 1;
    assert ls == ls[..n] + [ls[n]];
    ConsumedTop(ls[..n], ls[n], true);
  }

  lemma BlockYield(a: seq<Tok>, words: seq<string>, done: seq<Stmt>)
    ensures a + Yield(Block(words, done)) == a + (WordToks(words) + [OpenBrace]) + YieldAll(done) + [CloseBrace]
  {
    Regroup(a, WordToks(words) + [OpenBrace], YieldAll(done), [CloseBrace]);
  }

  lemma BlockConsumedAt(init: seq<Level>, top: Level)
    requires init != []
    ensures Consumed(init, false) + Yield(Block(top.words, top.done)) == Consumed(init + [top], false) + [CloseBrace]
  {
    ConsumedTop(init, top, false);
    BlockYield(Consumed(init, false), top.words, top.done);
  }

  lemma LastLevel(ls: seq<Level>)
    requires ls != []
    ensures ls == ls[..|ls| - 1] + [ls[|ls| - 1]]
  {
  }

  lemma BlockConsumed(ls: seq<Level>, init: seq<Level>, top: Level)
    requires init != [] && ls == init + [top]
    ensures Consumed(init, false) + Yield(Block(top.words, top.done)) == Consumed(ls, false) + [CloseBrace]
  {
    BlockConsumedAt(init, top);
  }

  /** Where a run leads: to acceptance with a derivation, or to the use of an empty stack. */
  ghost predicate Explains(root: Tree, all: seq<Tok>, o: Outcome, ss: seq<Stmt>) {
    AllWorded(ss) &&
    match o
    case Accept(t) => all == YieldAll(ss) && t == Node(root.words, root.kids + TreesOf(ss))
    case Undefined => Underflows(all, ss)
    case Reject => true
  }

  /** The statements are followed by one `}` too many, and then by a word or another `}`. */
  predicate Underflows(all: seq<Tok>, ss: seq<Stmt>) {
    var head := YieldAll(ss) + [CloseBrace];
    ss != [] && head < all && (all[|head|].Word? || all[|head|].CloseBrace?)
  }

  /** The automaton's state after `pre` is the one described by the levels. */
  ghost predicate Describes(root: Tree, ls: seq<Level>, last: TokenType, pre: seq<Tok>) {
    LevelsOk(ls, last) && State(FramesOf(root, ls), last) && pre == Consumed(ls, last == Normal)
  }

  lemma StepNewWord(root: Tree, ls: seq<Level>, last: TokenType, pre: seq<Tok>, w: string)
    requires Describes(root, ls, last, pre) && last != Normal
    ensures var ls' := ls + [Level([w], [])];
            && Describes(root, ls', Normal, pre + [Word(w)])
            && FramesOf(root, ls') == FramesOf(root, ls) + [Node([w], [])]
  {
    ConsumedHead(ls, [w]);
    assert WordToks([w]) == [Word(w)];
    assert TreesOf([]) == [];
  }

  function NextWord(ls: seq<Level>, w: string): (r: seq<Level>)
    requires ls != []
    ensures |r| == |ls|
  {
    var n := |ls| - 1;
    ls[..n] + [Level(ls[n].words + [w], [])]
  }

  lemma NextWordFrames(root: Tree, ls: seq<Level>, w: string)
    requires |ls| >= 2 && ls[|ls| - 1].done == []
    ensures FramesOf(root, NextWord(ls, w)) == AddWord(FramesOf(root, ls), w)
  {
    var n := |ls| - 1;
    assert NextWord(ls, w)[n] == Level(ls[n].words + [w], []);
    assert FramesOf(root, ls)[n] == Node(ls[n].words, []);
  }

  /** A statement whose block is not open has read its words and nothing else. */
  lemma ConsumedHead(ls: seq<Level>, words: seq<string>)
    requires ls != []
    ensures Consumed(ls + [Level(words, [])], true) == Consumed(ls, false) + WordToks(words)
  {
    ConsumedTop(ls, Level(words, []), true);
    var all := Consumed(ls, false) + WordToks(words);
    assert all + YieldAll([]) == all;
  }

  lemma NextWordConsumed(init: seq<Level>, words: seq<string>, w: string)
    requires init != []
    ensures Consumed(init + [Level(words + [w], [])], true) == Consumed(init + [Level(words, [])], true) + [Word(w)]
  {
    ConsumedHead(init, words);
    ConsumedHead(init, words + [w]);
    WordToksSnoc(words, w);
    Text.Append(Consumed(init, false), WordToks(words), [Word(w)]);
  }

  lemma TopLevel(ls: seq<Level>)
    requires ls != [] && ls[|ls| - 1].done == []
    ensures ls == ls[..|ls| - 1] + [Level(ls[|ls| - 1].words, [])]
  {
  }

  lemma StepNextWord(root: Tree, ls: seq<Level>, pre: seq<Tok>, w: string)
    requires Describes(root, ls, Normal, pre)
    ensures Describes(root, NextWord(ls, w), Normal, pre + [Word(w)])
    ensures FramesOf(root, NextWord(ls, w)) == AddWord(FramesOf(root, ls), w)
  {
    NextWordFrames(root, ls, w);
    TopLevel(ls);
    NextWordConsumed(ls[..|ls| - 1], ls[|ls| - 1].words, w);
  }

  lemma StepOpen(root: Tree, ls: seq<Level>, pre: seq<Tok>)
    requires Describes(root, ls, Normal, pre)
    ensures Describes(root, ls, StartBlock, pre + [OpenBrace])
  {
    OpenConsumed(ls);
  }

  lemma OpenConsumed(ls: seq<Level>)
    requires |ls| >= 2 && ls[|ls| - 1].done == []
    ensures Consumed(ls, false) == Consumed(ls, true) + [OpenBrace]
  {
    var n := |ls| - 1;
    var init, words := ls[..n], ls[n].words;
    assert ls == init + [Level(words, [])];
    ConsumedHead(init, words);
    ConsumedTop(init, Level(words, []), false);
    Text.Append(Consumed(init, false), WordToks(words), [OpenBrace]);
    var all := Consumed(init, false) + (WordToks(words) + [OpenBrace]);
    assert all + YieldAll([]) == all;
  }

  lemma ClosedLevels(ls: seq<Level>, last: TokenType, s: Stmt, last': TokenType)
    requires LevelsOk(ls, last) && |ls| >= 2 && Worded(s) && last' in {StatementEnd, EndBlock}
    ensures LevelsOk(CloseTop(ls, s), last')
  {
    var n, r := |ls| - 2, CloseTop(ls, s);
    assert AllWorded(r[n].done) by {
      var done := ls[n].done;
      assert forall i | 0 <= i < |done| :: Worded(done[i]);
    }
    assert forall i | 0 <= i < n :: r[i] == ls[i];
  }

  lemma StepSemicolon(root: Tree, ls: seq<Level>, pre: seq<Tok>)
    requires Describes(root, ls, Normal, pre)
    ensures var s := Simple(ls[|ls| - 1].words);
            && Describes(root, CloseTop(ls, s), StatementEnd, pre + [Semicolon])
            && FramesOf(root, CloseTop(ls, s)) == Fold(FramesOf(root, ls))
  {
    var s := Simple(ls[|ls| - 1].words);
    ClosedFrames(root, ls, s);
    ClosedConsumed(ls, s);
    SimpleConsumed(ls);
    ClosedLevels(ls, Normal, s, StatementEnd);
  }

  lemma StepClose(root: Tree, ls: seq<Level>, last: TokenType, pre: seq<Tok>)
    requires Describes(root, ls, last, pre) && |ls| >= 2 && last != Normal
    ensures var s := Block(ls[|ls| - 1].words, ls[|ls| - 1].done);
            && Describes(root, CloseTop(ls, s), EndBlock, pre + [CloseBrace])
            && FramesOf(root, CloseTop(ls, s)) == Fold(FramesOf(root, ls))
  {
    var s := Block(ls[|ls| - 1].words, ls[|ls| - 1].done);
    ClosedFrames(root, ls, s);
    ClosedConsumed(ls, s);
    LastLevel(ls);
    BlockConsumed(ls, ls[..|ls| - 1], ls[|ls| - 1]);
    assert AllWorded(ls[|ls| - 1].done);
    ClosedLevels(ls, last, s, EndBlock);
  }

  /** The levels after a token that the automaton goes on from. */
  function NextLevels(ls: seq<Level>, last: TokenType, tok: Tok): seq<Level>
    requires |ls| >= 1 && (|ls| == 1 ==> last != Normal && !tok.CloseBrace?)
  {
    var n := |ls| - 1;
    match tok
    case Word(w) => if last == Normal then NextWord(ls, w) else ls + [Level([w], [])]
    case Semicolon => if n > 0 then CloseTop(ls, Simple(ls[n].words)) else ls
    case OpenBrace => ls
    case CloseBrace => CloseTop(ls, Block(ls[n].words, ls[n].done))
  }

  lemma StepDescribes(root: Tree, ls: seq<Level>, last: TokenType, pre: seq<Tok>, tok: Tok)
    requires Describes(root, ls, last, pre) && (|ls| == 1 ==> !tok.CloseBrace?)
    requires Advance(FramesOf(root, ls), last, tok).Go?
    ensures var r := Advance(FramesOf(root, ls), last, tok);
            && Describes(root, NextLevels(ls, last, tok), r.last, pre + [tok])
            && r.fs == FramesOf(root, NextLevels(ls, last, tok))
  {
    match tok
    case Word(w) =>
      if last == Normal {
        StepNextWord(root, ls, pre, w);
      } else {
        StepNewWord(root, ls, last, pre, w);
      }
    case Semicolon => StepSemicolon(root, ls, pre);
    case OpenBrace => StepOpen(root, ls, pre);
    case CloseBrace => StepClose(root, ls, last, pre);
  }

  lemma EndExplained(root: Tree, ls: seq<Level>, last: TokenType, pre: seq<Tok>, clean: bool) returns (ss: seq<Stmt>)
    requires Describes(root, ls, last, pre)
    ensures Explains(root, pre, Parse(FramesOf(root, ls), last, [], clean), ss)
  {
    if |ls| == 1 {
      ConsumedOne(ls);
      return ls[0].done;
    }
    return [];
  }

  /** One `}` more than there are blocks. */
  lemma ExtraClose(root: Tree, ls: seq<Level>, last: TokenType, pre: seq<Tok>, toks: seq<Tok>, clean: bool)
    requires Describes(root, ls, last, pre) && |ls| == 1 && toks != [] && toks[0] == CloseBrace
    requires Advance(FramesOf(root, ls), last, CloseBrace).Go?
    ensures Explains(root, pre + toks, Parse(FramesOf(root, ls), last, toks, clean), ls[0].done)
  {
    ConsumedOne(ls);
    var rest := toks[1..];
    assert pre + toks == (pre + [CloseBrace]) + rest;
    OneTooMany(FramesOf(root, ls), pre, rest, clean, ls[0].done);
  }

  lemma {:induction false} RunExplained(root: Tree, ls: seq<Level>, last: TokenType, pre: seq<Tok>, toks: seq<Tok>,
                                        clean: bool)
    returns (ss: seq<Stmt>)
    requires Describes(root, ls, last, pre)
    ensures Explains(root, pre + toks, Parse(FramesOf(root, ls), last, toks, clean), ss)
    decreases |toks|
  {
    if toks == [] {
      assert pre + toks == pre;
      ss := EndExplained(root, ls, last, pre, clean);
      return;
    }
    var tok, rest := toks[0], toks[1..];
    var r := Advance(FramesOf(root, ls), last, tok);
    if r.Stop? {
      return [];
    }
    if |ls| == 1 && tok.CloseBrace? {
      ExtraClose(root, ls, last, pre, toks, clean);
      return ls[0].done;
    }
    StepDescribes(root, ls, last, pre, tok);
    ParseStep(FramesOf(root, ls), last, toks, clean);
    Shifted(pre, toks);
    ss := RunExplained(root, NextLevels(ls, last, tok), r.last, pre + [tok], rest, clean);
  }

  lemma ParseStep(fs: seq<Tree>, last: TokenType, toks: seq<Tok>, clean: bool)
    requires State(fs, last) && toks != []
    ensures var r := Advance(fs, last, toks[0]);
            r.Go? ==> Parse(fs, last, toks, clean) == Parse(r.fs, r.last, toks[1..], clean)
  {
  }

  lemma Shifted(pre: seq<Tok>, toks: seq<Tok>)
    requires toks != []
    ensures (pre + [toks[0]]) + toks[1..] == pre + toks
  {
  }

  /** After the `}` that empties the stack nothing is accepted. */
  lemma OneTooMany(fs: seq<Tree>, pre: seq<Tok>, rest: seq<Tok>, clean: bool, ss: seq<Stmt>)
    requires pre == YieldAll(ss) && ss != [] && AllWorded(ss)
    ensures !Parse([], EndBlock, rest, clean).Accept?
    ensures Parse([], EndBlock, rest, clean).Undefined? ==> Underflows((pre + [CloseBrace]) + rest, ss)
  {
  }

  // ---- Main results ----

  function ParseTokens(root: Tree, toks: seq<Tok>, clean: bool): Outcome {
    Parse([root], Start, toks, clean)
  }

  /**
   The parser accepts exactly the token sequences of the grammar, if the text ends outside quotes, and
   builds the tree of the derivation behind what the root already held.
   */
  lemma AcceptsExactly(root: Tree, toks: seq<Tok>, clean: bool, t: Tree)
    ensures ParseTokens(root, toks, clean) == Accept(t) <==>
            clean && exists ss :: AllWorded(ss) && toks == YieldAll(ss) && t == Node(root.words, root.kids + TreesOf(ss))
  {
    if ParseTokens(root, toks, clean) == Accept(t) {
      var ss := StartExplained(root, toks, clean);
      AcceptIsClean([root], Start, toks, clean);
    }
    if ss :| clean && AllWorded(ss) && toks == YieldAll(ss) && t == Node(root.words, root.kids + TreesOf(ss)) {
      var last := RunStmts([root], Start, ss, [], clean);
      assert toks + [] == toks;
      assert AddKids([root], TreesOf(ss)) == [t];
    }
  }

  lemma StartExplained(root: Tree, toks: seq<Tok>, clean: bool) returns (ss: seq<Stmt>)
    ensures Explains(root, toks, ParseTokens(root, toks, clean), ss)
  {
    var ls := [Level([], [])];
    assert FramesOf(root, ls) == [root] by {
      assert root.kids + TreesOf([]) == root.kids;
    }
    ConsumedOne(ls);
    ss := RunExplained(root, ls, Start, [], toks, clean);
    assert [] + toks == toks;
  }

  lemma {:induction false} AcceptIsClean(fs: seq<Tree>, last: TokenType, toks: seq<Tok>, clean: bool)
    requires State(fs, last) && Parse(fs, last, toks, clean).Accept?
    ensures clean
    decreases |toks|
  {
    if toks != [] {
      var rest := toks[1..];
      match toks[0]
      case Word(w) =>
        AcceptIsClean(if last == Normal then AddWord(fs, w) else fs + [Node([w], [])], Normal, rest, clean);
      case Semicolon =>
        AcceptIsClean(Fold(fs), StatementEnd, rest, clean);
      case OpenBrace =>
        AcceptIsClean(fs, StartBlock, rest, clean);
      case CloseBrace =>
        AcceptIsClean(if |fs| == 1 then [] else Fold(fs), EndBlock, rest, clean);
    }
  }

  /** The empty stack is used exactly after statements, one `}` too many, and then a word or another `}`. */
  lemma UndefinedExactly(root: Tree, toks: seq<Tok>, clean: bool)
    ensures ParseTokens(root, toks, clean) == Undefined <==> exists ss :: AllWorded(ss) && Underflows(toks, ss)
  {
    if ParseTokens(root, toks, clean) == Undefined {
      var ss := StartExplained(root, toks, clean);
    }
    if ss :| AllWorded(ss) && Underflows(toks, ss) {
      var head := YieldAll(ss) + [CloseBrace];
      var rest := toks[|head|..];
      assert toks == YieldAll(ss) + ([CloseBrace] + rest);
      var last := RunStmts([root], Start, ss, [CloseBrace] + rest, clean);
      assert ([CloseBrace] + rest)[1..] == rest;
      assert rest[0] == toks[|head|];
    }
  }

  /** Every statement of an accepted text has a word, at every depth. */
  predicate WordedTree(t: Tree) {
    forall i | 0 <= i < |t.kids| :: t.kids[i].words != [] && WordedTree(t.kids[i])
  }

  lemma {:induction false} TreeWorded(s: Stmt)
    requires Worded(s)
    ensures TreeOf(s).words != [] && WordedTree(TreeOf(s))
    decreases s, 0
  {
    if s.Block? {
      TreesWorded(s.body);
    }
  }

  lemma {:induction false} TreesWorded(ss: seq<Stmt>)
    requires AllWorded(ss)
    ensures forall i | 0 <= i < |ss| :: TreesOf(ss)[i].words != [] && WordedTree(TreesOf(ss)[i])
    decreases ss, 1
  {
    if ss != [] {
      TreesWorded(ss[..|ss| - 1]);
      TreeWorded(ss[|ss| - 1]);
    }
  }

  lemma AcceptedIsWorded(root: Tree, toks: seq<Tok>, clean: bool)
    requires WordedTree(root) && ParseTokens(root, toks, clean).Accept?
    ensures WordedTree(ParseTokens(root, toks, clean).tree)
  {
    var t := ParseTokens(root, toks, clean).tree;
    AcceptsExactly(root, toks, clean, t);
    var ss :| AllWorded(ss) && toks == YieldAll(ss) && t == Node(root.words, root.kids + TreesOf(ss));
    TreesWorded(ss);
  }
}
