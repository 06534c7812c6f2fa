/**
 The config parser on objects: a stack of nodes into a tree that grows in place.
 */
module ConfigParser {
  import opened Streams
  import opened ConfigLexer
  import opened ConfigGrammar

  class NginxConfig {
    var children: seq<NginxConfig>
    var tokens: seq<string>
    /** The tree below this node, once the node is complete. */
    ghost var model: Tree

    constructor ()
      ensures children == [] && tokens == []
    {
      children, tokens := [], [];
    }
  }

  /** The first children of `c` are the nodes of `s` that stand for `kids`. */
  ghost predicate Holds(c: NginxConfig, kids: seq<Tree>, s: set<NginxConfig>)
    reads c, s
  {
    |kids| <= |c.children| && forall k | 0 <= k < |kids| :: c.children[k] in s && c.children[k].model == kids[k]
  }

  /** The model of `c` is what its tokens and children say. */
  ghost predicate Complete(c: NginxConfig, s: set<NginxConfig>)
    reads c, s
  {
    c.model.words == c.tokens && |c.model.kids| == |c.children| && Holds(c, c.model.kids, s)
  }

  ghost predicate Closed(s: set<NginxConfig>)
    reads s
  {
    forall c | c in s :: Complete(c, s)
  }

  /** `c` is under construction as `f`; unless it is the innermost node, its last child is `next`. */
  ghost predicate Open(c: NginxConfig, f: Tree, next: NginxConfig?, s: set<NginxConfig>)
    reads c, s
  {
    && c !in s && f.words == c.tokens && Holds(c, f.kids, s)
    && if next == null then |c.children| == |f.kids|
       else |c.children| == |f.kids| + 1 && c.children[|f.kids|] == next
  }

  ghost function Next(chain: seq<NginxConfig>, i: nat): NginxConfig? {
    if i + 1 < |chain| then chain[i + 1] else null
  }

  /** The rightmost path of the tree, outermost node first, as the frames of the automaton. */
  ghost predicate Chain(chain: seq<NginxConfig>, fs: seq<Tree>, s: set<NginxConfig>)
    reads chain, s
  {
    && |chain| == |fs|
    && (forall i, j | 0 <= i < j < |chain| :: chain[i] != chain[j])
    && forall i | 0 <= i < |chain| :: Open(chain[i], fs[i], Next(chain, i), s)
  }

  /** A chain is extended once its innermost node points to the new one. */
  lemma Extend(chain: seq<NginxConfig>, fs: seq<Tree>, s: set<NginxConfig>, n: NginxConfig)
    requires chain != [] && |chain| == |fs| && n !in chain
    requires forall i, j | 0 <= i < j < |chain| :: chain[i] != chain[j]
    requires forall i | 0 <= i < |chain| - 1 :: Open(chain[i], fs[i], chain[i + 1], s)
    requires Open(chain[|chain| - 1], fs[|chain| - 1], n, s) && Open(n, Node([], []), null, s)
    ensures Chain(chain + [n], fs + [Node([], [])], s)
  {
    var chain', fs' := chain + [n], fs + [Node([], [])];
    forall i | 0 <= i < |chain'| ensures Open(chain'[i], fs'[i], Next(chain', i), s) {
      if i < |chain| - 1 {
        assert Next(chain', i) == chain[i + 1];
      }
    }
  }

  /** A new, empty last child for the innermost node. */
  method AddChild(top: NginxConfig, ghost chain: seq<NginxConfig>, ghost fs: seq<Tree>, ghost s: set<NginxConfig>)
    returns (n: NginxConfig)
    requires chain != [] && chain[|chain| - 1] == top && Chain(chain, fs, s) && Closed(s)
    modifies top`children
    ensures fresh(n) && top.children == old(top.children) + [n] && Closed(s)
    ensures Chain(chain + [n], fs + [Node([], [])], s)
  {
    n := new NginxConfig();
    forall i | 0 <= i < |chain| - 1 ensures Open(chain[i], fs[i], chain[i + 1], s) {
      assert Next(chain, i) == chain[i + 1];
    }
    LinkChild(top, n, fs[|fs| - 1], s);
    Extend(chain, fs, s, n);
  }

  method LinkChild(top: NginxConfig, n: NginxConfig, ghost f: Tree, ghost s: set<NginxConfig>)
    requires Open(top, f, null, s) && Closed(s)
    modifies top`children
    ensures Open(top, f, n, s) && Closed(s) && top.children == old(top.children) + [n]
  {
    top.children := top.children + [n];
  }

  method AddToken(n: NginxConfig, w: string, ghost chain: seq<NginxConfig>, ghost fs: seq<Tree>,
                  ghost s: set<NginxConfig>)
    requires chain != [] && chain[|chain| - 1] == n && Chain(chain, fs, s) && Closed(s)
    modifies n`tokens
    ensures Closed(s) && Chain(chain, AddWord(fs, w), s)
  {
    n.tokens := n.tokens + [w];
  }

  /** The innermost node is complete: its model is recorded. */
  ghost method Finish(n: NginxConfig, chain: seq<NginxConfig>, fs: seq<Tree>, s: set<NginxConfig>)
    requires |chain| >= 2 && chain[|chain| - 1] == n && Chain(chain, fs, s) && Closed(s)
    modifies n`model
    ensures Closed(s + {n}) && Chain(chain[..|chain| - 1], Fold(fs), s + {n})
  {
    n.model := fs[|fs| - 1];
  }

  /**
   The tree being built: the rightmost path with what each of its nodes holds so far, and the complete nodes,
   those from before and those made since.
   */
  datatype Build = Build(chain: seq<NginxConfig>, fs: seq<Tree>, done: set<NginxConfig>,
                         before: set<NginxConfig>, made: set<NginxConfig>)

  /**
   The stack holds the chain, without the statement whose words are being read; the counter is the number of
   open blocks, and -1 once a `}` too many has emptied the stack.
   */
  ghost predicate Running(stack: seq<NginxConfig>, last: TokenType, depth: int, b: Build)
    reads b.chain, b.done
  {
    && State(b.fs, last) && Chain(b.chain, b.fs, b.done) && Closed(b.done)
    && |stack| == depth + 1 && |b.chain| == (if last == Normal then depth + 2 else depth + 1)
    && stack == b.chain[..|stack|]
  }

  /** Below the root the chain is new; everything complete is new or was there before. */
  ghost predicate Within(config: NginxConfig, b: Build) {
    && (b.chain != [] ==> b.chain[0] == config)
    && (forall i | 0 < i < |b.chain| :: b.chain[i] in b.made)
    && b.before <= b.done <= b.before + b.made && config !in b.done
  }

  /** A word in a block starts a statement: a new, still empty child. */
  method StartStatement(stack: seq<NginxConfig>, ghost last: TokenType, ghost depth: int, ghost b: Build)
    returns (ghost b': Build)
    requires Running(stack, last, depth, b) && b.fs != [] && last != Normal
    modifies b.chain[|b.chain| - 1]
    ensures b' == b.(chain := b'.chain, fs := b.fs + [Node([], [])]) && Running(stack, Normal, depth, b')
    ensures |b'.chain| == |b.chain| + 1 && b.chain <= b'.chain && fresh(b'.chain[|b.chain|])
  {
    var n := AddChild(stack[|stack| - 1], b.chain, b.fs, b.done);
    b' := b.(chain := b.chain + [n], fs := b.fs + [Node([], [])]);
  }

  /** The word is added to the last child of the innermost block. */
  method AppendWord(stack: seq<NginxConfig>, w: string, ghost depth: int, ghost b: Build)
    requires Running(stack, Normal, depth, b)
    modifies b.chain[|b.chain| - 1]
    ensures Running(stack, Normal, depth, b.(fs := AddWord(b.fs, w)))
  {
    var top := stack[|stack| - 1];
    LastChild(top, b.chain, b.fs, b.done, |stack| - 1);
    AddToken(top.children[|top.children| - 1], w, b.chain, b.fs, b.done);
  }

  lemma LastChild(top: NginxConfig, chain: seq<NginxConfig>, fs: seq<Tree>, s: set<NginxConfig>, i: nat)
    requires Chain(chain, fs, s) && i + 2 == |chain| && chain[i] == top
    ensures top.children != [] && top.children[|top.children| - 1] == chain[i + 1]
  {
    assert Open(chain[i], fs[i], Next(chain, i), s);
  }

  /** The build with its innermost node complete. */
  ghost function Completed(b: Build): Build
    requires |b.chain| == |b.fs| >= 2
  {
    var n := |b.chain| - 1;
    b.(chain := b.chain[..n], fs := Fold(b.fs), done := b.done + {b.chain[n]})
  }

  /** A `;` completes the statement being read. */
  ghost method TakeStatementEnd(stack: seq<NginxConfig>, depth: int, b: Build)
    requires Running(stack, Normal, depth, b)
    modifies b.chain[|b.chain| - 1]
    ensures Running(stack, StatementEnd, depth, Completed(b))
  {
    Finish(b.chain[|b.chain| - 1], b.chain, b.fs, b.done);
  }

  /** A `{` opens the block of the statement being read. */
  method TakeStartBlock(stack: seq<NginxConfig>, depth: int, ghost b: Build)
    returns (stack': seq<NginxConfig>, depth': int)
    requires Running(stack, Normal, depth, b)
    ensures depth' == depth + 1 && Running(stack', StartBlock, depth', b)
  {
    depth' := depth + 1;
    var top := stack[|stack| - 1];
    LastChild(top, b.chain, b.fs, b.done, |stack| - 1);
    stack' := stack + [top.children[|top.children| - 1]];
  }

  /** A `}` completes the innermost block, or empties the stack. */
  method TakeEndBlock(stack: seq<NginxConfig>, ghost last: TokenType, depth: int, ghost b: Build)
    returns (stack': seq<NginxConfig>, depth': int, ghost b': Build)
    requires Running(stack, last, depth, b) && last != Normal && b.fs != []
    modifies b.chain[|b.chain| - 1]
    ensures b' == if |b.fs| == 1 then b.(chain := [], fs := []) else Completed(b)
    ensures depth' == depth - 1 && Running(stack', EndBlock, depth', b')
  {
    stack', depth', b' := stack[..|stack| - 1], depth - 1, b.(chain := [], fs := []);
    if |b.fs| > 1 {
      Finish(b.chain[|b.chain| - 1], b.chain, b.fs, b.done);
      b' := Completed(b);
    }
  }

  function TokOf(kind: TokenType, token: string): Tok
    requires kind in {Normal, StatementEnd, StartBlock, EndBlock}
  {
    if kind == Normal then Word(token)
    else if kind == StatementEnd then Semicolon
    else if kind == StartBlock then OpenBrace
    else CloseBrace
  }

  /** What a token may do to the chain and the complete nodes. */
  ghost predicate Moved(b: Build, b': Build) {
    && b' == b.(chain := b'.chain, fs := b'.fs, done := b'.done)
    && (b'.chain <= b.chain || (b.chain != [] && |b'.chain| == |b.chain| + 1 && b.chain <= b'.chain))
    && (b'.done == b.done || (|b.chain| >= 2 && b'.done == b.done + {b.chain[|b.chain| - 1]}))
  }

  /** One turn of the parser for a token that is not a comment or the end; `good` if it is allowed here. */
  method TakeToken(kind: TokenType, token: string, stack: seq<NginxConfig>, last: TokenType, depth: int, ghost b: Build)
    returns (good: bool, stack': seq<NginxConfig>, depth': int, ghost b': Build)
    requires kind in {Normal, StatementEnd, StartBlock, EndBlock} && Running(stack, last, depth, b)
    requires Advance(b.fs, last, TokOf(kind, token)) != Stop(Undefined)
    modifies if b.chain == [] then {} else {b.chain[|b.chain| - 1]}
    ensures good == Advance(b.fs, last, TokOf(kind, token)).Go?
    ensures good ==> Advance(b.fs, last, TokOf(kind, token)) == Go(b'.fs, kind) && Running(stack', kind, depth', b')
    ensures good ==> depth' == depth + (if kind == StartBlock then 1 else if kind == EndBlock then -1 else 0)
    ensures good ==> Moved(b, b') && (|b'.chain| > |b.chain| ==> fresh(b'.chain[|b.chain|]))
  {
    good, stack', depth', b' := true, stack, depth, b;
    if kind == Normal {
      if last != Normal {
        assert [] + [token] == [token];
        b' := StartStatement(stack, last, depth, b);
      }
      AppendWord(stack, token, depth, b');
      b' := b'.(fs := AddWord(b'.fs, token));
    } else if kind == StatementEnd {
      good := last == Normal;
      if good {
        TakeStatementEnd(stack, depth, b);
        b' := Completed(b);
      }
    } else if kind == StartBlock {
      good := last == Normal;
      if good {
        stack', depth' := TakeStartBlock(stack, depth, b);
      }
    } else {
      good := last == StatementEnd || last == EndBlock || last == StartBlock;
      if good {
        stack', depth', b' := TakeEndBlock(stack, last, depth, b);
      }
    }
  }

  ghost function ParseText(fs: seq<Tree>, last: TokenType, text: string): Outcome
    requires State(fs, last)
  {
    var s := TokenStream(text);
    Parse(fs, last, s.toks, s.clean)
  }

  ghost function AfterToken(fs: seq<Tree>, last: TokenType, tok: Tok, rest: string): Outcome
    requires State(fs, last)
  {
    match Advance(fs, last, tok)
    case Stop(o) => o
    case Go(fs', last') => ParseText(fs', last', rest)
  }

  lemma ParseOneToken(fs: seq<Tree>, last: TokenType, text: string)
    requires State(fs, last)
    requires Lex(InitialWhitespace, "", text).kind in {Normal, StatementEnd, StartBlock, EndBlock}
    ensures var r := Lex(InitialWhitespace, "", text);
            ParseText(fs, last, text) == AfterToken(fs, last, TokOf(r.kind, r.value), r.rest)
  {
    LexProgress(InitialWhitespace, "", text);
    var r := Lex(InitialWhitespace, "", text);
    var s, s' := TokenStream(text), TokenStream(r.rest);
    assert s.toks == [TokOf(r.kind, r.value)] + s'.toks;
    assert s.toks[1..] == s'.toks;
  }

  lemma WithinStep(config: NginxConfig, b: Build, b': Build, made': set<NginxConfig>)
    requires Within(config, b) && Moved(b, b') && b.made <= made'
    requires |b'.chain| > |b.chain| ==> b'.chain[|b.chain|] in made'
    requires forall i, j | 0 <= i < j < |b.chain| :: b.chain[i] != b.chain[j]
    ensures Within(config, b'.(made := made'))
  {
  }

  method Turn(kind: TokenType, token: string, stack: seq<NginxConfig>, last: TokenType, depth: int,
              ghost config: NginxConfig, ghost b: Build)
    returns (good: bool, stack': seq<NginxConfig>, depth': int, ghost b': Build)
    requires kind in {Normal, StatementEnd, StartBlock, EndBlock} && Running(stack, last, depth, b)
    requires Advance(b.fs, last, TokOf(kind, token)) != Stop(Undefined) && Within(config, b)
    modifies config, b.made
    ensures good == Advance(b.fs, last, TokOf(kind, token)).Go?
    ensures good ==> Advance(b.fs, last, TokOf(kind, token)) == Go(b'.fs, kind)
    ensures good ==> Running(stack', kind, depth', b') && Within(config, b')
    ensures b'.before == b.before && b.made <= b'.made && fresh(b'.made - b.made)
  {
    good, stack', depth', b' := TakeToken(kind, token, stack, last, depth, b);
    if good {
      ghost var made := if |b'.chain| > |b.chain| then b.made + {b'.chain[|b.chain|]} else b.made;
      WithinStep(config, b, b', made);
      b' := b'.(made := made);
    } else {
      b' := b;
    }
  }

  /** The next token, and what it means for the run of the automaton. */
  method ReadToken(input: InputStream, ghost fs: seq<Tree>, ghost last: TokenType)
    returns (kind: TokenType, token: string)
    requires input.Valid() && State(fs, last)
    modifies input
    ensures input.Valid() && kind != Start
    ensures kind !in {Error, EndOfFile} ==> |input.Rest()| < |old(input.Rest())|
    ensures kind == Error ==> ParseText(fs, last, old(input.Rest())) == Reject
    ensures kind == Comment ==> ParseText(fs, last, old(input.Rest())) == ParseText(fs, last, input.Rest())
    ensures kind == EndOfFile ==>
      ParseText(fs, last, old(input.Rest())) ==
        (if last in {StatementEnd, EndBlock, Start} && |fs| == 1 then Accept(fs[0]) else Reject)
    ensures kind in {Normal, StatementEnd, StartBlock, EndBlock} ==>
      ParseText(fs, last, old(input.Rest())) == AfterToken(fs, last, TokOf(kind, token), input.Rest())
    ensures kind in {Normal, StatementEnd, StartBlock, EndBlock} ==>
      var turn := Advance(fs, last, TokOf(kind, token)); turn.Go? ==> turn.last == kind
  {
    ghost var before := input.Rest();
    LexProgress(InitialWhitespace, "", before);
    kind, token := ParseToken(input);
    if kind in {Normal, StatementEnd, StartBlock, EndBlock} {
      ParseOneToken(fs, last, before);
    }
  }

  /** At the end of the text the statement must be over and the counter of open blocks 0. */
  method AtEnd(config: NginxConfig, ghost stack: seq<NginxConfig>, last: TokenType, depth: int, ghost b: Build)
    returns (ok: bool)
    requires Running(stack, last, depth, b) && Within(config, b)
    modifies config
    ensures ok == (last in {StatementEnd, EndBlock, Start} && |b.fs| == 1)
    ensures ok ==> Closed(b.done) && Complete(config, b.done) && config.model == b.fs[0]
  {
    ok := (last == StatementEnd || last == EndBlock || last == Start) && depth == 0;
    if ok {
      assert Open(config, b.fs[0], null, b.done);
      config.model := b.fs[0];
    }
  }

  /** What a turn of the loop finds: more to read, or the result. */
  datatype Status = Reading | Done(ok: bool)

  /** The loop goes on: what is left of the text leads to the outcome. */
  ghost predicate Continues(config: NginxConfig, stack: seq<NginxConfig>, last: TokenType, depth: int, b: Build,
                            text: string, outcome: Outcome)
    reads b.chain, b.done
  {
    Running(stack, last, depth, b) && Within(config, b) && outcome == ParseText(b.fs, last, text)
  }

  /** One turn of the parser's loop. */
  method LoopTurn(input: InputStream, config: NginxConfig, stack: seq<NginxConfig>, last: TokenType, depth: int,
                  ghost b: Build, ghost outcome: Outcome)
    returns (status: Status, stack': seq<NginxConfig>, last': TokenType, depth': int, ghost b': Build)
    requires input.Valid() && Continues(config, stack, last, depth, b, input.Rest(), outcome) && outcome != Undefined
    modifies input, config, b.made
    ensures input.Valid() && b'.before == b.before && b.made <= b'.made && fresh(b'.made - b.made)
    ensures status.Reading? ==> Continues(config, stack', last', depth', b', input.Rest(), outcome)
    ensures status.Reading? ==> |input.Rest()| < |old(input.Rest())|
    ensures status.Done? ==> status.ok == outcome.Accept?
    ensures status == Done(true) ==>
      Closed(b'.done) && Complete(config, b'.done) && Within(config, b') && config.model == outcome.tree
  {
    status, stack', last', depth', b' := Reading, stack, last, depth, b;
    var kind, token := ReadToken(input, b.fs, last);
    if kind == Comment || kind == Error {
      status := if kind == Comment then Reading else Done(false);
      return;
    }
    if kind == EndOfFile {
      var ok := AtEnd(config, stack, last, depth, b);
      status := Done(ok);
      return;
    }
    ghost var after := input.Rest();
    var good;
    good, stack', depth', b' := Turn(kind, token, stack, last, depth, config, b);
    assert input.Valid() && input.Rest() == after;
    status, last' := if good then Reading else Done(false), kind;
  }

  /**
   Parse the text left in `input` into `config`: succeeds exactly when the automaton accepts, and then
   `config` is the tree it builds.
   */
  method ParseConfig(input: InputStream, config: NginxConfig, ghost nodes: set<NginxConfig>)
    returns (ok: bool, ghost nodes': set<NginxConfig>)
    requires input.Valid() && config !in nodes && Closed(nodes) && Complete(config, nodes)
    requires ParseText([config.model], Start, input.Rest()) != Undefined
    modifies input, config
    ensures ok == old(ParseText([config.model], Start, input.Rest())).Accept?
    ensures ok ==>
      && Closed(nodes') && Complete(config, nodes')
      && config.model == old(ParseText([config.model], Start, input.Rest())).tree
      && config !in nodes' && nodes <= nodes' && fresh(nodes' - nodes)
  {
    var stack := [config];
    var last := Start;
    var blockDepth := 0;
    var status := Reading;
    ghost var b := Build([config], [config.model], nodes, nodes, {});
    ghost var outcome := ParseText(b.fs, Start, input.Rest());
    while status.Reading?
      invariant input.Valid() && fresh(b.made) && b.before == nodes
      invariant status.Reading? ==> Continues(config, stack, last, blockDepth, b, input.Rest(), outcome)
      invariant status.Done? ==> status.ok == outcome.Accept?
      invariant status == Done(true) ==>
        Closed(b.done) && Complete(config, b.done) && Within(config, b) && config.model == outcome.tree
      decreases if status.Reading? then |input.Rest()| + 1 else 0
    {
      status, stack, last, blockDepth, b := LoopTurn(input, config, stack, last, blockDepth, b, outcome);
    }
    ok, nodes' := status.ok, b.done;
  }
}
