/**
 The printer of parsed configs, and when what it prints parses back to the same tree.
 */
module ConfigPrinter {
  import Text
  import opened ConfigLexer
  import opened ConfigGrammar

  function Indent(tab: int): string
    decreases tab
  {
    if tab <= 0 then "" else Indent(tab - 1) + "  "
  }

  function JoinWords(words: seq<string>): string {
    if words == [] then ""
    else if |words| == 1 then words[0]
    else JoinWords(words[..|words| - 1]) + " " + words[|words| - 1]
  }

  /** A statement: its words, then `;` or one brace pair per child. */
  function PrintNode(t: Tree, tab: int): string
    decreases t, 0
  {
    Indent(tab) + JoinWords(t.words) + (if t.kids == [] then ";\n" else PrintBlocks(t.kids, tab))
  }

  function PrintBlocks(kids: seq<Tree>, tab: int): string
    decreases kids, 1
  {
    if kids == [] then "" else PrintBlocks(kids[..|kids| - 1], tab) + PrintBlock(kids[|kids| - 1], tab)
  }

  function PrintBlock(k: Tree, tab: int): string
    decreases k, 1
  {
    " {\n" + PrintNode(k, tab + 1) + Indent(tab) + "}\n"
  }

  /** The children of the root one after the other. */
  function PrintForest(kids: seq<Tree>, tab: int): string {
    if kids == [] then "" else PrintForest(kids[..|kids| - 1], tab) + PrintNode(kids[|kids| - 1], tab)
  }

  // ---- Layout ----

  /** Two blanks per level. */
  lemma {:induction false} IndentSpaces(tab: nat)
    ensures |Indent(tab)| == 2 * tab && forall i | 0 <= i < 2 * tab :: Indent(tab)[i] == ' '
  {
    if tab > 0 {
      IndentSpaces(tab - 1);
    }
  }

  lemma {:induction false} JoinWordsCons(w: string, words: seq<string>)
    ensures JoinWords([w] + words) == if words == [] then w else w + " " + JoinWords(words)
    decreases |words|
  {
    var all := [w] + words;
    if |words| == 1 {
      assert all[..|all| - 1] == [w];
    } else if |words| > 1 {
      var init, x := words[..|words| - 1], words[|words| - 1];
      assert all[..|all| - 1] == [w] + init;
      JoinWordsCons(w, init);
      Text.Append(w + " ", JoinWords(init) + " ", x);
      Text.Append(w + " ", JoinWords(init), " ");
    }
  }

  /** A statement is a line of its words; a block with one statement is that statement, a level deeper, between braces. */
  lemma Layout(words: seq<string>, k: Tree, tab: int)
    ensures PrintNode(Node(words, []), tab) == Indent(tab) + JoinWords(words) + ";\n"
    ensures PrintNode(Node(words, [k]), tab)
         == Indent(tab) + JoinWords(words) + " {\n" + PrintNode(k, tab + 1) + Indent(tab) + "}\n"
  {
    var kids := [k];
    assert kids[..0] == [];
    var line, inner := Indent(tab) + JoinWords(words), PrintNode(k, tab + 1);
    assert PrintBlocks(kids, tab) == "" + PrintBlock(k, tab);
    Text.Append(line, " {\n" + inner + Indent(tab), "}\n");
    Text.Append(line, " {\n" + inner, Indent(tab));
    Text.Append(line, " {\n", inner);
  }

  // ---- Words that survive printing ----

  predicate Quoted(w: string, q: char) {
    |w| >= 2 && w[0] == q && w[|w| - 1] == q && forall i | 0 < i < |w| - 1 :: w[i] != q
  }

  predicate Bare(w: string) {
    && w != "" && !Blank(w[0]) && w[0] !in {'{', '}', ';', '#', '"', '\''}
    && forall i | 0 <= i < |w| :: !EndsWord(w[i])
  }

  /** The tokenizer reads the word back as one token, if a blank, a brace or a `;` follows. */
  predicate Lexable(w: string) {
    Bare(w) || Quoted(w, '"') || Quoted(w, '\'')
  }

  predicate LexableWords(words: seq<string>) {
    words != [] && forall i | 0 <= i < |words| :: Lexable(words[i])
  }

  /** Every statement has words, all of them lexable. */
  predicate LexableTree(t: Tree) {
    LexableWords(t.words) && forall i | 0 <= i < |t.kids| :: LexableTree(t.kids[i])
  }

  /** No statement has more than one child. */
  predicate Thin(t: Tree) {
    |t.kids| <= 1 && forall i | 0 <= i < |t.kids| :: Thin(t.kids[i])
  }

  predicate AllLexable(kids: seq<Tree>) {
    forall i | 0 <= i < |kids| :: LexableTree(kids[i])
  }

  predicate AllThin(kids: seq<Tree>) {
    forall i | 0 <= i < |kids| :: Thin(kids[i])
  }

  // ---- Tokens of printed text ----

  function NodeToks(t: Tree): seq<Tok>
    decreases t, 0
  {
    WordToks(t.words) + (if t.kids == [] then [Semicolon] else BlockToks(t.kids))
  }

  function BlockToks(kids: seq<Tree>): seq<Tok>
    decreases kids, 1
  {
    if kids == [] then [] else BlockToks(kids[..|kids| - 1]) + Braced(kids[|kids| - 1])
  }

  function Braced(k: Tree): seq<Tok>
    decreases k, 1
  {
    [OpenBrace] + NodeToks(k) + [CloseBrace]
  }

  function ForestToks(kids: seq<Tree>): seq<Tok> {
    if kids == [] then [] else ForestToks(kids[..|kids| - 1]) + NodeToks(kids[|kids| - 1])
  }

  lemma LexBlank(c: char, s: string)
    requires Blank(c)
    ensures TokenStream([c] + s) == TokenStream(s)
  {
    assert ([c] + s)[1..] == s;
    assert Lex(InitialWhitespace, "", [c] + s) == Lex(InitialWhitespace, "", s);
  }

  lemma {:induction false} LexIndent(tab: int, s: string)
    ensures TokenStream(Indent(tab) + s) == TokenStream(s)
    decreases tab
  {
    if tab > 0 {
      assert Indent(tab) + s == Indent(tab - 1) + ([' '] + ([' '] + s));
      LexIndent(tab - 1, [' '] + ([' '] + s));
      LexBlank(' ', [' '] + s);
      LexBlank(' ', s);
    } else {
      assert Indent(tab) + s == s;
    }
  }

  lemma LexPunctuation(c: char, s: string)
    requires c in {'{', '}', ';'}
    ensures TokenStream([c] + s)
         == Cons([if c == '{' then OpenBrace else if c == '}' then CloseBrace else Semicolon], TokenStream(s))
  {
    assert ([c] + s)[1..] == s;
  }

  lemma {:induction false} LexBareTail(value: string, w: string, rest: string)
    requires rest != "" && EndsWord(rest[0]) && forall i | 0 <= i < |w| :: !EndsWord(w[i])
    ensures Lex(InNormal, value, w + rest) == Lexed(Normal, value + w, rest)
    decreases |w|
  {
    if w == "" {
      assert w + rest == rest && value + w == value;
    } else {
      assert (w + rest)[1..] == w[1..] + rest;
      LexBareTail(value + [w[0]], w[1..], rest);
      assert value + [w[0]] + w[1..] == value + w;
    }
  }

  lemma {:induction false} LexQuotedTail(state: LexState, q: char, value: string, w: string, rest: string)
    requires (state == SingleQuote && q == '\'') || (state == DoubleQuote && q == '"')
    requires w != "" && w[|w| - 1] == q && forall i | 0 <= i < |w| - 1 :: w[i] != q
    ensures Lex(state, value, w + rest) == Lexed(Normal, value + w, rest)
    decreases |w|
  {
    assert (w + rest)[1..] == w[1..] + rest;
    if |w| == 1 {
      assert w == [q] && w[1..] + rest == rest;
    } else {
      LexQuotedTail(state, q, value + [w[0]], w[1..], rest);
      assert value + [w[0]] + w[1..] == value + w;
    }
  }

  lemma LexWord(w: string, rest: string)
    requires Lexable(w) && rest != "" && EndsWord(rest[0])
    ensures TokenStream(w + rest) == Cons([Word(w)], TokenStream(rest))
  {
    LexOneWord(w, rest);
  }

  lemma LexOneWord(w: string, rest: string)
    requires Lexable(w) && rest != "" && EndsWord(rest[0])
    ensures Lex(InitialWhitespace, "", w + rest) == Lexed(Normal, w, rest)
  {
    var c, tail := w[0], w[1..];
    assert (w + rest)[1..] == tail + rest && w == [c] + tail;
    if Bare(w) {
      LexBareTail([c], tail, rest);
      assert "" + [c] == [c];
    } else {
      LexQuotedTail(if c == '"' then DoubleQuote else SingleQuote, c, [c], tail, rest);
    }
  }

  lemma {:induction false} LexLength(state: LexState, value: string, s: string)
    requires state.InitialWhitespace? ==> value == ""
    ensures var r := Lex(state, value, s); |r.value| + |r.rest| <= |value| + |s|
    decreases |s|
  {
    if s != "" {
      var c, rest := s[0], s[1..];
      if state.InitialWhitespace? {
        if c in {'#', '"', '\''} {
          LexLength(if c == '#' then InComment else if c == '"' then DoubleQuote else SingleQuote, [c], rest);
        } else if Blank(c) {
          LexLength(state, "", rest);
        } else if c !in {'{', '}', ';'} {
          LexLength(InNormal, [c], rest);
          assert "" + [c] == [c];
        }
      } else {
        LexLength(state, value + [c], rest);
      }
    }
  }

  lemma {:induction false} LexTailOnly(state: LexState, q: char, value: string, w: string)
    requires state == InNormal || (state == SingleQuote && q == '\'') || (state == DoubleQuote && q == '"')
    requires Lex(state, value, w + " ") == Lexed(Normal, value + w, " ")
    ensures state == InNormal ==> forall i | 0 <= i < |w| :: !EndsWord(w[i])
    ensures state != InNormal ==> w != "" && w[|w| - 1] == q && forall i | 0 <= i < |w| - 1 :: w[i] != q
    decreases |w|
  {
    var s := w + " ";
    if w == "" {
      assert s[1..] == "" && value + w == value;
    } else {
      assert s[1..] == w[1..] + " ";
      if (if state == InNormal then EndsWord(w[0]) else w[0] == q) {
        assert state != InNormal ==> w == [w[0]];
      } else {
        var tail := w[1..];
        assert value + [w[0]] + tail == value + w;
        LexTailOnly(state, q, value + [w[0]], tail);
        assert forall i | 0 < i < |w| :: w[i] == tail[i - 1];
        assert tail != "" ==> w[|w| - 1] == tail[|tail| - 1];
      }
    }
  }

  /** Lexable words are exactly those the tokenizer reads back when a blank follows. */
  lemma LexableExactly(w: string)
    ensures Lexable(w) <==> Lex(InitialWhitespace, "", w + " ") == Lexed(Normal, w, " ")
  {
    var s := w + " ";
    if Lexable(w) {
      LexOneWord(w, " ");
    } else if w != "" {
      var c, tail := w[0], w[1..];
      assert s[1..] == tail + " " && [c] + tail == w && "" + [c] == [c];
      if c in {'"', '\''} {
        var state := if c == '"' then DoubleQuote else SingleQuote;
        if Lex(state, [c], tail + " ") == Lexed(Normal, [c] + tail, " ") {
          LexTailOnly(state, c, [c], tail);
        }
      } else if Blank(c) {
        LexLength(InitialWhitespace, "", tail + " ");
      } else if c == '#' {
        LexCommentNotWord([c], tail + " ");
      } else if c !in {'{', '}', ';'} {
        if Lex(InNormal, [c], tail + " ") == Lexed(Normal, [c] + tail, " ") {
          LexTailOnly(InNormal, c, [c], tail);
        }
      }
    } else {
      assert s[1..] == "";
    }
  }

  lemma {:induction false} LexCommentNotWord(value: string, s: string)
    ensures Lex(InComment, value, s).kind != Normal
    decreases |s|
  {
    if s != "" {
      LexCommentNotWord(value + [s[0]], s[1..]);
    }
  }

  lemma ConsTwice(a: seq<Tok>, b: seq<Tok>, s: Stream)
    ensures Cons(a, Cons(b, s)) == Cons(a + b, s)
  {
  }

  lemma {:induction false} LexWords(words: seq<string>, rest: string)
    requires LexableWords(words) && rest != "" && EndsWord(rest[0])
    ensures TokenStream(JoinWords(words) + rest) == Cons(WordToks(words), TokenStream(rest))
    decreases |words|
  {
    if |words| == 1 {
      assert WordToks(words) == [Word(words[0])];
      LexWord(words[0], rest);
    } else {
      var init, w := words[..|words| - 1], words[|words| - 1];
      assert JoinWords(words) + rest == JoinWords(init) + ([' '] + (w + rest));
      LexWords(init, [' '] + (w + rest));
      LexBlank(' ', w + rest);
      LexWord(w, rest);
      ConsTwice(WordToks(init), [Word(w)], TokenStream(rest));
      WordToksSnoc(init, w);
      assert init + [w] == words;
    }
  }

  lemma LexLineEnd(c: char, s: string)
    requires c in {'{', '}', ';'}
    ensures TokenStream([c] + ['\n'] + s)
         == Cons([if c == '{' then OpenBrace else if c == '}' then CloseBrace else Semicolon], TokenStream(s))
  {
    assert [c] + ['\n'] + s == [c] + (['\n'] + s);
    LexPunctuation(c, ['\n'] + s);
    LexBlank('\n', s);
  }

  lemma {:induction false} LexNode(t: Tree, tab: int, rest: string)
    requires LexableTree(t)
    ensures TokenStream(PrintNode(t, tab) + rest) == Cons(NodeToks(t), TokenStream(rest))
    decreases t, 0
  {
    var tail := (if t.kids == [] then ";\n" else PrintBlocks(t.kids, tab)) + rest;
    assert PrintNode(t, tab) + rest == Indent(tab) + (JoinWords(t.words) + tail);
    LexIndent(tab, JoinWords(t.words) + tail);
    if t.kids == [] {
      assert tail == [';'] + ['\n'] + rest;
      LexLineEnd(';', rest);
      LexWords(t.words, tail);
      ConsTwice(WordToks(t.words), [Semicolon], TokenStream(rest));
    } else {
      BlocksStart(t.kids, tab);
      LexWords(t.words, tail);
      LexBlocks(t.kids, tab, rest);
      ConsTwice(WordToks(t.words), BlockToks(t.kids), TokenStream(rest));
    }
  }

  lemma {:induction false} BlocksStart(kids: seq<Tree>, tab: int)
    requires kids != []
    ensures var s := PrintBlocks(kids, tab); s != "" && s[0] == ' '
    decreases |kids|
  {
    if |kids| > 1 {
      BlocksStart(kids[..|kids| - 1], tab);
    }
  }

  lemma {:induction false} LexBlock(k: Tree, tab: int, rest: string)
    requires LexableTree(k)
    ensures TokenStream(PrintBlock(k, tab) + rest) == Cons(Braced(k), TokenStream(rest))
    decreases k, 1
  {
    var close := ['}'] + ['\n'] + rest;
    var body := PrintNode(k, tab + 1) + (Indent(tab) + close);
    assert PrintBlock(k, tab) + rest == [' '] + (['{'] + ['\n'] + body);
    LexBlank(' ', ['{'] + ['\n'] + body);
    LexLineEnd('{', body);
    LexNode(k, tab + 1, Indent(tab) + close);
    LexIndent(tab, close);
    LexLineEnd('}', rest);
    ConsTwice(NodeToks(k), [CloseBrace], TokenStream(rest));
    ConsTwice([OpenBrace], NodeToks(k) + [CloseBrace], TokenStream(rest));
    assert [OpenBrace] + (NodeToks(k) + [CloseBrace]) == Braced(k);
  }

  lemma {:induction false} LexBlocks(kids: seq<Tree>, tab: int, rest: string)
    requires AllLexable(kids)
    ensures TokenStream(PrintBlocks(kids, tab) + rest) == Cons(BlockToks(kids), TokenStream(rest))
    decreases kids, 1
  {
    if kids == [] {
      assert PrintBlocks(kids, tab) + rest == rest;
    } else {
      var init, k := kids[..|kids| - 1], kids[|kids| - 1];
      Text.Append(PrintBlocks(init, tab), PrintBlock(k, tab), rest);
      LexBlocks(init, tab, PrintBlock(k, tab) + rest);
      LexBlock(k, tab, rest);
      ConsTwice(BlockToks(init), Braced(k), TokenStream(rest));
    }
  }

  lemma {:induction false} LexForest(kids: seq<Tree>, tab: int, rest: string)
    requires AllLexable(kids)
    ensures TokenStream(PrintForest(kids, tab) + rest) == Cons(ForestToks(kids), TokenStream(rest))
    decreases |kids|
  {
    if kids == [] {
      assert PrintForest(kids, tab) + rest == rest;
    } else {
      var init, k := kids[..|kids| - 1], kids[|kids| - 1];
      Text.Append(PrintForest(init, tab), PrintNode(k, tab), rest);
      LexForest(init, tab, PrintNode(k, tab) + rest);
      LexNode(k, tab, rest);
      ConsTwice(ForestToks(init), NodeToks(k), TokenStream(rest));
    }
  }

  // ---- Parsing them back ----

  /** Statements that are not thin are rejected, whatever follows; thin ones become the next child. */
  lemma {:induction false} RunNode(fs: seq<Tree>, last: TokenType, t: Tree, rest: seq<Tok>, clean: bool)
    requires Between(fs, last) && LexableTree(t)
    ensures Parse(fs, last, NodeToks(t) + rest, clean) ==
      if Thin(t) then Parse(AddKids(fs, [t]), if t.kids == [] then StatementEnd else EndBlock, rest, clean) else Reject
    decreases t
  {
    var fs' := fs + [Node(t.words, [])];
    if t.kids == [] {
      Text.Append(WordToks(t.words), [Semicolon], rest);
      RunHead(fs, last, t.words, [Semicolon] + rest, clean);
      assert ([Semicolon] + rest)[1..] == rest;
      assert Fold(fs') == AddKids(fs, [t]);
    } else {
      var k := t.kids[0];
      var more := BlocksAfter(t.kids);
      Text.Append(WordToks(t.words), BlockToks(t.kids), rest);
      RunHead(fs, last, t.words, BlockToks(t.kids) + rest, clean);
      var inner := NodeToks(k) + ([CloseBrace] + (more + rest));
      FirstBlock(t.kids, rest);
      OpenBlock(fs', inner, clean);
      RunNode(fs', StartBlock, k, [CloseBrace] + (more + rest), clean);
      if Thin(k) {
        RunBlockEnd(fs, t, more + rest, if k.kids == [] then StatementEnd else EndBlock, clean);
      }
      ThinKids(t);
    }
  }

  lemma FirstBlock(kids: seq<Tree>, rest: seq<Tok>)
    requires kids != []
    ensures BlockToks(kids) + rest == [OpenBrace] + (NodeToks(kids[0]) + ([CloseBrace] + (BlocksAfter(kids) + rest)))
    ensures |kids| == 1 ==> BlocksAfter(kids) + rest == rest
    ensures |kids| > 1 ==> BlocksAfter(kids) + rest != [] && (BlocksAfter(kids) + rest)[0] == OpenBrace
  {
    BlockToksHead(kids);
    var a, more := NodeToks(kids[0]), BlocksAfter(kids);
    Text.Append(Braced(kids[0]), more, rest);
    Text.Append([OpenBrace] + a, [CloseBrace], more + rest);
    Text.Append([OpenBrace], a, [CloseBrace] + (more + rest));
  }

  lemma ThinKids(t: Tree)
    requires t.kids != []
    ensures Thin(t) <==> |t.kids| == 1 && Thin(t.kids[0])
  {
  }

  lemma OpenBlock(fs: seq<Tree>, inner: seq<Tok>, clean: bool)
    requires |fs| >= 2
    ensures Parse(fs, Normal, [OpenBrace] + inner, clean) == Parse(fs, StartBlock, inner, clean)
  {
    assert ([OpenBrace] + inner)[1..] == inner;
  }

  /** The tokens behind the first block. */
  function BlocksAfter(kids: seq<Tree>): seq<Tok>
    requires kids != []
    decreases |kids|
  {
    if |kids| == 1 then [] else BlocksAfter(kids[..|kids| - 1]) + Braced(kids[|kids| - 1])
  }

  lemma {:induction false} BlockToksHead(kids: seq<Tree>)
    requires kids != []
    ensures BlockToks(kids) == Braced(kids[0]) + BlocksAfter(kids)
    ensures |kids| > 1 ==> BlocksAfter(kids) != [] && BlocksAfter(kids)[0] == OpenBrace
    decreases |kids|
  {
    if |kids| == 1 {
      assert BlockToks(kids[..0]) == [];
    } else {
      var init, k := kids[..|kids| - 1], kids[|kids| - 1];
      BlockToksHead(init);
      Text.Append(Braced(kids[0]), BlocksAfter(init), Braced(k));
    }
  }

  lemma RunBlockEnd(fs: seq<Tree>, t: Tree, rest: seq<Tok>, last: TokenType, clean: bool)
    requires fs != [] && t.kids != [] && last in {StatementEnd, EndBlock}
    requires |t.kids| > 1 ==> rest != [] && rest[0] == OpenBrace
    ensures var fs' := AddKids(fs + [Node(t.words, [])], [t.kids[0]]);
            Parse(fs', last, [CloseBrace] + rest, clean) ==
              if |t.kids| == 1 then Parse(AddKids(fs, [t]), EndBlock, rest, clean) else Reject
  {
    var fs' := AddKids(fs + [Node(t.words, [])], [t.kids[0]]);
    assert ([CloseBrace] + rest)[1..] == rest;
    if |t.kids| == 1 {
      assert fs' == fs + [t] by {
        assert [] + [t.kids[0]] == t.kids;
      }
      assert Fold(fs') == AddKids(fs, [t]);
    }
  }

  lemma {:induction false} RunForest(fs: seq<Tree>, last: TokenType, kids: seq<Tree>, rest: seq<Tok>, clean: bool)
    returns (last': TokenType)
    requires Between(fs, last) && AllLexable(kids)
    ensures Between(AddKids(fs, kids), last')
    ensures if kids == [] then last' == last else last' in {StatementEnd, EndBlock}
    ensures Parse(fs, last, ForestToks(kids) + rest, clean)
         == if AllThin(kids) then Parse(AddKids(fs, kids), last', rest, clean) else Reject
    decreases |kids|
  {
    if kids == [] {
      assert ForestToks(kids) + rest == rest;
      AddNoKids(fs);
      return last;
    }
    var init, k := kids[..|kids| - 1], kids[|kids| - 1];
    ForestSnoc(kids, rest);
    AllThinSnoc(init, k);
    var mid := RunForest(fs, last, init, NodeToks(k) + rest, clean);
    last' := if k.kids == [] then StatementEnd else EndBlock;
    RunNextNode(fs, mid, init, k, rest, clean);
  }

  lemma ForestSnoc(kids: seq<Tree>, rest: seq<Tok>)
    requires kids != []
    ensures var init, k := kids[..|kids| - 1], kids[|kids| - 1];
            kids == init + [k] && ForestToks(kids) + rest == ForestToks(init) + (NodeToks(k) + rest)
  {
    Text.Append(ForestToks(kids[..|kids| - 1]), NodeToks(kids[|kids| - 1]), rest);
  }

  lemma RunNextNode(fs: seq<Tree>, last: TokenType, init: seq<Tree>, k: Tree, rest: seq<Tok>, clean: bool)
    requires fs != [] && Between(AddKids(fs, init), last) && LexableTree(k)
    ensures var last' := if k.kids == [] then StatementEnd else EndBlock;
            && Between(AddKids(fs, init + [k]), last')
            && Parse(AddKids(fs, init), last, NodeToks(k) + rest, clean) ==
                 if Thin(k) then Parse(AddKids(fs, init + [k]), last', rest, clean) else Reject
  {
    RunNode(AddKids(fs, init), last, k, rest, clean);
    AddKidsTwice(fs, init, [k]);
  }

  lemma AllThinSnoc(init: seq<Tree>, k: Tree)
    ensures AllThin(init + [k]) <==> AllThin(init) && Thin(k)
  {
    var kids := init + [k];
    assert kids[|init|] == k;
    assert AllThin(kids) ==> forall i | 0 <= i < |init| :: init[i] == kids[i] && Thin(init[i]);
  }

  lemma PrintedForest(kids: seq<Tree>, tab: int)
    ensures PrintForest(kids, tab) + "" == PrintForest(kids, tab)
    ensures TokenStream("") == Stream([], true) && Cons(ForestToks(kids), Stream([], true)) == Stream(ForestToks(kids), true)
  {
    assert ForestToks(kids) + [] == ForestToks(kids);
  }

  lemma ForestParses(kids: seq<Tree>)
    requires AllLexable(kids)
    ensures ParseTokens(Node([], []), ForestToks(kids), true) == if AllThin(kids) then Accept(Node([], kids)) else Reject
  {
    var root := Node([], []);
    var last := RunForest([root], Start, kids, [], true);
    assert ForestToks(kids) + [] == ForestToks(kids) && [] + kids == kids;
    assert AddKids([root], kids) == [Node([], kids)];
  }

  /**
   Round trip: a root without words, over statements with lexable words, prints text that parses back to
   the same tree if no statement has two children, and is rejected otherwise.
   */
  lemma PrintParse(kids: seq<Tree>, tab: int)
    requires AllLexable(kids)
    ensures var s := TokenStream(PrintForest(kids, tab));
            ParseTokens(Node([], []), s.toks, s.clean) ==
              if AllThin(kids) then Accept(Node([], kids)) else Reject
  {
    LexForest(kids, tab, "");
    PrintedForest(kids, tab);
    ForestParses(kids);
  }
}
