/**
 What the parser accepts can be printed: its words read back as they are, so that printing and parsing again
 decides on the shape of the tree alone.
 */
module ConfigNormalForm {
  import opened ConfigLexer
  import opened ConfigGrammar
  import opened ConfigPrinter

  // ---- Every word that is read is lexable ----

  /** What has been read of a token in this state. */
  predicate Begun(state: LexState, value: string) {
    match state
    case InitialWhitespace => value == ""
    case InNormal => Bare(value)
    case SingleQuote => BegunQuote(value, '\'')
    case DoubleQuote => BegunQuote(value, '"')
    case InComment => true
  }

  predicate BegunQuote(value: string, q: char) {
    value != "" && value[0] == q && forall i | 0 < i < |value| :: value[i] != q
  }

  lemma {:induction false} WordIsLexable(state: LexState, value: string, s: string)
    requires Begun(state, value)
    ensures var r := Lex(state, value, s); r.kind == Normal ==> Lexable(r.value)
    decreases |s|
  {
    if s != "" {
      var c, rest := s[0], s[1..];
      match state
      case InitialWhitespace =>
        if c == '#' || c == '"' || c == '\'' {
          WordIsLexable(if c == '#' then InComment else if c == '"' then DoubleQuote else SingleQuote, [c], rest);
        } else if Blank(c) {
          WordIsLexable(InitialWhitespace, "", rest);
        } else if c !in {'{', '}', ';'} {
          assert "" + [c] == [c];
          WordIsLexable(InNormal, [c], rest);
        }
      case InComment =>
        WordIsLexable(state, value + [c], rest);
      case InNormal =>
        if !EndsWord(c) {
          WordIsLexable(state, value + [c], rest);
        }
      case SingleQuote =>
        if c == '\'' {
          assert Quoted(value + [c], c);
        } else {
          WordIsLexable(state, value + [c], rest);
        }
      case DoubleQuote =>
        if c == '"' {
          assert Quoted(value + [c], c);
        } else {
          WordIsLexable(state, value + [c], rest);
        }
    }
  }

  predicate LexableToks(toks: seq<Tok>) {
    forall i | 0 <= i < |toks| && toks[i].Word? :: Lexable(toks[i].text)
  }

  /** Every word of every text is lexable. */
  lemma {:induction false} WordsAreLexable(s: string)
    ensures LexableToks(TokenStream(s).toks)
    decreases |s|
  {
    LexProgress(InitialWhitespace, "", s);
    WordIsLexable(InitialWhitespace, "", s);
    var r := Lex(InitialWhitespace, "", s);
    if r.kind !in {EndOfFile, Error} {
      WordsAreLexable(r.rest);
    }
  }

  lemma LexableParts(a: seq<Tok>, b: seq<Tok>)
    requires LexableToks(a + b)
    ensures LexableToks(a) && LexableToks(b)
  {
    assert forall i | 0 <= i < |a| :: (a + b)[i] == a[i];
    assert forall i | 0 <= i < |b| :: (a + b)[|a| + i] == b[i];
  }

  lemma LexableWordToks(words: seq<string>)
    requires LexableToks(WordToks(words)) && words != []
    ensures LexableWords(words)
  {
    assert forall i | 0 <= i < |words| :: WordToks(words)[i] == Word(words[i]);
  }

  lemma {:induction false} StmtIsLexable(s: Stmt)
    requires Worded(s) && LexableToks(Yield(s))
    ensures LexableTree(TreeOf(s))
    decreases s, 0
  {
    match s
    case Simple(words) =>
      LexableParts(WordToks(words), [Semicolon]);
      LexableWordToks(words);
    case Block(words, body) =>
      LexableParts(WordToks(words) + [OpenBrace] + YieldAll(body), [CloseBrace]);
      LexableParts(WordToks(words) + [OpenBrace], YieldAll(body));
      LexableParts(WordToks(words), [OpenBrace]);
      LexableWordToks(words);
      StmtsAreLexable(body);
  }

  lemma {:induction false} StmtsAreLexable(ss: seq<Stmt>)
    requires AllWorded(ss) && LexableToks(YieldAll(ss))
    ensures AllLexable(TreesOf(ss))
    decreases ss, 1
  {
    if ss != [] {
      var init, s := ss[..|ss| - 1], ss[|ss| - 1];
      LexableParts(YieldAll(init), Yield(s));
      StmtsAreLexable(init);
      StmtIsLexable(s);
    }
  }

  // ---- The normal form ----

  function ParseFresh(s: string): Outcome {
    ParseTokens(Node([], []), TokenStream(s).toks, TokenStream(s).clean)
  }

  /** Every accepted tree is lexable throughout. */
  lemma AcceptedIsLexable(s: string)
    requires ParseFresh(s).Accept?
    ensures var t := ParseFresh(s).tree; t.words == [] && AllLexable(t.kids)
  {
    var root, toks, clean, t := Node([], []), TokenStream(s).toks, TokenStream(s).clean, ParseFresh(s).tree;
    AcceptsExactly(root, toks, clean, t);
    var ss :| AllWorded(ss) && toks == YieldAll(ss) && t == Node(root.words, root.kids + TreesOf(ss));
    WordsAreLexable(s);
    StmtsAreLexable(ss);
    assert [] + TreesOf(ss) == TreesOf(ss);
  }

  /**
   Normal form: for every text accepted into an empty config, at every indentation, the printed config parses
   to the same tree if no statement has two children, and is rejected otherwise.
   */
  lemma ConfigNormalForm(s: string, tab: int)
    requires ParseFresh(s).Accept?
    ensures var t := ParseFresh(s).tree;
            ParseFresh(PrintForest(t.kids, tab)) == if AllThin(t.kids) then Accept(t) else Reject
  {
    AcceptedIsLexable(s);
    PrintParse(ParseFresh(s).tree.kids, tab);
  }

  /** `a { b; c; }` is accepted, and what is printed for it is not. */
  lemma TwoChildren()
    ensures var t := Node([], [Node(["a"], [Node(["b"], []), Node(["c"], [])])]);
            ParseFresh("a { b; c; }") == Accept(t) && ParseFresh(PrintForest(t.kids, 0)) == Reject
  {
    var t := Node([], [Node(["a"], [Node(["b"], []), Node(["c"], [])])]);
    TwoChildrenTokens();
    TwoChildrenYield();
    AcceptsExactly(Node([], []), TokenStream("a { b; c; }").toks, true, t);
    ConfigNormalForm("a { b; c; }", 0);
    assert !Thin(t.kids[0]);
  }

  lemma TwoChildrenYield()
    ensures var ss := [Block(["a"], [Simple(["b"]), Simple(["c"])])];
            && AllWorded(ss) && TreesOf(ss) == [Node(["a"], [Node(["b"], []), Node(["c"], [])])]
            && YieldAll(ss) == [Word("a"), OpenBrace, Word("b"), Semicolon, Word("c"), Semicolon, CloseBrace]
  {
    var b, c := Simple(["b"]), Simple(["c"]);
    var s := Block(["a"], [b, c]);
    OneStmt(b);
    assert [b] + [c] == [b, c];
    YieldSnoc([b], c);
    assert TreesOf([b, c]) == [Node(["b"], []), Node(["c"], [])];
    OneStmt(s);
    assert WordToks(["a"]) == [Word("a")] && WordToks(["b"]) == [Word("b")] && WordToks(["c"]) == [Word("c")];
  }

  lemma OneStmt(s: Stmt)
    ensures YieldAll([s]) == Yield(s) && TreesOf([s]) == [TreeOf(s)]
  {
    assert [] + [s] == [s];
    YieldSnoc([], s);
  }

  /** A blank, a word and a punctuation mark. */
  lemma LexPart(w: string, c: char, rest: string)
    requires Lexable(w) && c in {'{', '}', ';'}
    ensures TokenStream([' '] + (w + ([c] + rest))) ==
            Cons([Word(w)], Cons([if c == '{' then OpenBrace else if c == '}' then CloseBrace else Semicolon],
                                 TokenStream(rest)))
  {
    LexBlank(' ', w + ([c] + rest));
    LexWord(w, [c] + rest);
    LexPunctuation(c, rest);
  }

  lemma TwoChildrenTokens()
    ensures TokenStream("a { b; c; }") ==
            Stream([Word("a"), OpenBrace, Word("b"), Semicolon, Word("c"), Semicolon, CloseBrace], true)
  {
    var end := [' '] + (['}'] + "");
    var c := [' '] + ("c" + ([';'] + end));
    var b := [' '] + ("b" + ([';'] + c));
    assert "a { b; c; }" == "a" + ([' '] + (['{'] + b));
    var tail := TokenStream(end);
    var fromC := Cons([Word("c")], Cons([Semicolon], tail));
    var fromB := Cons([Word("b")], Cons([Semicolon], fromC));
    assert tail == Stream([CloseBrace], true) by {
      LexBlank(' ', ['}'] + "");
      LexPunctuation('}', "");
      NoText();
    }
    assert TokenStream(b) == fromB by {
      LexPart("b", ';', c);
      LexPart("c", ';', end);
    }
    assert TokenStream("a { b; c; }") == Cons([Word("a")], Cons([OpenBrace], fromB)) by {
      LexWord("a", [' '] + (['{'] + b));
      LexBlank(' ', ['{'] + b);
      LexPunctuation('{', b);
    }
  }

  /** `a;}b;` reaches the emptied stack: the `}` closes nothing, and a word follows. */
  lemma EmptiedStack()
    ensures ParseFresh("a;}b;") == Undefined
  {
    var s := "a;}b;";
    EmptiedTokens();
    OneTooMuch(TokenStream(s).toks, "a", "b");
    UndefinedExactly(Node([], []), TokenStream(s).toks, TokenStream(s).clean);
  }

  lemma OneTooMuch(toks: seq<Tok>, a: string, b: string)
    requires toks == [Word(a), Semicolon, CloseBrace, Word(b), Semicolon]
    ensures AllWorded([Simple([a])]) && Underflows(toks, [Simple([a])])
  {
    OneStmt(Simple([a]));
    assert WordToks([a]) == [Word(a)];
    assert YieldAll([Simple([a])]) == [Word(a), Semicolon];
    assert [Word(a), Semicolon] + [CloseBrace] == toks[..3];
  }

  lemma EmptiedTokens()
    ensures TokenStream("a;}b;").toks == [Word("a"), Semicolon, CloseBrace, Word("b"), Semicolon]
  {
    var end := "b" + ([';'] + "");
    assert "a;}b;" == "a" + ([';'] + (['}'] + end));
    var last := TokenStream("");
    NoText();
    assert TokenStream(end) == Cons([Word("b")], Cons([Semicolon], last)) by {
      LexWord("b", [';'] + "");
      LexPunctuation(';', "");
    }
    assert TokenStream("a;}b;") == Cons([Word("a")], Cons([Semicolon], Cons([CloseBrace], TokenStream(end)))) by {
      LexWord("a", [';'] + (['}'] + end));
      LexPunctuation(';', ['}'] + end);
      LexPunctuation('}', end);
    }
  }

  lemma NoText()
    ensures TokenStream("") == Stream([], true)
  {
  }
}
