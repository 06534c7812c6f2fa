/** A bare word or a comment that the input ends in is dropped: exactly how texts with such a tail read. */
module ConfigTails {
  import opened ConfigLexer
  import opened ConfigGrammar
  import opened ConfigPrinter
  import opened ConfigNormalForm

  function Unblanked(s: string): (r: string)
    ensures |r| <= |s| && (r != "" ==> !Blank(r[0])) && (s != "" && Blank(s[0]) ==> |r| < |s|)
  {
    if s != "" && Blank(s[0]) then Unblanked(s[1..]) else s
  }

  /** The token, if any, in which the text ends. */
  function OpenTail(s: string): (r: string)
    ensures |r| <= |s|
    decreases |s|
  {
    LexProgress(InitialWhitespace, "", s);
    var r := Lex(InitialWhitespace, "", s);
    if r.kind in {EndOfFile, Error} then Unblanked(s) else OpenTail(r.rest)
  }

  /** The text in front of it. */
  function Finished(s: string): string {
    s[..|s| - |OpenTail(s)|]
  }

  lemma SuffixOfRest(s: string, r: string)
    requires s != "" && |r| <= |s| - 1 && s[1..][|s| - 1 - |r|..] == r
    ensures s[|s| - |r|..] == r
  {
  }

  /** What a call leaves is a tail of the text. */
  lemma {:induction false} LexSuffix(state: LexState, value: string, s: string)
    ensures s[|s| - |Lex(state, value, s).rest|..] == Lex(state, value, s).rest
    decreases |s|
  {
    if s != "" {
      var c, rest, r := s[0], s[1..], Lex(state, value, s).rest;
      if state == InitialWhitespace {
        if c == '#' || c == '"' || c == '\'' {
          LexSuffix(if c == '#' then InComment else if c == '"' then DoubleQuote else SingleQuote, [c], rest);
        } else if c !in {'{', '}', ';'} {
          LexSuffix(if Blank(c) then state else InNormal, if Blank(c) then value else value + [c], rest);
        }
      } else {
        LexSuffix(state, value + [c], rest);
      }
      if |r| < |s| {
        SuffixOfRest(s, r);
      }
    }
  }

  /** A token that is complete stays what it is if the text behind it is cut, but not away from its end. */
  lemma {:induction false} LexCut(state: LexState, value: string, a: string, rest: string, x: string)
    requires Lex(state, value, a + rest).rest == rest && Lex(state, value, a + rest).kind !in {EndOfFile, Error}
    requires x <= rest && (rest != "" && EndsWord(rest[0]) ==> x != "")
    ensures Lex(state, value, a + x) == Lex(state, value, a + rest).(rest := x)
    decreases |a|
  {
    var s := a + rest;
    if a == "" {
      LexStays(state, value, rest);
      assert s == rest && a + x == x;
    } else {
      var c, b := a[0], a[1..];
      assert s[0] == c && s[1..] == b + rest && (a + x)[0] == c && (a + x)[1..] == b + x;
      match state
      case InitialWhitespace =>
        if c == '#' {
          LexCut(InComment, [c], b, rest, x);
        } else if c == '"' {
          LexCut(DoubleQuote, [c], b, rest, x);
        } else if c == '\'' {
          LexCut(SingleQuote, [c], b, rest, x);
        } else if Blank(c) {
          LexCut(InitialWhitespace, value, b, rest, x);
        } else if c !in {'{', '}', ';'} {
          LexCut(InNormal, value + [c], b, rest, x);
        } else {
          AllTaken(b, rest, x);
        }
      case SingleQuote =>
        if c == '\'' { AllTaken(b, rest, x); } else { LexCut(state, value + [c], b, rest, x); }
      case DoubleQuote =>
        if c == '"' { AllTaken(b, rest, x); } else { LexCut(state, value + [c], b, rest, x); }
      case InComment =>
        if c == '\n' || c == '\r' { AllTaken(b, rest, x); } else { LexCut(state, value + [c], b, rest, x); }
      case InNormal =>
        if !EndsWord(c) { LexCut(state, value + [c], b, rest, x); }
    }
  }

  lemma AllTaken(b: string, rest: string, x: string)
    ensures b + rest == rest ==> b + x == x
  {
    if b + rest == rest {
      assert |b| + |rest| == |rest|;
      assert b + x == x;
    }
  }

  /** Only a bare word is complete without taking a character. */
  lemma {:induction false} LexStays(state: LexState, value: string, s: string)
    requires Lex(state, value, s).rest == s && Lex(state, value, s).kind !in {EndOfFile, Error}
    ensures state == InNormal && s != "" && EndsWord(s[0]) && Lex(state, value, s) == Lexed(Normal, value, s)
  {
  }

  lemma TailStart(s: string)
    requires s != "" && EndsWord(s[0])
    ensures |OpenTail(s)| < |s|
  {
    LexProgress(InitialWhitespace, "", s);
  }

  lemma {:induction false} BlanksOnly(s: string, n: nat)
    requires n + |Unblanked(s)| == |s|
    ensures TokenStream(s[..n]) == Stream([], true)
    decreases n
  {
    if n == 0 {
      NoText();
    } else {
      BlanksOnly(s[1..], n - 1);
      LexBlank(s[0], s[1..][..n - 1]);
      assert s[..n] == [s[0]] + s[1..][..n - 1];
    }
  }

  /** Without the token it ends in, a text has the same tokens, and ends outside quotes. */
  lemma {:induction false} TailDropped(s: string)
    ensures TokenStream(Finished(s)) == Stream(TokenStream(s).toks, true)
    decreases |s|
  {
    LexProgress(InitialWhitespace, "", s);
    var r := Lex(InitialWhitespace, "", s);
    if r.kind in {EndOfFile, Error} {
      BlanksOnly(s, |s| - |Unblanked(s)|);
    } else {
      LexSuffix(InitialWhitespace, "", s);
      var a, f := s[..|s| - |r.rest|], Finished(r.rest);
      assert s == a + r.rest && Finished(s) == a + f;
      if r.rest != "" && EndsWord(r.rest[0]) {
        TailStart(r.rest);
      }
      LexCut(InitialWhitespace, "", a, r.rest, f);
      TailDropped(r.rest);
      LexProgress(InitialWhitespace, "", a + f);
    }
  }

  /** The text reads as if the token it ends in were not there, exactly if that is not an open quote. */
  lemma TailIgnoredExactly(s: string)
    ensures TokenStream(Finished(s)) == TokenStream(s) <==> TokenStream(s).clean
  {
    TailDropped(s);
  }

  // ---- What the tail can be ----

  predicate OpenComment(s: string) {
    s != "" && s[0] == '#' && forall i | 0 <= i < |s| :: s[i] !in {'\n', '\r'}
  }

  predicate OpenQuote(s: string) {
    s != "" && s[0] in {'"', '\''} && forall i | 0 < i < |s| :: s[i] != s[0]
  }

  /** How the text goes on when the tokenizer meets its end inside a token. */
  lemma {:induction false} LexEnds(state: LexState, value: string, s: string)
    requires state != InitialWhitespace
    ensures var kind := Lex(state, value, s).kind;
            && (state == InNormal ==> kind != Error && (kind == EndOfFile ==> forall i | 0 <= i < |s| :: !EndsWord(s[i])))
            && (state == InComment ==>
                  kind != Error && (kind == EndOfFile ==> forall i | 0 <= i < |s| :: s[i] !in {'\n', '\r'}))
            && (state == SingleQuote ==>
                  kind != EndOfFile && (kind == Error ==> forall i | 0 <= i < |s| :: s[i] != '\''))
            && (state == DoubleQuote ==>
                  kind != EndOfFile && (kind == Error ==> forall i | 0 <= i < |s| :: s[i] != '"'))
    decreases |s|
  {
    if s != "" {
      LexEnds(state, value + [s[0]], s[1..]);
    }
  }

  lemma {:induction false} FirstToken(s: string)
    ensures var r, t := Lex(InitialWhitespace, "", s), Unblanked(s);
            && (r.kind == EndOfFile ==> t == "" || Bare(t) || OpenComment(t))
            && (r.kind == Error ==> OpenQuote(t))
    decreases |s|
  {
    if s != "" {
      var c, rest := s[0], s[1..];
      assert s == [c] + rest;
      if Blank(c) {
        FirstToken(rest);
      } else if c !in {'{', '}', ';'} {
        LexEnds(if c == '#' then InComment else if c == '"' then DoubleQuote else if c == '\'' then SingleQuote
                else InNormal, [c], rest);
        assert "" + [c] == [c];
      }
    }
  }

  /** A text ends outside quotes exactly if it ends in no token, in a bare word or in a comment. */
  lemma {:induction false} TailKinds(s: string)
    ensures var t := OpenTail(s);
            && (TokenStream(s).clean <==> t == "" || Bare(t) || OpenComment(t))
            && (!TokenStream(s).clean <==> OpenQuote(t))
    decreases |s|
  {
    LexProgress(InitialWhitespace, "", s);
    FirstToken(s);
    var r := Lex(InitialWhitespace, "", s);
    if r.kind !in {EndOfFile, Error} {
      TailKinds(r.rest);
    }
  }

  /** The token the text ends in is the end of the text. */
  lemma {:induction false} TailIsTail(s: string)
    ensures Finished(s) + OpenTail(s) == s
    decreases |s|
  {
    LexProgress(InitialWhitespace, "", s);
    LexSuffix(InitialWhitespace, "", s);
    var r := Lex(InitialWhitespace, "", s);
    if r.kind in {EndOfFile, Error} {
      UnblankedIsTail(s);
    } else {
      var a := s[..|s| - |r.rest|];
      TailIsTail(r.rest);
      assert s == a + r.rest && OpenTail(s) == OpenTail(r.rest);
      FrontJoin(a, r.rest, OpenTail(r.rest));
    }
  }

  lemma FrontJoin(a: string, b: string, t: string)
    requires |t| <= |b| && b[..|b| - |t|] + t == b
    ensures (a + b)[..|a + b| - |t|] + t == a + b
  {
    assert (a + b)[..|a + b| - |t|] == a + b[..|b| - |t|];
  }

  lemma {:induction false} UnblankedIsTail(s: string)
    ensures s[|s| - |Unblanked(s)|..] == Unblanked(s)
  {
    if s != "" && Blank(s[0]) {
      UnblankedIsTail(s[1..]);
    }
  }

  /** An open quote at the end turns acceptance into rejection and changes nothing else. */
  lemma {:induction false} UncleanParse(fs: seq<Tree>, last: TokenType, toks: seq<Tok>)
    requires State(fs, last)
    ensures var o := Parse(fs, last, toks, true);
            Parse(fs, last, toks, false) == if o.Accept? then Reject else o
    decreases |toks|
  {
    if toks != [] {
      var r := Advance(fs, last, toks[0]);
      if r.Go? {
        UncleanParse(r.fs, r.last, toks[1..]);
      }
    }
  }

  /**
   A text that ends in a bare word or a comment is parsed as if that were not there. One that ends in an open
   quote is not, if it is accepted without the quote.
   */
  lemma DroppedExactly(s: string)
    ensures s == Finished(s) + OpenTail(s)
    ensures OpenTail(s) == "" || Bare(OpenTail(s)) || OpenComment(OpenTail(s)) || OpenQuote(OpenTail(s))
    ensures ParseFresh(s) == ParseFresh(Finished(s)) <==>
              (OpenQuote(OpenTail(s)) ==> !ParseFresh(Finished(s)).Accept?)
  {
    TailIsTail(s);
    TailKinds(s);
    TailDropped(s);
    UncleanParse([Node([], [])], Start, TokenStream(s).toks);
  }

  /** `a;b` is accepted, and `b` is lost. */
  lemma DroppedWord()
    ensures OpenTail("a;b") == "b" && ParseFresh("a;b") == Accept(Node([], [Node(["a"], [])]))
  {
    assert "a;b" == "a" + ([';'] + "b");
    LexOneWord("a", [';'] + "b");
    assert OpenTail("a;b") == OpenTail([';'] + "b");
    BareTail();
    LexWord("a", [';'] + "b");
    LexPunctuation(';', "b");
    OneStmt(Simple(["a"]));
    assert WordToks(["a"]) == [Word("a")];
    AcceptsExactly(Node([], []), [Word("a"), Semicolon], true, Node([], [Node(["a"], [])]));
  }

  lemma BareTail()
    ensures OpenTail([';'] + "b") == "b" && TokenStream("b") == Stream([], true)
  {
    assert ([';'] + "b")[1..] == "b" && "b"[1..] == "";
    assert Lex(InitialWhitespace, "", [';'] + "b") == Lexed(StatementEnd, ";", "b");
    assert Lex(InitialWhitespace, "", "b") == Lex(InNormal, "b", "");
  }
}
