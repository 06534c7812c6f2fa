/**
 What a config text is made of: blanks, comments, words and punctuation, and possibly an unfinished word,
 comment or quote at its end. Its tokens are the words and the punctuation.
 */
module ConfigPieces {
  import Text
  import opened ConfigLexer
  import opened ConfigGrammar
  import opened ConfigPrinter
  import opened ConfigNormalForm
  import opened ConfigTails

  datatype Piece = Gap(c: char) | Note(body: string, end: char) | Item(tok: Tok)

  predicate Without(s: string, chars: set<char>) {
    forall i | 0 <= i < |s| :: s[i] !in chars
  }

  predicate BareWord(w: string) {
    w != "" && Without(w, {' ', '\t', '\n', ';', '{', '}'}) && w[0] !in {'\r', '#', '"', '\''}
  }

  predicate QuotedWord(w: string) {
    |w| >= 2 && w[0] in {'"', '\''} && w[|w| - 1] == w[0] && Without(w[1..|w| - 1], {w[0]})
  }

  predicate IsPiece(p: Piece) {
    match p
    case Gap(c) => c in {' ', '\t', '\n', '\r'}
    case Note(body, end) => Without(body, {'\n', '\r'}) && end in {'\n', '\r'}
    case Item(Word(w)) => BareWord(w) || QuotedWord(w)
    case Item(_) => true
  }

  function Shown(p: Piece): string {
    match p
    case Gap(c) => [c]
    case Note(body, end) => "#" + body + [end]
    case Item(Word(w)) => w
    case Item(OpenBrace) => "{"
    case Item(CloseBrace) => "}"
    case Item(Semicolon) => ";"
  }

  function AllShown(ps: seq<Piece>): string {
    if ps == [] then "" else Shown(ps[0]) + AllShown(ps[1..])
  }

  function Toks(ps: seq<Piece>): seq<Tok> {
    if ps == [] then [] else (if ps[0].Item? then [ps[0].tok] else []) + Toks(ps[1..])
  }

  /** A text in front of which a bare word ends. A carriage return, a quote or a `#` would belong to the word. */
  predicate Separates(s: string) {
    s != "" && s[0] in {' ', '\t', '\n', ';', '{', '}'}
  }

  predicate IsBare(p: Piece) {
    p.Item? && p.tok.Word? && BareWord(p.tok.text)
  }

  /** The pieces can stand in this order in front of the text. */
  predicate Placed(ps: seq<Piece>, rest: string) {
    ps == [] || (IsPiece(ps[0]) && (IsBare(ps[0]) ==> Separates(AllShown(ps[1..]) + rest)) && Placed(ps[1..], rest))
  }

  predicate IsTail(s: string) {
    s == "" || BareWord(s) || (s[0] == '#' && Without(s, {'\n', '\r'})) || Unclosed(s)
  }

  /** A quote that is opened and not closed. */
  predicate Unclosed(s: string) {
    s != "" && s[0] in {'"', '\''} && Without(s[1..], {s[0]})
  }

  // ---- The tokens of pieces ----

  lemma BareIsBare(w: string)
    ensures BareWord(w) <==> Bare(w)
  {
    if w != "" {
      assert EndsWord(w[0]) <==> w[0] in {' ', '\t', '\n', ';', '{', '}'};
    }
  }

  lemma {:induction false} CommentTail(value: string, body: string, e: char, rest: string)
    requires Without(body, {'\n', '\r'}) && e in {'\n', '\r'}
    ensures Lex(InComment, value, body + [e] + rest) == Lexed(Comment, value + body, rest)
    decreases |body|
  {
    var s := body + [e] + rest;
    if body == "" {
      assert s == [e] + rest && s[1..] == rest && value + body == value;
    } else {
      assert s[1..] == body[1..] + [e] + rest;
      CommentTail(value + [body[0]], body[1..], e, rest);
      assert value + [body[0]] + body[1..] == value + body;
    }
  }

  /** A comment runs to the end of its line, and gives no token. */
  lemma CommentSkipped(body: string, e: char, rest: string)
    requires Without(body, {'\n', '\r'}) && e in {'\n', '\r'}
    ensures TokenStream("#" + body + [e] + rest) == TokenStream(rest)
  {
    var s := "#" + body + [e] + rest;
    assert s[0] == '#' && s[1..] == body + [e] + rest;
    CommentTail("#", body, e, rest);
    assert Lex(InitialWhitespace, "", s) == Lexed(Comment, "#" + body, rest);
  }

  lemma {:induction false} OpenEnd(state: LexState, value: string, s: string)
    requires state == InNormal ==> Without(s, {' ', '\t', '\n', ';', '{', '}'})
    requires state == InComment ==> Without(s, {'\n', '\r'})
    requires state == SingleQuote ==> Without(s, {'\''})
    requires state == DoubleQuote ==> Without(s, {'"'})
    requires state != InitialWhitespace
    ensures Lex(state, value, s).kind == if state.SingleQuote? || state.DoubleQuote? then Error else EndOfFile
    decreases |s|
  {
    if s != "" {
      OpenEnd(state, value + [s[0]], s[1..]);
    }
  }

  /** An unfinished word or comment gives no token, an unclosed quote is an error. */
  lemma TailTokens(s: string)
    requires IsTail(s)
    ensures TokenStream(s) == Stream([], !Unclosed(s))
  {
    if s == "" {
      NoText();
    } else {
      var c := s[0];
      OpenEnd(if c == '#' then InComment else if c == '"' then DoubleQuote else if c == '\'' then SingleQuote
              else InNormal, [c], s[1..]);
      assert "" + [c] == [c];
    }
  }

  lemma QuotedSkipped(w: string, rest: string)
    requires QuotedWord(w)
    ensures TokenStream(w + rest) == Cons([Word(w)], TokenStream(rest))
  {
    var c, tail := w[0], w[1..];
    assert (w + rest)[1..] == tail + rest && w == [c] + tail;
    forall i | 0 <= i < |tail| - 1 ensures tail[i] != c {
      assert tail[i] == w[1..|w| - 1][i];
    }
    LexQuotedTail(if c == '"' then DoubleQuote else SingleQuote, c, [c], tail, rest);
  }

  lemma PieceTokens(p: Piece, rest: string)
    requires IsPiece(p) && (IsBare(p) ==> Separates(rest))
    ensures TokenStream(Shown(p) + rest) == Cons(if p.Item? then [p.tok] else [], TokenStream(rest))
  {
    match p
    case Gap(c) =>
      LexBlank(c, rest);
    case Note(body, e) =>
      CommentSkipped(body, e, rest);
    case Item(Word(w)) =>
      BareIsBare(w);
      if BareWord(w) {
        LexWord(w, rest);
      } else {
        QuotedSkipped(w, rest);
      }
    case Item(OpenBrace) =>
      LexPunctuation('{', rest);
    case Item(CloseBrace) =>
      LexPunctuation('}', rest);
    case Item(Semicolon) =>
      LexPunctuation(';', rest);
  }

  /** The tokens of pieces in front of a text are their words and punctuation, and then those of the text. */
  lemma {:induction false} PiecesTokens(ps: seq<Piece>, rest: string)
    requires Placed(ps, rest)
    ensures TokenStream(AllShown(ps) + rest) == Cons(Toks(ps), TokenStream(rest))
  {
    if ps == [] {
      assert "" + rest == rest && Cons([], TokenStream(rest)) == TokenStream(rest);
    } else {
      var p, more := ps[0], ps[1..];
      Text.Append(Shown(p), AllShown(more), rest);
      PieceTokens(p, AllShown(more) + rest);
      PiecesTokens(more, rest);
      ConsTwice(if p.Item? then [p.tok] else [], Toks(more), TokenStream(rest));
    }
  }

  // ---- Every text is made of pieces ----

  /** Where the first of the characters stands, or the length. */
  function UpTo(s: string, chars: set<char>): (n: nat)
    ensures n <= |s| && Without(s[..n], chars) && (if n < |s| then s[n] in chars else Without(s, chars))
  {
    if s == "" || s[0] in chars then 0
    else
      var n := 1 + UpTo(s[1..], chars);
      assert s[..n] == [s[0]] + s[1..][..n - 1];
      n
  }

  /** The first piece of a text that is not an unfinished tail. */
  lemma FirstPiece(s: string) returns (p: Piece, rest: string)
    requires !IsTail(s)
    ensures IsPiece(p) && s == Shown(p) + rest && |rest| < |s| && (IsBare(p) ==> Separates(rest))
  {
    var c, tail := s[0], s[1..];
    assert s == [c] + tail;
    if c in {' ', '\t', '\n', '\r'} {
      p, rest := Gap(c), tail;
    } else if c in {'{', '}', ';'} {
      p, rest := Item(if c == '{' then OpenBrace else if c == '}' then CloseBrace else Semicolon), tail;
    } else if c == '#' {
      p, rest := FirstComment(s);
    } else if c in {'"', '\''} {
      p, rest := FirstQuote(s);
    } else {
      p, rest := FirstWord(s);
    }
  }

  lemma FirstWord(s: string) returns (p: Piece, rest: string)
    requires !IsTail(s) && s[0] !in {' ', '\t', '\n', '\r', ';', '{', '}', '#', '"', '\''}
    ensures IsPiece(p) && s == Shown(p) + rest && |rest| < |s| && Separates(rest)
  {
    var n := UpTo(s, {' ', '\t', '\n', ';', '{', '}'});
    assert s[..n] + s[n..] == s;
    p, rest := Item(Word(s[..n])), s[n..];
    assert s[..n][0] == s[0];
  }

  lemma FirstComment(s: string) returns (p: Piece, rest: string)
    requires s != "" && s[0] == '#' && !Without(s, {'\n', '\r'})
    ensures IsPiece(p) && p.Note? && s == Shown(p) + rest && |rest| < |s|
  {
    var tail := s[1..];
    var n := UpTo(tail, {'\n', '\r'});
    assert s == "#" + tail;
    p, rest := Note(tail[..n], tail[n]), tail[n + 1..];
    assert tail == tail[..n] + [tail[n]] + rest;
  }

  lemma QuotedIs(c: char, body: string, w: string)
    requires c in {'"', '\''} && Without(body, {c}) && w == [c] + body + [c]
    ensures QuotedWord(w) && !BareWord(w)
  {
    assert w[1..|w| - 1] == body;
  }

  lemma FirstQuote(s: string) returns (p: Piece, rest: string)
    requires s != "" && s[0] in {'"', '\''} && !Unclosed(s)
    ensures IsPiece(p) && p.Item? && !IsBare(p) && s == Shown(p) + rest && |rest| < |s|
  {
    var c, tail := s[0], s[1..];
    var n := UpTo(tail, {c});
    p, rest := Item(Word([c] + tail[..n] + [c])), tail[n + 1..];
    QuotedIs(c, tail[..n], [c] + tail[..n] + [c]);
    QuoteParts(s, c, tail, n);
  }

  lemma QuoteParts(s: string, c: char, tail: string, n: nat)
    requires s == [c] + tail && n < |tail| && tail[n] == c
    ensures s == [c] + tail[..n] + [c] + tail[n + 1..]
  {
  }

  /** Every text is a list of pieces and an unfinished tail. */
  lemma {:induction false} MadeOfPieces(s: string) returns (ps: seq<Piece>, tail: string)
    ensures s == AllShown(ps) + tail && Placed(ps, tail) && IsTail(tail)
    decreases |s|
  {
    if IsTail(s) {
      ps, tail := [], s;
      assert "" + s == s;
    } else {
      var p, rest := FirstPiece(s);
      var more;
      more, tail := MadeOfPieces(rest);
      ps := [p] + more;
      assert ps[1..] == more;
      Text.Append(Shown(p), AllShown(more), tail);
    }
  }

  /**
   Tokens, exactly: every text is made of pieces and a tail, and however it is, its tokens are the words and the
   punctuation among the pieces, and it ends outside quotes if the tail is not an unclosed quote.
   */
  lemma TokensExactly(s: string)
    ensures exists ps, tail :: s == AllShown(ps) + tail && Placed(ps, tail) && IsTail(tail)
    ensures forall ps, tail | s == AllShown(ps) + tail && Placed(ps, tail) && IsTail(tail) ::
              TokenStream(s) == Stream(Toks(ps), !Unclosed(tail))
  {
    var ps0, tail0 := MadeOfPieces(s);
    forall ps, tail | s == AllShown(ps) + tail && Placed(ps, tail) && IsTail(tail)
      ensures TokenStream(s) == Stream(Toks(ps), !Unclosed(tail))
    {
      PiecesTokens(ps, tail);
      TailTokens(tail);
      assert Toks(ps) + [] == Toks(ps);
    }
  }

  // ---- Accepted texts ----

  /** The text is statements with this tree, written with blanks and comments and perhaps an unfinished word or comment. */
  ghost predicate Writes(s: string, ps: seq<Piece>, tail: string, ss: seq<Stmt>, t: Tree) {
    && s == AllShown(ps) + tail && Placed(ps, tail) && IsTail(tail) && !Unclosed(tail)
    && AllWorded(ss) && Toks(ps) == YieldAll(ss) && t == Node([], TreesOf(ss))
  }

  lemma NoRoot(ss: seq<Stmt>)
    ensures [] + TreesOf(ss) == TreesOf(ss)
  {
  }

  lemma WritingOf(s: string, t: Tree)
    requires ParseFresh(s) == Accept(t)
    ensures exists ps, tail, ss :: Writes(s, ps, tail, ss, t)
  {
    var root, toks, clean := Node([], []), TokenStream(s).toks, TokenStream(s).clean;
    AcceptsExactly(root, toks, clean, t);
    var ss :| AllWorded(ss) && toks == YieldAll(ss) && t == Node(root.words, root.kids + TreesOf(ss));
    NoRoot(ss);
    TokensExactly(s);
    var ps, tail :| s == AllShown(ps) + tail && Placed(ps, tail) && IsTail(tail);
    assert Writes(s, ps, tail, ss, t);
  }

  lemma WrittenAccepted(s: string, ps: seq<Piece>, tail: string, ss: seq<Stmt>, t: Tree)
    requires Writes(s, ps, tail, ss, t)
    ensures ParseFresh(s) == Accept(t)
  {
    TokensExactly(s);
    NoRoot(ss);
    var root := Node([], []);
    assert t == Node(root.words, root.kids + TreesOf(ss));
    AcceptsExactly(root, TokenStream(s).toks, TokenStream(s).clean, t);
  }

  /** Texts, exactly: accepted into an empty config with tree `t` are the writings of the statements with that tree. */
  lemma TextsExactly(s: string, t: Tree)
    ensures ParseFresh(s) == Accept(t) <==> exists ps, tail, ss :: Writes(s, ps, tail, ss, t)
  {
    if ParseFresh(s) == Accept(t) {
      WritingOf(s, t);
    }
    if ps, tail, ss :| Writes(s, ps, tail, ss, t) {
      WrittenAccepted(s, ps, tail, ss, t);
    }
  }

  // ---- Comments and blanks do not matter ----

  /** A blank or a comment. */
  predicate Idle(p: Piece) {
    IsPiece(p) && !p.Item?
  }

  /**
   A comment or a blank between any pieces and any text, within a statement too, can be taken out, unless it
   separates a bare word from what would then be part of it: the tokens and the tree are the same.
   */
  lemma IdleIgnored(ps: seq<Piece>, p: Piece, rest: string)
    requires Idle(p) && Placed(ps, Shown(p) + rest) && Placed(ps, rest)
    ensures TokenStream(AllShown(ps) + (Shown(p) + rest)) == TokenStream(AllShown(ps) + rest)
    ensures ParseFresh(AllShown(ps) + (Shown(p) + rest)) == ParseFresh(AllShown(ps) + rest)
  {
    PiecesTokens(ps, Shown(p) + rest);
    PiecesTokens(ps, rest);
    PieceTokens(p, rest);
    assert Cons([], TokenStream(rest)) == TokenStream(rest);
  }
}
