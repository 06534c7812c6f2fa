/**
 The tokenizer of the config parser: a character state machine over an input stream that can step
 back one character.
 */
module ConfigLexer {
  import opened Streams

  datatype TokenType = Start | Normal | StartBlock | EndBlock | Comment | StatementEnd | EndOfFile | Error

  datatype LexState = InitialWhitespace | SingleQuote | DoubleQuote | InComment | InNormal

  /** A token's type and text, and the input behind it. */
  datatype Lexed = Lexed(kind: TokenType, value: string, rest: string)

  predicate Blank(c: char) {
    c in {' ', '\t', '\n', '\r'}
  }

  /** What ends a bare word. A carriage return does not. */
  predicate EndsWord(c: char) {
    c in {' ', '\t', '\n', ';', '{', '}'}
  }

  /** The state machine from a given state, with `value` read so far. */
  function Lex(state: LexState, value: string, s: string): (r: Lexed)
    ensures |r.rest| <= |s|
    decreases |s|
  {
    if s == "" then
      Lexed(if state.SingleQuote? || state.DoubleQuote? then Error else EndOfFile, value, "")
    else
      var c, rest := s[0], s[1..];
      match state
      case InitialWhitespace =>
        if c == '{' then Lexed(StartBlock, [c], rest)
        else if c == '}' then Lexed(EndBlock, [c], rest)
        else if c == ';' then Lexed(StatementEnd, [c], rest)
        else if c == '#' then Lex(InComment, [c], rest)
        else if c == '"' then Lex(DoubleQuote, [c], rest)
        else if c == '\'' then Lex(SingleQuote, [c], rest)
        else if Blank(c) then Lex(InitialWhitespace, value, rest)
        else Lex(InNormal, value + [c], rest)
      case SingleQuote =>
        if c == '\'' then Lexed(Normal, value + [c], rest) else Lex(state, value + [c], rest)
      case DoubleQuote =>
        if c == '"' then Lexed(Normal, value + [c], rest) else Lex(state, value + [c], rest)
      case InComment =>
        if c == '\n' || c == '\r' then Lexed(Comment, value, rest) else Lex(state, value + [c], rest)
      case InNormal =>
        if EndsWord(c) then Lexed(Normal, value, s) else Lex(state, value + [c], rest)
  }

  /** A token that is neither end of file nor an error takes input with it. */
  lemma {:induction false} LexProgress(state: LexState, value: string, s: string)
    ensures var r := Lex(state, value, s);
            && (r.kind !in {EndOfFile, Error} ==> |r.rest| < |s| || (state.InNormal? && s != ""))
            && r.kind != Start
    decreases |s|
  {
    if s != "" {
      var c, rest := s[0], s[1..];
      match state
      case InitialWhitespace =>
        if c == '#' {
          LexProgress(InComment, [c], rest);
        } else if c == '"' {
          LexProgress(DoubleQuote, [c], rest);
        } else if c == '\'' {
          LexProgress(SingleQuote, [c], rest);
        } else if c !in {'{', '}', ';'} {
          LexProgress(if Blank(c) then InitialWhitespace else InNormal, if Blank(c) then value else value + [c], rest);
        }
      case _ =>
        LexProgress(state, value + [c], rest);
    }
  }

  // ---- The tokenizer ----

  method ParseToken(input: InputStream) returns (kind: TokenType, value: string)
    requires input.Valid()
    modifies input
    ensures input.Valid()
    ensures Lexed(kind, value, input.Rest()) == Lex(InitialWhitespace, "", old(input.Rest()))
  {
    var state := InitialWhitespace;
    value := "";
    ghost var result := Lex(InitialWhitespace, "", input.Rest());
    while input.good
      invariant input.Valid() && Lex(state, value, input.Rest()) == result
      decreases input.good, |input.Rest()|
    {
      ghost var before := input.Rest();
      var c := input.Get();
      if !input.good {
        break;
      }
      assert before[0] == c && before[1..] == input.Rest();
      match state {
        case InitialWhitespace =>
          if c == '{' {
            return StartBlock, [c];
          } else if c == '}' {
            return EndBlock, [c];
          } else if c == '#' {
            value, state := [c], InComment;
          } else if c == '"' {
            value, state := [c], DoubleQuote;
          } else if c == '\'' {
            value, state := [c], SingleQuote;
          } else if c == ';' {
            return StatementEnd, [c];
          } else if c == ' ' || c == '\t' || c == '\n' || c == '\r' {
          } else {
            value, state := value + [c], InNormal;
          }
        case SingleQuote =>
          value := value + [c];
          if c == '\'' {
            return Normal, value;
          }
        case DoubleQuote =>
          value := value + [c];
          if c == '"' {
            return Normal, value;
          }
        case InComment =>
          if c == '\n' || c == '\r' {
            return Comment, value;
          }
          value := value + [c];
        case InNormal =>
          if c == ' ' || c == '\t' || c == '\n' || c == ';' || c == '{' || c == '}' {
            input.Unget();
            assert input.Rest() == before;
            return Normal, value;
          }
          value := value + [c];
      }
    }
    assert input.Rest() == "";
    if state == SingleQuote || state == DoubleQuote {
      return Error, value;
    }
    return EndOfFile, value;
  }

  // ---- Token streams ----

  datatype Tok = Word(text: string) | OpenBrace | CloseBrace | Semicolon

  /** The tokens of a text without its comments; `clean` if the text ends outside quotes. */
  datatype Stream = Stream(toks: seq<Tok>, clean: bool)

  function Cons(a: seq<Tok>, b: Stream): Stream {
    Stream(a + b.toks, b.clean)
  }

  function TokenStream(s: string): Stream
    decreases |s|
  {
    LexProgress(InitialWhitespace, "", s);
    var r := Lex(InitialWhitespace, "", s);
    match r.kind
    case EndOfFile => Stream([], true)
    case Error => Stream([], false)
    case Comment => TokenStream(r.rest)
    case Normal => Cons([Word(r.value)], TokenStream(r.rest))
    case StartBlock => Cons([OpenBrace], TokenStream(r.rest))
    case EndBlock => Cons([CloseBrace], TokenStream(r.rest))
    case StatementEnd => Cons([Semicolon], TokenStream(r.rest))
  }
}
