/** The read-only SQL check of data sessions (internal/data/session.go) and the
    single-quote escaper of internal/db/connect.go. Statements are byte strings. */
module SqlLexer {
  import opened Letters

  datatype LexError = UnterminatedQuote | UnterminatedComment

  datatype Lexed = Words(tokens: seq<string>, semicolons: nat) | Bad(error: LexError)

  // ---------------------------------------------------------------- the automaton

  /** Where a reader is after some bytes. Dash and Slash are code just after a '-' or '/',
      Star is a block comment just after a '*'. */
  datatype Mode = Code | Dash | Slash | Quote(quote: char) | Line | Block | Star {
    predicate IsCode() { Code? || Dash? || Slash? }
  }

  datatype State = State(mode: Mode, tokens: seq<string>, word: string, semicolons: nat) {
    function Flush(): State {
      if word == "" then this else this.(tokens := tokens + [Lower(word)], word := "")
    }

    function Finish(): Lexed {
      match mode
      case Quote(_) => Bad(UnterminatedQuote)
      case Block => Bad(UnterminatedComment)
      case Star => Bad(UnterminatedComment)
      case _ => Words(Flush().tokens, semicolons)
    }
  }

  const START := State(Code, [], "", 0)

  /** unicode.IsLetter of a byte read as a code point, or an underscore. */
  predicate IsWordChar(c: char) {
    || 'a' <= c <= 'z' || 'A' <= c <= 'Z' || c == '_'
    || c in {'\U{AA}', '\U{B5}', '\U{BA}'}
    || '\U{C0}' <= c <= '\U{D6}' || '\U{D8}' <= c <= '\U{F6}' || '\U{F8}' <= c <= '\U{FF}'
  }

  function CodeStep(st: State, c: char): State {
    if c == '\'' || c == '"' then st.Flush().(mode := Quote(c))
    else if c == ';' then st.Flush().(mode := Code, semicolons := st.semicolons + 1)
    else if IsWordChar(c) then st.(mode := Code, word := st.word + [c])
    else st.Flush().(mode := if c == '-' then Dash else if c == '/' then Slash else Code)
  }

  /** One byte at a time, with no look-ahead: a doubled quote closes a literal and reopens it. */
  function Step(st: State, c: char): State {
    match st.mode
    case Code => CodeStep(st, c)
    case Dash => if c == '-' then st.(mode := Line) else CodeStep(st, c)
    case Slash => if c == '*' then st.(mode := Block) else CodeStep(st, c)
    case Quote(q) => if c == q then st.(mode := Code) else st
    case Line => if c == '\n' then st.(mode := Code) else st
    case Block => if c == '*' then st.(mode := Star) else st
    case Star => if c == '/' then st.(mode := Code) else if c == '*' then st else st.(mode := Block)
  }

  function Run(st: State, s: string): State
    decreases |s|
  {
    if s == "" then st else Run(Step(st, s[0]), s[1..])
  }

  function Lex(s: string): Lexed {
    Run(START, s).Finish()
  }

  lemma {:induction false} RunAppend(st: State, a: string, b: string)
    ensures Run(st, a + b) == Run(Run(st, a), b)
    decreases |a|
  {
    if a == "" {
      assert a + b == b;
    } else {
      assert (a + b)[1..] == a[1..] + b;
      RunAppend(Step(st, a[0]), a[1..], b);
    }
  }

  lemma RunOne(st: State, s: string, i: nat)
    requires i < |s|
    ensures Run(st, s[..i + 1]) == Step(Run(st, s[..i]), s[i])
    ensures Run(st, s[i..]) == Run(Step(st, s[i]), s[i + 1..])
  {
    assert s[..i + 1] == s[..i] + [s[i]];
    RunAppend(st, s[..i], [s[i]]);
    assert Run(Run(st, s[..i]), [s[i]]) == Step(Run(st, s[..i]), s[i]);
  }

  // ---------------------------------------------------------------- the source's scanner

  // strings.Index for the two bytes star, slash: the first place they occur, or -1.
  function CommentEnd(s: string): (end: int)
    ensures -1 <= end <= |s| - 2 || end == -1
  {
    if |s| < 2 then -1
    else if s[0] == '*' && s[1] == '/' then 0
    else var rest := CommentEnd(s[1..]); if rest < 0 then -1 else rest + 1
  }

  /** Inside a block comment the automaton leaves at the first star-slash and nowhere else. */
  lemma {:induction false} RunComment(st: State, s: string)
    requires st.mode.Block? || (st.mode.Star? && (s == "" || s[0] != '/'))
    ensures CommentEnd(s) >= 0 ==> Run(st, s) == Run(st.(mode := Code), s[CommentEnd(s) + 2..])
    ensures CommentEnd(s) < 0 ==> Run(st, s).mode.Block? || Run(st, s).mode.Star?
    decreases |s|
  {
    if |s| >= 2 {
      if s[0] == '*' && s[1] == '/' {
        assert s[1..][1..] == s[2..];
      } else {
        RunComment(Step(st, s[0]), s[1..]);
      }
    } else if |s| == 1 {
      assert Run(st, s) == Step(st, s[0]);
    }
  }

  /** The length of the rest of a literal up to and with its closing quote, or -1. A doubled
      quote is an escaped quote and does not close. */
  function LiteralEnd(s: string, quote: char): (end: int)
    ensures end <= |s|
    decreases |s|
  {
    if s == "" then -1
    else if s[0] != quote then After(1, LiteralEnd(s[1..], quote))
    else if |s| > 1 && s[1] == quote then After(2, LiteralEnd(s[2..], quote))
    else 1
  }

  function After(n: nat, end: int): int {
    if end < 0 then -1 else n + end
  }

  /** Reading a doubled quote as an escape is the same as closing the literal and reopening it. */
  lemma {:induction false} RunLiteral(st: State, s: string)
    requires st.mode.Quote? && st.mode.quote in {'\'', '"'} && st.word == ""
    ensures var end := LiteralEnd(s, st.mode.quote);
            if end < 0 then Run(st, s) == st else Run(st, s) == Run(st.(mode := Code), s[end..])
    decreases |s|
  {
    var q := st.mode.quote;
    if s == "" {
    } else if s[0] != q {
      RunLiteral(st, s[1..]);
      var end := LiteralEnd(s[1..], q);
      assert end >= 0 ==> s[1..][end..] == s[1 + end..];
    } else if |s| > 1 && s[1] == q {
      assert s[1..][1..] == s[2..];
      assert Run(st, s) == Run(st, s[2..]);
      RunLiteral(st, s[2..]);
      var end := LiteralEnd(s[2..], q);
      assert end >= 0 ==> s[2..][end..] == s[2 + end..];
    }
  }

  method SkipLiteral(statement: string, start: nat, quote: char) returns (index: nat, closed: bool)
    requires start <= |statement|
    ensures closed <==> LiteralEnd(statement[start..], quote) >= 0
    ensures closed ==> index == start + LiteralEnd(statement[start..], quote)
  {
    index := start;
    while index < |statement|
      invariant start <= index <= |statement|
      invariant LiteralEnd(statement[start..], quote) == After(index - start, LiteralEnd(statement[index..], quote))
    {
      if statement[index] == quote {
        if index + 1 < |statement| && statement[index + 1] == quote {
          assert statement[index..][2..] == statement[index + 2..];
          index := index + 2;
          continue;
        }
        return index + 1, true;
      }
      assert statement[index..][1..] == statement[index + 1..];
      index := index + 1;
    }
    closed := false;
  }

  method SkipLine(statement: string, start: nat, ghost st: State) returns (index: nat)
    requires start <= |statement|
    requires st.mode.Line? && st.word == ""
    ensures start <= index <= |statement|
    ensures Run(st, statement[start..]).Finish() == Run(st.(mode := Code), statement[index..]).Finish()
  {
    index := start;
    while index < |statement| && statement[index] != '\n'
      invariant start <= index <= |statement|
      invariant Run(st, statement[start..]) == Run(st, statement[index..])
    {
      RunOne(st, statement, index);
      index := index + 1;
    }
    if index < |statement| {
      RunOne(st, statement, index);
      RunOne(st.(mode := Code), statement, index);
    }
  }

  /** A single '-' or '/' has no effect on the bytes after it that do not make it a comment. */
  lemma PendingIsCode(st: State, s: string)
    requires st.mode.IsCode() && st.word == ""
    requires s != "" ==> !(st.mode.Dash? && s[0] == '-') && !(st.mode.Slash? && s[0] == '*')
    ensures Run(st, s).Finish() == Run(st.(mode := Code), s).Finish()
  {
  }

  lemma AtQuote(st: State, s: string)
    requires st.mode.Code? && s != "" && s[0] in {'\'', '"'}
    ensures var end := LiteralEnd(s[1..], s[0]);
            if end < 0 then Run(st, s).Finish() == Bad(UnterminatedQuote)
            else Run(st, s) == Run(st.Flush(), s[end + 1..])
  {
    RunLiteral(st.Flush().(mode := Quote(s[0])), s[1..]);
    var end := LiteralEnd(s[1..], s[0]);
    assert end >= 0 ==> s[1..][end..] == s[end + 1..];
  }

  lemma AtComment(st: State, s: string)
    requires st.mode.Code? && |s| >= 2 && s[0] == '/' && s[1] == '*'
    ensures var end := CommentEnd(s[2..]);
            if end < 0 then Run(st, s).Finish() == Bad(UnterminatedComment)
            else Run(st, s) == Run(st.Flush(), s[end + 4..])
  {
    assert s[1..][1..] == s[2..];
    assert Run(st, s) == Run(st.Flush().(mode := Block), s[2..]);
    RunComment(st.Flush().(mode := Block), s[2..]);
    var end := CommentEnd(s[2..]);
    assert end >= 0 ==> s[2..][end + 2..] == s[end + 4..];
  }

  lemma AtLine(st: State, s: string)
    requires st.mode.Code? && |s| >= 2 && s[0] == s[1] == '-'
    ensures Run(st, s) == Run(st.Flush().(mode := Line), s[2..])
  {
    assert s[1..][1..] == s[2..];
  }

  lemma AtOther(st: State, s: string)
    requires st.mode.Code? && s != "" && !IsWordChar(s[0]) && s[0] !in {'\'', '"', ';'}
    requires |s| >= 2 ==> !(s[0] == s[1] == '-') && !(s[0] == '/' && s[1] == '*')
    ensures Run(st, s).Finish() == Run(st.Flush(), s[1..]).Finish()
  {
    PendingIsCode(Step(st, s[0]), s[1..]);
  }

  function Flushed(tokens: seq<string>, word: string): seq<string> {
    if word == "" then tokens else tokens + [Lower(word)]
  }

  /** The same at an index of the statement. */
  lemma AtQuoteIn(st: State, s: string, i: nat)
    requires st.mode.Code? && i < |s| && s[i] in {'\'', '"'}
    ensures var end := LiteralEnd(s[i + 1..], s[i]);
      if end < 0 then Run(st, s[i..]).Finish() == Bad(UnterminatedQuote)
      else Run(st, s[i..]) == Run(st.Flush(), s[i + 1 + end..])
  {
    AtQuote(st, s[i..]);
    Tail(s, i, 1);
    var end := LiteralEnd(s[i + 1..], s[i]);
    if end >= 0 { Tail(s, i, end + 1); }
  }

  lemma AtCommentIn(st: State, s: string, i: nat)
    requires st.mode.Code? && i + 1 < |s| && s[i] == '/' && s[i + 1] == '*'
    ensures var end := CommentEnd(s[i + 2..]);
      if end < 0 then Run(st, s[i..]).Finish() == Bad(UnterminatedComment)
      else Run(st, s[i..]) == Run(st.Flush(), s[i + end + 4..])
  {
    AtComment(st, s[i..]);
    Tail(s, i, 2);
    var end := CommentEnd(s[i + 2..]);
    if end >= 0 { Tail(s, i, end + 4); }
  }

  lemma AtLineIn(st: State, s: string, i: nat)
    requires st.mode.Code? && i + 1 < |s| && s[i] == s[i + 1] == '-'
    ensures Run(st, s[i..]) == Run(st.Flush().(mode := Line), s[i + 2..])
  {
    AtLine(st, s[i..]);
    Tail(s, i, 2);
  }

  lemma AtOtherIn(st: State, s: string, i: nat)
    requires st.mode.Code? && i < |s| && !IsWordChar(s[i]) && s[i] !in {'\'', '"', ';'}
    requires i + 1 < |s| ==> !(s[i] == s[i + 1] == '-') && !(s[i] == '/' && s[i + 1] == '*')
    ensures Run(st, s[i..]).Finish() == Run(st.Flush(), s[i + 1..]).Finish()
  {
    AtOther(st, s[i..]);
    Tail(s, i, 1);
  }

  lemma AtCodeIn(st: State, s: string, i: nat)
    requires st.mode.Code? && i < |s|
    ensures Run(st, s[i..]) == Run(CodeStep(st, s[i]), s[i + 1..])
  {
    Tail(s, i, 1);
  }

  lemma Tail(s: string, i: nat, k: nat)
    requires i + k <= |s|
    ensures s[i..][k..] == s[i + k..]
  {
  }

  /** sqlTokens: jumps over literals and comments with an index, and computes exactly what the
      automaton computes. */
  method SqlTokens(statement: string) returns (r: Lexed)
    ensures r == Lex(statement)
  {
    var tokens: seq<string>, current, semicolons: nat := [], "", 0;
    var index := 0;
    ghost var st := START;
    while index < |statement|
      invariant 0 <= index <= |statement|
      invariant st == State(Code, tokens, current, semicolons)
      invariant Lex(statement) == Run(st, statement[index..]).Finish()
    {
      var c := statement[index];
      if c == '\'' || c == '"' {
        AtQuoteIn(st, statement, index);
        tokens, current := Flushed(tokens, current), "";
        var closed;
        index, closed := SkipLiteral(statement, index + 1, c);
        if !closed {
          return Bad(UnterminatedQuote);
        }
        st := st.Flush();
      } else if c == '-' && index + 1 < |statement| && statement[index + 1] == '-' {
        AtLineIn(st, statement, index);
        tokens, current := Flushed(tokens, current), "";
        index := SkipLine(statement, index + 2, st.Flush().(mode := Line));
        st := st.Flush();
      } else if c == '/' && index + 1 < |statement| && statement[index + 1] == '*' {
        AtCommentIn(st, statement, index);
        tokens, current := Flushed(tokens, current), "";
        var end := CommentEnd(statement[index + 2..]);
        if end < 0 {
          return Bad(UnterminatedComment);
        }
        index := index + end + 4;
        st := st.Flush();
      } else if c == ';' {
        AtCodeIn(st, statement, index);
        tokens, current := Flushed(tokens, current), "";
        semicolons := semicolons + 1;
        index := index + 1;
        st := CodeStep(st, c);
      } else if IsWordChar(c) {
        AtCodeIn(st, statement, index);
        current := current + [c];
        index := index + 1;
        st := CodeStep(st, c);
      } else {
        AtOtherIn(st, statement, index);
        tokens, current := Flushed(tokens, current), "";
        index := index + 1;
        st := st.Flush();
      }
    }
    r := Words(Flushed(tokens, current), semicolons);
  }
}
