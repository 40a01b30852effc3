/** ValidateReadOnlyStatement (internal/data/session.go) on top of the lexer, and what it lets
    through; SQLEscapeSingleQuotes (internal/db/connect.go) and what an escaped value can do to
    the statement around it. */
module ReadOnlySql {
  import opened Letters
  import opened Separators
  import opened Text
  import opened SqlLexer
  import opened SqlWords

  datatype Verdict =
    | Accepted
    | LexFailed(error: LexError)
    | Empty
    | NotOneStatement
    | NotReadOnly(token: string)
    | ForbiddenOperation(token: string)

  const ALLOWED: set<string> := {"select", "with", "explain", "describe", "show", "summarize", "from"}

  const FORBIDDEN: set<string> := {
    "insert", "update", "delete", "merge", "create", "drop", "alter", "truncate", "copy",
    "attach", "detach", "install", "load", "call", "set", "use", "vacuum"}

  predicate HasOnlyTrailingSemicolon(statement: string) {
    var trimmed := TrimSpace(statement);
    HasSuffix(trimmed, ";") && ';' !in trimmed[..|trimmed| - 1]
  }

  function FirstForbidden(tokens: seq<string>): Verdict {
    if tokens == [] then Accepted
    else if tokens[0] in FORBIDDEN then ForbiddenOperation(tokens[0])
    else FirstForbidden(tokens[1..])
  }

  function Judge(statement: string, lexed: Lexed): Verdict {
    match lexed
    case Bad(error) => LexFailed(error)
    case Words(tokens, semicolons) =>
      if tokens == [] then Empty
      else if semicolons > 1 || (semicolons == 1 && !HasOnlyTrailingSemicolon(statement)) then NotOneStatement
      else if tokens[0] !in ALLOWED then NotReadOnly(tokens[0])
      else FirstForbidden(tokens)
  }

  predicate Accepts(statement: string) {
    Judge(statement, Lex(statement)).Accepted?
  }

  method ValidateReadOnlyStatement(statement: string) returns (verdict: Verdict)
    ensures verdict == Judge(statement, Lex(statement))
  {
    var lexed := SqlTokens(statement);
    verdict := Judge(statement, lexed);
  }

  lemma {:induction false} NoneForbidden(tokens: seq<string>)
    ensures FirstForbidden(tokens).Accepted? <==> forall k :: 0 <= k < |tokens| ==> tokens[k] !in FORBIDDEN
  {
    if tokens != [] {
      NoneForbidden(tokens[1..]);
      assert forall k :: 0 < k < |tokens| ==> tokens[k] == tokens[1..][k - 1];
    }
  }

  /** The word is one of some lower-case keywords, in any case. */
  ghost predicate Among(word: string, keywords: set<string>) {
    exists keyword :: keyword in keywords && SameButCase(word, keyword)
  }

  lemma KeywordsAreLower(keyword: string)
    requires keyword in ALLOWED || keyword in FORBIDDEN
    ensures NoUpper(keyword)
  {
  }

  lemma AmongExactly(word: string, token: string, keywords: set<string>)
    requires keywords <= ALLOWED + FORBIDDEN && SameButCase(word, token) && NoUpper(token)
    ensures token in keywords <==> Among(word, keywords)
  {
    if keyword :| keyword in keywords && SameButCase(word, keyword) {
      KeywordsAreLower(keyword);
      LowerExactly(word, keyword);
      LowerExactly(word, token);
    }
  }

  /** A well-formed statement is accepted exactly when, among the words of its code, the first is
      a reading keyword and none is a mutating one, in any case, and no semicolon in its code is
      followed by anything but white space or joined by another ';' byte. */
  lemma AcceptedWords(s: string) returns (spans: seq<Span>)
    requires Lex(s).Words?
    ensures MaximalRuns(WordBytes(s), spans)
    ensures Accepts(s) <==>
      && spans != []
      && Among(s[spans[0].from..spans[0].to], ALLOWED)
      && (forall k :: 0 <= k < |spans| ==> !Among(s[spans[k].from..spans[k].to], FORBIDDEN))
      && (Lex(s).semicolons == 0 || (Lex(s).semicolons == 1 && HasOnlyTrailingSemicolon(s)))
  {
    spans := TokensAreWordRuns(s);
    NoneForbidden(Lex(s).tokens);
    forall k | 0 <= k < |spans|
      ensures var word := s[spans[k].from..spans[k].to];
        (Lex(s).tokens[k] in ALLOWED <==> Among(word, ALLOWED))
        && (Lex(s).tokens[k] in FORBIDDEN <==> Among(word, FORBIDDEN))
    {
      AmongExactly(s[spans[k].from..spans[k].to], Lex(s).tokens[k], ALLOWED);
      AmongExactly(s[spans[k].from..spans[k].to], Lex(s).tokens[k], FORBIDDEN);
    }
  }

  /** A refusal names the first word of the code if that is not a reading keyword, and otherwise the
      first mutating keyword. */
  lemma RefusalNames(s: string, token: string)
    ensures Judge(s, Lex(s)) == NotReadOnly(token) ==>
      Lex(s).Words? && Lex(s).tokens != [] && token == Lex(s).tokens[0] && token !in ALLOWED
    ensures Judge(s, Lex(s)) == ForbiddenOperation(token) ==>
      && Lex(s).Words? && Lex(s).tokens != [] && Lex(s).tokens[0] in ALLOWED && token in FORBIDDEN
      && exists k :: 0 <= k < |Lex(s).tokens| && Lex(s).tokens[k] == token
                     && forall j :: 0 <= j < k ==> Lex(s).tokens[j] !in FORBIDDEN
    ensures Judge(s, Lex(s)) == Empty <==> Lex(s).Words? && Lex(s).tokens == []
    ensures Judge(s, Lex(s)).LexFailed? <==> Lex(s).Bad?
  {
    if Lex(s).Words? {
      OnlyForbids(Lex(s).tokens);
      if FirstForbidden(Lex(s).tokens) == ForbiddenOperation(token) {
        FirstIsNamed(Lex(s).tokens, token);
      }
    }
  }

  lemma {:induction false} OnlyForbids(tokens: seq<string>)
    ensures FirstForbidden(tokens).Accepted? || FirstForbidden(tokens).ForbiddenOperation?
  {
    if tokens != [] {
      OnlyForbids(tokens[1..]);
    }
  }

  lemma {:induction false} FirstIsNamed(tokens: seq<string>, token: string)
    requires FirstForbidden(tokens) == ForbiddenOperation(token)
    ensures token in FORBIDDEN
    ensures exists k :: 0 <= k < |tokens| && tokens[k] == token && forall j :: 0 <= j < k ==> tokens[j] !in FORBIDDEN
  {
    if tokens[0] in FORBIDDEN {
      assert tokens[0] == token;
    } else {
      FirstIsNamed(tokens[1..], token);
      var k :| 0 <= k < |tokens| - 1 && tokens[1..][k] == token
        && forall j :: 0 <= j < k ==> tokens[1..][j] !in FORBIDDEN;
      assert tokens[k + 1] == token;
      forall j | 0 <= j < k + 1 ensures tokens[j] !in FORBIDDEN {
        assert j > 0 ==> tokens[j] == tokens[1..][j - 1];
      }
    }
  }

  // ---------------------------------------------------------------- composing statements

  function Prepend(tokens: seq<string>, semicolons: nat, st: State): State {
    st.(tokens := tokens + st.tokens, semicolons := semicolons + st.semicolons)
  }

  lemma StepFrame(tokens: seq<string>, semicolons: nat, st: State, c: char)
    ensures Step(Prepend(tokens, semicolons, st), c) == Prepend(tokens, semicolons, Step(st, c))
  {
    assert tokens + (st.tokens + [Lower(st.word)]) == tokens + st.tokens + [Lower(st.word)];
  }

  /** What was read before does not change how the rest is read. */
  lemma {:induction false} RunFrame(tokens: seq<string>, semicolons: nat, st: State, s: string)
    ensures Run(Prepend(tokens, semicolons, st), s) == Prepend(tokens, semicolons, Run(st, s))
    decreases |s|
  {
    if s != "" {
      StepFrame(tokens, semicolons, st, s[0]);
      RunFrame(tokens, semicolons, Step(st, s[0]), s[1..]);
    }
  }

  /** The lexes of two texts with some semicolons between them. */
  function Joined(a: Lexed, between: nat, b: Lexed): Lexed
    requires a.Words?
  {
    match b
    case Bad(error) => Bad(error)
    case Words(tokens, semicolons) => Words(a.tokens + tokens, a.semicolons + between + semicolons)
  }

  /** Lexing goes on independently from a state in which no word is open. */
  lemma RestartsAt(tokens: seq<string>, semicolons: nat, between: nat, b: string)
    ensures Run(State(Code, tokens, "", semicolons + between), b).Finish()
         == Joined(Words(tokens, semicolons), between, Lex(b))
  {
    PrependToStart(tokens, semicolons + between);
    RunFrame(tokens, semicolons + between, START, b);
    FinishFrame(tokens, semicolons, between, Run(START, b));
  }

  lemma PrependToStart(tokens: seq<string>, semicolons: nat)
    ensures Prepend(tokens, semicolons, START) == State(Code, tokens, "", semicolons)
  {
    assert tokens + [] == tokens;
  }

  lemma FinishFrame(tokens: seq<string>, semicolons: nat, between: nat, end: State)
    ensures Prepend(tokens, semicolons + between, end).Finish()
         == Joined(Words(tokens, semicolons), between, end.Finish())
  {
    assert tokens + (end.tokens + [Lower(end.word)]) == tokens + end.tokens + [Lower(end.word)];
  }

  /** A semicolon in code separates two independent lexes. */
  lemma LexAcrossSemicolon(a: string, b: string)
    requires Run(START, a).mode.IsCode()
    ensures Lex(a + ";" + b) == Joined(Lex(a), 1, Lex(b))
  {
    var st := Run(START, a);
    assert a + ";" + b == a + (";" + b) && (";" + b)[1..] == b;
    RunAppend(START, a, ";" + b);
    assert Step(st, ';') == State(Code, Lex(a).tokens, "", Lex(a).semicolons + 1);
    RestartsAt(Lex(a).tokens, Lex(a).semicolons, 1, b);
  }

  lemma {:induction false} NoSemicolonByte(st: State, s: string)
    requires ';' !in s
    ensures Run(st, s).semicolons == st.semicolons
    decreases |s|
  {
    if s != "" {
      NoSemicolonByte(Step(st, s[0]), s[1..]);
    }
  }

  // ---------------------------------------------------------------- the trailing semicolon

  /** A text with only a trailing semicolon, split at it. */
  lemma TrailingSplit(s: string) returns (p: string, w: string)
    requires HasOnlyTrailingSemicolon(s)
    ensures s == p + ";" + w && ';' !in p && ';' !in w && Blank(w)
  {
    var left;
    SemicolonIsNoSpace();
    left, w := TrimSpaceSplit(s, ';');
    p := CutSuffix(left, TrimSpace(s), w);
  }

  lemma SemicolonIsNoSpace()
    ensures SpaceLen([';']) == 0
  {
  }

  lemma CutSuffix(left: string, t: string, right: string) returns (p: string)
    requires HasSuffix(t, ";") && ';' !in t[..|t| - 1] && ';' !in left
    ensures left + t + right == p + ";" + right && ';' !in p
  {
    p := left + t[..|t| - 1];
    assert t == t[..|t| - 1] + ";";
  }

  lemma {:induction false} TrimLeftKeeps(p: string, w: string) returns (q: string)
    requires ';' !in p
    ensures TrimLeft(p + ";" + w) == q + ";" + w && ';' !in q
    decreases |p|
  {
    var s := p + ";" + w;
    var n := SpaceLen(s);
    if n == 0 {
      q := p;
    } else {
      assert n <= |p| by {
        assert s[|p|] == ';';
      }
      assert s[n..] == p[n..] + ";" + w;
      q := TrimLeftKeeps(p[n..], w);
    }
  }

  lemma TrimmedAtSemicolon(q: string, w: string)
    requires Blank(w)
    ensures TrimRight(q + ";" + w) == q + ";"
  {
    TrimRightDropsBlank(q + ";", w);
    EndsInSemicolon(q);
  }

  lemma EndsInSemicolon(q: string)
    ensures SpaceLenBack(q + ";") == 0
  {
    var s := q + ";";
    assert s[|s| - 1..] == ";";
    assert |s| >= 2 ==> s[|s| - 2..][1] == ';';
    assert |s| >= 3 ==> s[|s| - 3..][2] == ';';
  }

  /** hasOnlyTrailingSemicolon says exactly: one ';' byte in the text, and nothing but white
      space after it. */
  lemma OnlyTrailing(p: string, w: string)
    requires ';' !in p
    ensures HasOnlyTrailingSemicolon(p + ";" + w) <==> Blank(w)
  {
    if Blank(w) {
      var q := TrimLeftKeeps(p, w);
      TrimmedAtSemicolon(q, w);
      assert (q + ";")[..|q|] == q;
    }
    if HasOnlyTrailingSemicolon(p + ";" + w) {
      var q, v := TrailingSplit(p + ";" + w);
      CutAtFirst(';', p, w, q, v);
    }
  }

  // ---------------------------------------------------------------- blank text

  /** A token that cannot be a keyword: it starts with a byte outside ASCII. */
  predicate Foreign(t: string) {
    t != "" && t[0] >= '\U{80}'
  }

  lemma {:induction false} BlankRun(st: State, w: string)
    requires st.mode.Code? && (st.word == "" || Foreign(st.word))
    requires forall i :: 0 <= i < |w| ==> w[i] >= '\U{80}' || IsNarrowSpace(w[i])
    requires forall t :: t in st.tokens ==> Foreign(t)
    ensures Run(st, w).mode.Code? && Run(st, w).semicolons == st.semicolons
    ensures forall t :: t in Run(st, w).Flush().tokens ==> Foreign(t)
    decreases |w|
  {
    if w != "" {
      BlankRun(Step(st, w[0]), w[1..]);
    }
  }

  lemma {:induction false} BlankBytes(w: string)
    requires Blank(w)
    ensures forall i :: 0 <= i < |w| ==> w[i] >= '\U{80}' || IsNarrowSpace(w[i])
    decreases |w|
  {
    if w != "" {
      var n := SpaceLen(w);
      BlankBytes(w[n..]);
      assert w == w[..n] + w[n..];
    }
  }

  lemma {:induction false} ForeignAllowed(tokens: seq<string>, more: seq<string>)
    requires forall t :: t in more ==> Foreign(t)
    ensures FirstForbidden(tokens + more) == FirstForbidden(tokens)
    decreases |tokens| + |more|
  {
    if tokens != [] {
      assert (tokens + more)[1..] == tokens[1..] + more;
      ForeignAllowed(tokens[1..], more);
    } else if more != [] {
      assert tokens + more == more && more[0] in more;
      assert forall t | t in FORBIDDEN :: t[0] < '\U{80}';
      ForeignAllowed([], more[1..]);
      assert [] + more[1..] == more[1..];
    }
  }

  lemma SemicolonInside(a: string, b: string)
    requires ';' in a
    ensures !HasOnlyTrailingSemicolon(a + ";" + b)
  {
    var first, rest := FirstCut(';', a);
    assert a + ";" + b == first + ";" + (rest + ";" + b);
    OnlyTrailing(first, rest + ";" + b);
    assert (rest + ";" + b)[|rest|] == ';';
    if Blank(rest + ";" + b) {
      BlankHasNone(rest + ";" + b, ';');
    }
  }

  /** White space after a statement adds no keyword to it. */
  lemma BlankAfter(a: string, b: string)
    requires Lex(a).Words? && Blank(b)
    ensures Lex(b).Words? && Lex(b).semicolons == 0
    ensures FirstForbidden(Lex(a).tokens + Lex(b).tokens) == FirstForbidden(Lex(a).tokens)
    ensures Lex(b).tokens != [] ==> Lex(b).tokens[0] !in ALLOWED
  {
    BlankBytes(b);
    BlankRun(START, b);
    ForeignAllowed(Lex(a).tokens, Lex(b).tokens);
    if Lex(b).tokens != [] {
      assert Lex(b).tokens[0] in Lex(b).tokens;
    }
  }

  /** For any statement that ends in code, following it by a semicolon and anything else is
      accepted exactly when the statement alone is, it has no ';' byte at all (not even in a
      literal), and what follows is white space. */
  lemma SecondStatement(a: string, b: string)
    requires Run(START, a).mode.IsCode()
    ensures Accepts(a + ";" + b) <==> Accepts(a) && ';' !in a && Blank(b)
  {
    LexAcrossSemicolon(a, b);
    if ';' in a {
      SemicolonInside(a, b);
    } else {
      NoSemicolonByte(START, a);
      OnlyTrailing(a, b);
      if Blank(b) {
        BlankAfter(a, b);
      }
    }
  }

  /** An accepted statement with a semicolon in its code has that one ';' byte and no other, with
      only white space after it, and is the same statement as the text before it. */
  lemma AcceptedSemicolon(s: string) returns (p: string, w: string)
    requires Accepts(s) && Lex(s).semicolons > 0
    ensures s == p + ";" + w && ';' !in p && ';' !in w && Blank(w)
    ensures Run(START, p).mode.IsCode() && Accepts(p)
  {
    AcceptedIsTrailing(s);
    p, w := TrailingSplit(s);
    LexedSemicolon(p, w, Lex(s).semicolons);
    SecondStatement(p, w);
  }

  lemma AcceptedIsTrailing(s: string)
    requires Accepts(s) && Lex(s).semicolons > 0
    ensures HasOnlyTrailingSemicolon(s) && Lex(s).semicolons == Run(START, s).semicolons
  {
    JudgedTrailing(s, Lex(s));
    FinishCounts(Run(START, s));
  }

  lemma JudgedTrailing(s: string, lexed: Lexed)
    requires lexed.Words? && lexed.semicolons > 0 && Judge(s, lexed).Accepted?
    ensures HasOnlyTrailingSemicolon(s)
  {
  }

  lemma FinishCounts(st: State)
    ensures st.Finish().Words? ==> st.Finish().semicolons == st.semicolons
  {
  }

  /** The only semicolon byte of a text counts only if it is in code. */
  lemma LexedSemicolon(p: string, w: string, count: nat)
    requires ';' !in p && ';' !in w && count == Run(START, p + ";" + w).semicolons
    ensures Run(START, p).mode.IsCode() <==> count > 0
  {
    assert p + ";" + w == p + ([';'] + w);
    RunThen(START, p, ';', w);
    NoSemicolonByte(START, p);
    NoSemicolonByte(Step(Run(START, p), ';'), w);
    SemicolonCounts(Run(START, p));
  }

  lemma SemicolonCounts(st: State)
    ensures Step(st, ';').semicolons == st.semicolons + if st.mode.IsCode() then 1 else 0
  {
  }

  // ---------------------------------------------------------------- upper and lower case

  lemma TrailingIgnoresCase(s: string, t: string)
    requires SameButCase(s, t) && HasOnlyTrailingSemicolon(s)
    ensures HasOnlyTrailingSemicolon(t)
  {
    var p, w := TrailingSplit(s);
    BlankBytes(w);
    CutAlike(s, t, p, w);
    OnlyTrailing(t[..|p|], w);
  }

  /** A text that differs in case only is cut at the same place, and has the same white space. */
  lemma CutAlike(s: string, t: string, p: string, w: string)
    requires SameButCase(s, t) && s == p + ";" + w && ';' !in p
    requires forall i :: 0 <= i < |w| ==> w[i] >= '\U{80}' || IsNarrowSpace(w[i])
    ensures t == t[..|p|] + ";" + w && ';' !in t[..|p|]
  {
    var n := |p|;
    forall i | 0 <= i < |w| ensures t[n + 1 + i] == w[i] {
      assert s[n + 1 + i] == w[i] && SameLetter(s[n + 1 + i], t[n + 1 + i]);
    }
    assert t[n + 1..] == w;
    assert s[n] == ';' && SameLetter(s[n], t[n]);
    forall i | 0 <= i < n ensures t[i] != ';' {
      assert s[i] == p[i] && SameLetter(s[i], t[i]);
    }
  }

  lemma SameButCaseBack(s: string, t: string)
    requires SameButCase(s, t)
    ensures SameButCase(t, s)
  {
    forall i | 0 <= i < |s| ensures SameLetter(t[i], s[i]) {
      assert SameLetter(s[i], t[i]);
    }
  }

  /** The case of letters makes no difference to what is accepted. */
  lemma AcceptsIgnoresCase(s: string, t: string)
    requires SameButCase(s, t)
    ensures Accepts(s) <==> Accepts(t)
  {
    LexIgnoresCase(s, t);
    if HasOnlyTrailingSemicolon(s) {
      TrailingIgnoresCase(s, t);
    }
    if HasOnlyTrailingSemicolon(t) {
      SameButCaseBack(s, t);
      TrailingIgnoresCase(t, s);
    }
  }

  // ---------------------------------------------------------------- comments

  lemma {:induction false} WordsAreCode(st: State, s: string)
    requires st.word != "" ==> st.mode.Code?
    ensures Run(st, s).word != "" ==> Run(st, s).mode.Code?
    decreases |s|
  {
    if s != "" {
      WordsAreCode(Step(st, s[0]), s[1..]);
    }
  }

  lemma {:induction false} RunLineComment(st: State, c: string)
    requires st.mode.Line? && '\n' !in c
    ensures Run(st, c) == st
    decreases |c|
  {
    if c != "" {
      RunLineComment(st, c[1..]);
    }
  }

  /** Two dashes in code start a comment, also after a dash or a slash. */
  lemma LineStarts(st: State)
    requires st.mode.IsCode() && (st.word != "" ==> st.mode.Code?)
    ensures Step(Step(st, '-'), '-') == State(Line, st.Flush().tokens, "", st.semicolons)
  {
  }

  lemma BlockStarts(st: State)
    requires st.mode.IsCode() && (st.word != "" ==> st.mode.Code?)
    ensures Step(Step(st, '/'), '*') == State(Block, st.Flush().tokens, "", st.semicolons)
  {
  }

  /** What follows two bytes that start a comment in code. */
  lemma RunTwo(a: string, x: char, y: char, rest: string)
    ensures Run(START, a + ([x, y] + rest)) == Run(Step(Step(Run(START, a), x), y), rest)
  {
    RunAppend(START, a, [x, y] + rest);
    assert ([x, y] + rest)[1..] == [y] + rest && ([y] + rest)[1..] == rest;
  }

  /** A line comment anywhere in code contributes no token, no semicolon and no error, whatever it
      says; without a newline it reaches to the end. */
  lemma LineCommentIsInert(a: string, c: string, b: string)
    requires Run(START, a).mode.IsCode() && '\n' !in c
    ensures Lex(a + "--" + c + "\n" + b) == Joined(Lex(a), 0, Lex(b))
    ensures Lex(a + "--" + c) == Lex(a)
  {
    LineShape(a, c, b);
    LexToComment(a, c);
    LexThenNewline(a, c, b);
  }

  lemma LexToComment(a: string, c: string)
    requires Run(START, a).mode.IsCode() && '\n' !in c
    ensures Lex(a + (['-', '-'] + c)) == Lex(a)
  {
    RunToComment(a, c);
  }

  lemma LexThenNewline(a: string, c: string, b: string)
    requires Run(START, a).mode.IsCode() && '\n' !in c
    ensures Lex(a + (['-', '-'] + c) + (['\n'] + b)) == Joined(Lex(a), 0, Lex(b))
  {
    RunThenNewline(a, c, b);
    RestartsAt(Lex(a).tokens, Lex(a).semicolons, 0, b);
  }

  lemma RunToComment(a: string, c: string)
    requires Run(START, a).mode.IsCode() && '\n' !in c
    ensures Run(START, a + (['-', '-'] + c))
         == State(Line, Run(START, a).Flush().tokens, "", Run(START, a).semicolons)
  {
    var st := Run(START, a);
    WordsAreCode(START, a);
    LineStarts(st);
    RunTwo(a, '-', '-', c);
    RunLineComment(State(Line, st.Flush().tokens, "", st.semicolons), c);
  }

  lemma RunThenNewline(a: string, c: string, b: string)
    requires Run(START, a).mode.IsCode() && '\n' !in c
    ensures Run(START, a + (['-', '-'] + c) + (['\n'] + b))
         == Run(State(Code, Run(START, a).Flush().tokens, "", Run(START, a).semicolons), b)
  {
    RunToComment(a, c);
    RunThen(START, a + (['-', '-'] + c), '\n', b);
  }

  lemma LineShape(a: string, c: string, b: string)
    ensures a + "--" + c == a + (['-', '-'] + c)
    ensures a + "--" + c + "\n" + b == a + (['-', '-'] + c) + (['\n'] + b)
  {
  }

  /** The comment c closes at the star-slash after it and not before. */
  predicate Uncut(c: string) {
    forall i :: 0 <= i < |c| ==> !((c + "*/")[i] == '*' && (c + "*/")[i + 1] == '/')
  }

  lemma UncutTail(c: string)
    requires Uncut(c) && c != ""
    ensures Uncut(c[1..])
    ensures c + "*/" == [c[0]] + (c[1..] + "*/")
  {
    var s, t := c + "*/", c[1..] + "*/";
    assert s == [c[0]] + t;
    forall i | 0 <= i < |c| - 1 ensures !(t[i] == '*' && t[i + 1] == '/') {
      assert !(s[i + 1] == '*' && s[i + 2] == '/');
    }
  }

  lemma {:induction false} EndOfUncut(c: string, b: string)
    requires Uncut(c)
    ensures CommentEnd(c + "*/" + b) == |c|
    decreases |c|
  {
    if c == "" {
      assert c + "*/" + b == "*/" + b;
    } else {
      UncutTail(c);
      assert !((c + "*/")[0] == '*' && (c + "*/")[1] == '/');
      EndOfUncut(c[1..], b);
      FirstTwo(c, b);
    }
  }

  lemma FirstTwo(c: string, b: string)
    requires c != ""
    ensures var s := c + "*/" + b;
      s[0] == (c + "*/")[0] && s[1] == (c + "*/")[1] && s[1..] == c[1..] + "*/" + b
  {
  }

  /** The same for block comments. */
  lemma BlockCommentIsInert(a: string, c: string, b: string)
    requires Run(START, a).mode.IsCode() && Uncut(c)
    ensures Lex(a + "/*" + c + "*/" + b) == Joined(Lex(a), 0, Lex(b))
  {
    var st := Run(START, a);
    var inside := State(Block, st.Flush().tokens, "", st.semicolons);
    var rest := c + "*/" + b;
    WordsAreCode(START, a);
    BlockStarts(st);
    assert a + "/*" + c + "*/" + b == a + (['/', '*'] + rest);
    RunTwo(a, '/', '*', rest);
    EndOfUncut(c, b);
    RunComment(inside, rest);
    assert rest[|c| + 2..] == b;
    RestartsAt(Lex(a).tokens, Lex(a).semicolons, 0, b);
  }

  // ---------------------------------------------------------------- quoted identifiers

  lemma {:induction false} RunIdentifier(st: State, v: string)
    requires st.mode == Quote('"') && '"' !in v
    ensures Run(st, v) == st
    decreases |v|
  {
    if v != "" {
      RunIdentifier(st, v[1..]);
    }
  }

  /** Nor does a quoted identifier contribute anything. */
  lemma IdentifierIsInert(a: string, v: string, b: string)
    requires Run(START, a).mode.IsCode() && '"' !in v
    ensures Lex(a + "\"" + v + "\"" + b) == Joined(Lex(a), 0, Lex(b))
  {
    var st := Run(START, a);
    var inside := Step(st, '"');
    IdentifierShape(a, v, b);
    RunThen(START, a, '"', v + (['"'] + b));
    RunIdentifier(inside, v);
    RunThen(inside, v, '"', b);
    RestartsAt(Lex(a).tokens, Lex(a).semicolons, 0, b);
  }

  lemma IdentifierShape(a: string, v: string, b: string)
    ensures a + "\"" + v + "\"" + b == a + (['"'] + (v + (['"'] + b)))
  {
  }

  // ---------------------------------------------------------------- escaped values

  /** strings.ReplaceAll(v, "'", "''"). */
  function Escape(v: string): string {
    if v == "" then "" else (if v[0] == '\'' then "''" else [v[0]]) + Escape(v[1..])
  }

  /** The value of a literal whose opening quote has been read: a doubled quote stands for one. */
  function LiteralValue(s: string): string
    decreases |s|
  {
    if s == "" then ""
    else if s[0] != '\'' then [s[0]] + LiteralValue(s[1..])
    else if |s| > 1 && s[1] == '\'' then "'" + LiteralValue(s[2..])
    else ""
  }

  function Quoted(v: string): string {
    "'" + Escape(v) + "'"
  }

  /** Any value, escaped, is read back whole as one literal, as long as no quote follows it. */
  lemma {:induction false} EscapedReadsBack(v: string, rest: string)
    ensures LiteralEnd(Escape(v) + "'" + rest, '\'') == |Escape(v)| + 1 <==> (rest == "" || rest[0] != '\'')
    ensures rest == "" || rest[0] != '\'' ==> LiteralValue(Escape(v) + "'" + rest) == v
    decreases |v|
  {
    var s := Escape(v) + "'" + rest;
    if v == "" {
      assert s == "'" + rest;
      if rest != "" && rest[0] == '\'' {
        assert s[1] == '\'';
      }
    } else {
      EscapedReadsBack(v[1..], rest);
      var tail := Escape(v[1..]) + "'" + rest;
      if v[0] == '\'' {
        assert s[2..] == tail;
      } else {
        assert s[1..] == tail;
      }
    }
  }

  lemma {:induction false} RunEscaped(st: State, v: string)
    requires st.mode == Quote('\'') && st.word == ""
    ensures Run(st, Escape(v)) == st
    decreases |v|
  {
    if v != "" {
      var head := if v[0] == '\'' then "''" else [v[0]];
      RunAppend(st, head, Escape(v[1..]));
      assert v[0] == '\'' ==> head[1..] == "'";
      RunEscaped(st, v[1..]);
    }
  }

  /** A quoted, escaped value put anywhere in the code of a statement contributes no token, no
      semicolon and no error, whatever the value is and whatever stands next to it. */
  lemma QuotedIsInert(a: string, v: string, b: string)
    requires Run(START, a).mode.IsCode()
    ensures Lex(a + Quoted(v) + b) == Joined(Lex(a), 0, Lex(b))
  {
    QuotedShape(a, v, b);
    RunAppend(START, a, ['\''] + (Escape(v) + ("'" + b)));
    RunQuoted(Run(START, a), v, b);
    RestartsAt(Lex(a).tokens, Lex(a).semicolons, 0, b);
  }

  /** Reading a quoted value leaves only its flush of the word before. */
  lemma RunQuoted(st: State, v: string, b: string)
    requires st.mode.IsCode()
    ensures Run(st, ['\''] + (Escape(v) + ("'" + b))) == Run(State(Code, st.Flush().tokens, "", st.semicolons), b)
  {
    var open := Step(st, '\'');
    TailOf('\'', Escape(v) + ("'" + b));
    RunThen(open, Escape(v), '\'', b);
    RunEscaped(open, v);
  }

  lemma TailOf(c: char, s: string)
    ensures ([c] + s)[0] == c && ([c] + s)[1..] == s
  {
  }

  lemma QuotedShape(a: string, v: string, b: string)
    ensures a + Quoted(v) + b == a + (['\''] + (Escape(v) + ("'" + b)))
  {
  }

  lemma RunThen(st: State, a: string, c: char, b: string)
    ensures Run(st, a + ([c] + b)) == Run(Step(Run(st, a), c), b)
  {
    RunAppend(st, a, [c] + b);
    assert ([c] + b)[1..] == b;
  }

  lemma {:induction false} RunWord(st: State, word: string)
    requires st.mode.Code? && forall i :: 0 <= i < |word| ==> IsWordChar(word[i])
    ensures Run(st, word) == st.(word := st.word + word)
    decreases |word|
  {
    if word == "" {
      assert st.word + word == st.word;
    } else {
      RunWord(Step(st, word[0]), word[1..]);
      assert st.word + word == st.word + [word[0]] + word[1..];
    }
  }

  /** A word, a space and a quoted value lex as the word alone, for every value; and the value
      is read back from the literal. loadGraphExtension builds LOAD statements this way. */
  lemma CommandWithLiteral(command: string, value: string)
    requires command != "" && forall i :: 0 <= i < |command| ==> IsWordChar(command[i])
    ensures Lex(command + " " + Quoted(value)) == Words([Lower(command)], 0)
    ensures LiteralValue((command + " " + Quoted(value))[|command| + 2..]) == value
  {
    CommandLexes(command);
    QuotedIsInert(command + " ", value, "");
    assert command + " " + Quoted(value) + "" == command + " " + Quoted(value);
    EscapedReadsBack(value, "");
    assert (command + " " + Quoted(value))[|command| + 2..] == Escape(value) + "'" + "";
  }

  lemma CommandLexes(command: string)
    requires command != "" && forall i :: 0 <= i < |command| ==> IsWordChar(command[i])
    ensures Run(START, command + " ") == State(Code, [Lower(command)], "", 0)
  {
    RunWord(START, command);
    WordRead(command);
    RunThen(START, command, ' ', "");
    SpaceAfter(command);
  }

  lemma WordRead(word: string)
    requires word != ""
    ensures Step(START.(word := "" + word), ' ') == State(Code, [Lower(word)], "", 0)
  {
    assert "" + word == word && [] + [Lower(word)] == [Lower(word)];
  }

  lemma SpaceAfter(command: string)
    ensures command + ([' '] + "") == command + " "
  {
  }
}
