/** What the tokens of internal/data/session.go's lexer are: the maximal runs of word bytes in
    the code of a statement. */
module SqlWords {
  import opened Letters
  import opened SqlLexer

  /** Byte i of s is a word byte that the automaton reads outside literals and comments. */
  predicate WordAt(s: string, i: nat)
    requires i < |s|
  {
    Run(START, s[..i]).mode.IsCode() && IsWordChar(s[i])
  }

  /** Which bytes of s are such word bytes. */
  function WordBytes(s: string): (flags: seq<bool>)
    ensures |flags| == |s|
  {
    seq(|s|, i requires 0 <= i < |s| => WordAt(s, i))
  }

  /** Of the ASCII bytes exactly the letters, which have another case, and the underscore are word bytes;
      of those from 0xC0 on all but the signs for multiplication and division; between them only the
      ordinal indicators and the micro sign. */
  lemma WordBytesExactly(c: char)
    requires c <= '\U{FF}'
    ensures c < '\U{80}' ==> (IsWordChar(c) <==> c == '_' || exists d :: d != c && SameLetter(c, d))
    ensures '\U{80}' <= c < '\U{C0}' ==> (IsWordChar(c) <==> c in ['\U{AA}', '\U{B5}', '\U{BA}'])
    ensures '\U{C0}' <= c ==> (IsWordChar(c) <==> c != '\U{D7}' && c != '\U{F7}')
  {
    if 'A' <= c <= 'Z' {
      assert SameLetter(c, c - 'A' + 'a');
    }
    if 'a' <= c <= 'z' {
      assert SameLetter(c, c - 'a' + 'A');
    }
  }

  datatype Span = Span(from: nat, to: nat)

  /** The spans are exactly the maximal runs of set flags, in order. */
  ghost predicate MaximalRuns(flags: seq<bool>, spans: seq<Span>) {
    && (forall k :: 0 <= k < |spans| ==> spans[k].from < spans[k].to <= |flags|)
    && (forall j, k :: 0 <= j < k < |spans| ==> spans[j].to < spans[k].from)
    && (forall i :: 0 <= i < |flags| ==> (flags[i] <==> Inside(spans, i)))
  }

  ghost predicate Inside(spans: seq<Span>, i: nat) {
    exists k :: 0 <= k < |spans| && spans[k].from <= i < spans[k].to
  }

  /** The run still open after n flags of which the last len are set; no run if len is 0. */
  function Open(n: nat, len: nat): seq<Span>
    requires len <= n
  {
    if len == 0 then [] else [Span(n - len, n)]
  }

  lemma RunGrows(flags: seq<bool>, closed: seq<Span>, len: nat)
    requires len <= |flags| && MaximalRuns(flags, closed + Open(|flags|, len))
    requires forall k :: 0 <= k < |closed| ==> closed[k].to < |flags| - len
    ensures MaximalRuns(flags + [true], closed + Open(|flags| + 1, len + 1))
  {
    var before, after := closed + Open(|flags|, len), closed + Open(|flags| + 1, len + 1);
    assert forall k :: 0 <= k < |closed| ==> after[k] == before[k];
    forall i | 0 <= i <= |flags| ensures (flags + [true])[i] <==> Inside(after, i) {
      if i < |flags| {
        OpenGrows(closed, |flags|, len, i);
      } else {
        assert after[|closed|].from <= i < after[|closed|].to;
      }
    }
  }

  lemma OpenGrows(closed: seq<Span>, n: nat, len: nat, i: nat)
    requires len <= n && i < n
    ensures Inside(closed + Open(n, len), i) <==> Inside(closed + Open(n + 1, len + 1), i)
  {
    var before, after := closed + Open(n, len), closed + Open(n + 1, len + 1);
    if Inside(before, i) {
      var k :| 0 <= k < |before| && before[k].from <= i < before[k].to;
      assert after[k].from <= i < after[k].to;
    }
    if Inside(after, i) {
      var k :| 0 <= k < |after| && after[k].from <= i < after[k].to;
      assert before[k].from <= i < before[k].to;
    }
  }

  lemma RunRests(flags: seq<bool>, spans: seq<Span>)
    requires MaximalRuns(flags, spans)
    ensures MaximalRuns(flags + [false], spans)
  {
    forall i | 0 <= i <= |flags| ensures (flags + [false])[i] <==> Inside(spans, i) {
    }
  }

  /** The lower-cased texts of the spans. */
  function Texts(s: string, spans: seq<Span>): seq<string>
    requires forall k :: 0 <= k < |spans| ==> spans[k].from <= spans[k].to <= |s|
  {
    if spans == [] then []
    else
      var last := |spans| - 1;
      Texts(s, spans[..last]) + [Lower(s[spans[last].from..spans[last].to])]
  }

  /** After the bytes with these flags the automaton's tokens are the texts of the closed runs,
      and its word is the text of the open one. */
  ghost predicate Tracks(s: string, flags: seq<bool>, st: State, closed: seq<Span>)
    requires |flags| <= |s|
  {
    && |st.word| <= |flags|
    && st.word == s[|flags| - |st.word|..|flags|]
    && (forall k :: 0 <= k < |closed| ==> closed[k].from <= closed[k].to < |flags| - |st.word|)
    && st.tokens == Texts(s, closed)
    && (st.word != "" ==> st.mode.Code?)
    && MaximalRuns(flags, closed + Open(|flags|, |st.word|))
  }

  lemma TextsAppend(s: string, spans: seq<Span>, last: Span)
    requires forall k :: 0 <= k < |spans| ==> spans[k].from <= spans[k].to <= |s|
    requires last.from <= last.to <= |s|
    ensures Texts(s, spans + [last]) == Texts(s, spans) + [Lower(s[last.from..last.to])]
  {
    assert (spans + [last])[..|spans|] == spans;
  }

  lemma FlushCloses(s: string, flags: seq<bool>, st: State, closed: seq<Span>)
    requires |flags| <= |s| && Tracks(s, flags, st, closed)
    ensures var spans := closed + Open(|flags|, |st.word|);
      && (forall k :: 0 <= k < |spans| ==> spans[k].from <= spans[k].to <= |flags|)
      && st.Flush().tokens == Texts(s, spans)
  {
    if st.word == "" {
      assert closed + Open(|flags|, 0) == closed;
    } else {
      TextsAppend(s, closed, Span(|flags| - |st.word|, |flags|));
    }
  }

  /** Bytes other than the code's word bytes leave no word open and add no token but the open one. */
  lemma RestStep(st: State, c: char)
    requires !(st.mode.IsCode() && IsWordChar(c))
    requires st.word != "" ==> st.mode.Code?
    ensures Step(st, c).word == "" && Step(st, c).tokens == st.Flush().tokens
  {
  }

  lemma WordStep(st: State, c: char)
    requires st.mode.IsCode() && IsWordChar(c)
    ensures Step(st, c) == st.(mode := Code, word := st.word + [c])
  {
  }

  lemma WordBytesGrow(s: string, n: nat)
    requires n < |s|
    ensures WordBytes(s)[..n + 1]
         == WordBytes(s)[..n] + [Run(START, s[..n]).mode.IsCode() && IsWordChar(s[n])]
  {
    assert WordBytes(s)[n] == WordAt(s, n);
  }

  lemma {:induction false} TracksPrefix(s: string, n: nat) returns (closed: seq<Span>)
    requires n <= |s|
    ensures Tracks(s, WordBytes(s)[..n], Run(START, s[..n]), closed)
  {
    if n == 0 {
      closed := [];
    } else {
      closed := TracksPrefix(s, n - 1);
      RunOne(START, s, n - 1);
      WordBytesGrow(s, n - 1);
      closed := TracksStep(s, WordBytes(s)[..n - 1], Run(START, s[..n - 1]), closed);
    }
  }

  lemma TracksStep(s: string, flags: seq<bool>, st: State, closed: seq<Span>) returns (after: seq<Span>)
    requires |flags| < |s| && Tracks(s, flags, st, closed)
    ensures var c := s[|flags|];
      Tracks(s, flags + [st.mode.IsCode() && IsWordChar(c)], Step(st, c), after)
  {
    var c := s[|flags|];
    if st.mode.IsCode() && IsWordChar(c) {
      after := closed;
      TracksWord(s, flags, st, closed);
    } else {
      after := closed + Open(|flags|, |st.word|);
      TracksRest(s, flags, st, closed);
    }
  }

  lemma TracksWord(s: string, flags: seq<bool>, st: State, closed: seq<Span>)
    requires |flags| < |s| && Tracks(s, flags, st, closed)
    requires st.mode.IsCode() && IsWordChar(s[|flags|])
    ensures Tracks(s, flags + [true], Step(st, s[|flags|]), closed)
  {
    var n, len := |flags|, |st.word|;
    WordStep(st, s[n]);
    RunGrows(flags, closed, len);
    assert s[n - len..n] + [s[n]] == s[n - len..n + 1];
  }

  lemma TracksRest(s: string, flags: seq<bool>, st: State, closed: seq<Span>)
    requires |flags| < |s| && Tracks(s, flags, st, closed)
    requires !(st.mode.IsCode() && IsWordChar(s[|flags|]))
    ensures Tracks(s, flags + [false], Step(st, s[|flags|]), closed + Open(|flags|, |st.word|))
  {
    var after := closed + Open(|flags|, |st.word|);
    RestStep(st, s[|flags|]);
    FlushCloses(s, flags, st, closed);
    RunRests(flags, after);
    assert after + Open(|flags| + 1, 0) == after;
  }

  lemma {:induction false} TextsAt(s: string, spans: seq<Span>)
    requires forall k :: 0 <= k < |spans| ==> spans[k].from <= spans[k].to <= |s|
    ensures |Texts(s, spans)| == |spans|
    ensures forall k :: 0 <= k < |spans| ==> Texts(s, spans)[k] == Lower(s[spans[k].from..spans[k].to])
  {
    if spans != [] {
      TextsAt(s, spans[..|spans| - 1]);
    }
  }

  /** The tokens of a well-formed statement are its maximal runs of word bytes outside literals
      and comments, in order, each without upper-case letters and otherwise as it stands there. */
  lemma TokensAreWordRuns(s: string) returns (spans: seq<Span>)
    requires Lex(s).Words?
    ensures MaximalRuns(WordBytes(s), spans)
    ensures |Lex(s).tokens| == |spans|
    ensures forall k :: 0 <= k < |spans| ==>
      SameButCase(s[spans[k].from..spans[k].to], Lex(s).tokens[k]) && NoUpper(Lex(s).tokens[k])
  {
    var closed := TracksPrefix(s, |s|);
    assert s[..|s|] == s && WordBytes(s)[..|s|] == WordBytes(s);
    FlushCloses(s, WordBytes(s), Run(START, s), closed);
    spans := closed + Open(|s|, |Run(START, s).word|);
    TextsAt(s, spans);
    forall k | 0 <= k < |spans|
      ensures SameButCase(s[spans[k].from..spans[k].to], Lex(s).tokens[k]) && NoUpper(Lex(s).tokens[k])
    {
      LowerExactly(s[spans[k].from..spans[k].to], Lex(s).tokens[k]);
    }
  }

  // ---------------------------------------------------------------- upper and lower case

  /** States after texts that differ in the case of letters only. */
  ghost predicate Alike(st: State, u: State) {
    st.mode == u.mode && st.tokens == u.tokens && st.semicolons == u.semicolons && SameButCase(st.word, u.word)
  }

  lemma WordAlike(v: string, w: string, c: char, d: char)
    requires SameButCase(v, w) && SameLetter(c, d)
    ensures SameButCase(v + [c], w + [d])
  {
  }

  lemma CodeStepAlike(st: State, u: State, c: char, d: char)
    requires Alike(st, u) && SameLetter(c, d)
    ensures Alike(CodeStep(st, c), CodeStep(u, d))
  {
    LowerOfSame(st.word, u.word);
    WordAlike(st.word, u.word, c, d);
    assert IsWordChar(c) <==> IsWordChar(d);
  }

  lemma StepAlike(st: State, u: State, c: char, d: char)
    requires Alike(st, u) && SameLetter(c, d)
    requires st.mode.Quote? ==> st.mode.quote in {'\'', '"'}
    ensures Alike(Step(st, c), Step(u, d))
    ensures Step(st, c).mode.Quote? ==> Step(st, c).mode.quote in {'\'', '"'}
  {
    CodeStepAlike(st, u, c, d);
  }

  lemma {:induction false} RunAlike(st: State, u: State, s: string, t: string)
    requires Alike(st, u) && SameButCase(s, t)
    requires st.mode.Quote? ==> st.mode.quote in {'\'', '"'}
    ensures Alike(Run(st, s), Run(u, t))
    decreases |s|
  {
    if s != "" {
      assert SameLetter(s[0], t[0]);
      StepAlike(st, u, s[0], t[0]);
      RunAlike(Step(st, s[0]), Step(u, t[0]), s[1..], t[1..]);
    }
  }

  /** The case of letters makes no difference to the lexer. */
  lemma LexIgnoresCase(s: string, t: string)
    requires SameButCase(s, t)
    ensures Lex(s) == Lex(t)
  {
    RunAlike(START, START, s, t);
    LowerOfSame(Run(START, s).word, Run(START, t).word);
  }
}
