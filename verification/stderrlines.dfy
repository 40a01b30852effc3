/** plainStderrLines (internal/provider/launcher.go): passes a plugin's plain stderr lines through and
    drops its JSON log lines, however the input is cut into writes. */
module StderrLines {
  import opened Text

  /** Whether a line, newline included, reaches the user. */
  type LineTest = string -> bool

  const PLAIN: LineTest := line => !("{\"@" <= TrimSpace(line))

  const LOGGED := "{\"@"

  /** The line is one of the plugin's JSON log records, which begin with an "@" key. */
  ghost predicate IsLogRecord(line: string) {
    exists w, rest :: Blank(w) && line == w + LOGGED + rest
  }

  lemma StartsWithLogged(rest: string)
    ensures TrimLeft(LOGGED + rest) == LOGGED + rest && LOGGED <= TrimRight(LOGGED + rest)
  {
    var s := LOGGED + rest;
    var v := TrimRightSplit(s);
    if |TrimRight(s)| < 3 {
      assert s[2] == '@' && s[2] == v[2 - |TrimRight(s)|];
      BlankHasNone(v, '@');
    }
    assert s[..3] == LOGGED;
  }

  lemma DroppedIsRecord(line: string)
    requires LOGGED <= TrimSpace(line)
    ensures IsLogRecord(line)
  {
    var w := TrimLeftSplit(line);
    var v := TrimRightSplit(TrimLeft(line));
    var rest := TrimSpace(line)[3..] + v;
    assert TrimSpace(line) == LOGGED + TrimSpace(line)[3..];
    Reassociate(LOGGED, TrimSpace(line)[3..], v);
    Reassociate(w, LOGGED, rest);
  }

  lemma RecordIsDropped(w: string, rest: string)
    requires Blank(w)
    ensures LOGGED <= TrimSpace(w + LOGGED + rest)
  {
    Reassociate(w, LOGGED, rest);
    TrimLeftDropsBlank(w, LOGGED + rest);
    StartsWithLogged(rest);
  }

  /** Exactly the log records are dropped. */
  lemma PlainExactly(line: string)
    ensures PLAIN(line) <==> !IsLogRecord(line)
  {
    if LOGGED <= TrimSpace(line) {
      DroppedIsRecord(line);
    }
    if w, rest :| Blank(w) && line == w + LOGGED + rest {
      RecordIsDropped(w, rest);
    }
  }

  /** What has passed so far, and the unfinished line. */
  datatype Cut = Cut(passed: string, rest: string)

  function IfPlain(plain: LineTest, line: string): string {
    if plain(line) then line else ""
  }

  /** One byte at a time: a newline completes a line. */
  function Step(plain: LineTest, cut: Cut, c: char): Cut {
    if c == '\n' then Cut(cut.passed + IfPlain(plain, cut.rest + [c]), "") else Cut(cut.passed, cut.rest + [c])
  }

  function Run(plain: LineTest, cut: Cut, s: string): Cut
    decreases |s|
  {
    if s == "" then cut else Run(plain, Step(plain, cut, s[0]), s[1..])
  }

  lemma {:induction false} RunAppend(plain: LineTest, cut: Cut, a: string, b: string)
    ensures Run(plain, cut, a + b) == Run(plain, Run(plain, cut, a), b)
    decreases |a|
  {
    if a == "" {
      assert a + b == b;
    } else {
      assert (a + b)[1..] == a[1..] + b;
      RunAppend(plain, Step(plain, cut, a[0]), a[1..], b);
    }
  }

  lemma {:induction false} RunInsideLine(plain: LineTest, cut: Cut, s: string)
    requires '\n' !in s
    ensures Run(plain, cut, s) == Cut(cut.passed, cut.rest + s)
    decreases |s|
  {
    if s == "" {
      assert cut.rest + s == cut.rest;
    } else {
      assert s == [s[0]] + s[1..];
      RunInsideLine(plain, Step(plain, cut, s[0]), s[1..]);
      assert cut.rest + s == cut.rest + [s[0]] + s[1..];
    }
  }

  lemma RunLine(plain: LineTest, cut: Cut, line: string, s: string)
    requires '\n' !in line
    ensures Run(plain, cut, line + "\n" + s)
         == Run(plain, Cut(cut.passed + IfPlain(plain, cut.rest + line + "\n"), ""), s)
  {
    assert line + "\n" + s == line + ("\n" + s) && ("\n" + s)[1..] == s;
    RunAppend(plain, cut, line, "\n" + s);
    RunInsideLine(plain, cut, line);
  }

  /** What passed earlier stays in front. */
  lemma {:induction false} RunFrame(plain: LineTest, before: string, cut: Cut, s: string)
    ensures Run(plain, Cut(before + cut.passed, cut.rest), s)
         == Cut(before + Run(plain, cut, s).passed, Run(plain, cut, s).rest)
    decreases |s|
  {
    if s != "" {
      var next := Step(plain, cut, s[0]);
      RunFrame(plain, before, next, s[1..]);
      var more := IfPlain(plain, cut.rest + [s[0]]);
      assert before + (cut.passed + more) == before + cut.passed + more;
    }
  }

  /** The complete lines of a text that pass, and the text after its last newline. */
  function Passing(plain: LineTest, s: string): string {
    Run(plain, Cut("", ""), s).passed
  }

  function Unfinished(s: string): string {
    Run(PLAIN, Cut("", ""), s).rest
  }

  lemma {:induction false} RestIgnoresTest(plain: LineTest, other: LineTest, cut: Cut, passed: string, s: string)
    ensures Run(plain, cut, s).rest == Run(other, Cut(passed, cut.rest), s).rest
    decreases |s|
  {
    if s != "" {
      var next := Step(other, Cut(passed, cut.rest), s[0]);
      RestIgnoresTest(plain, other, Step(plain, cut, s[0]), next.passed, s[1..]);
    }
  }

  /** The meaning of both, line by line: the first line passes or not, the others likewise. */
  lemma LineByLine(plain: LineTest, line: string, s: string)
    requires '\n' !in line
    ensures Passing(plain, line + "\n" + s) == (if plain(line + "\n") then line + "\n" else "") + Passing(plain, s)
    ensures Unfinished(line + "\n" + s) == Unfinished(s)
    ensures Passing(plain, line) == "" && Unfinished(line) == line
  {
    var start := Cut("", "");
    assert "" + line + "\n" == line + "\n" && "" + line == line;
    RunLine(plain, start, line, s);
    RunLine(PLAIN, start, line, s);
    var first := IfPlain(plain, line + "\n");
    assert "" + first == first == first + "";
    RunFrame(plain, first, start, s);
    RestIgnoresTest(PLAIN, PLAIN, start, "" + IfPlain(PLAIN, "" + line + "\n"), s);
    RunInsideLine(plain, start, line);
    RunInsideLine(PLAIN, start, line);
  }

  /** The writer behind the filter; a write that fails leaves nothing behind. */
  class Sink {
    var text: string
    var left: nat  // writes that succeed before one fails

    method Write(line: string) returns (ok: bool)
      modifies this
      ensures ok <==> old(left) > 0
      ensures text == if ok then old(text) + line else old(text)
      ensures left == if ok then old(left) - 1 else old(left)
    {
      ok := left > 0;
      if ok {
        text := text + line;
        left := left - 1;
      }
    }
  }

  /** bytes.IndexByte(s, '\n'), or -1. */
  function NewlineAt(s: string): (i: int)
    ensures -1 <= i < |s|
  {
    if s == "" then -1
    else if s[0] == '\n' then 0
    else if NewlineAt(s[1..]) < 0 then -1 else NewlineAt(s[1..]) + 1
  }

  lemma {:induction false} NewlineIsFirst(s: string)
    ensures var i := NewlineAt(s);
      if i < 0 then '\n' !in s else s[i] == '\n' && forall k :: 0 <= k < i ==> s[k] != '\n'
  {
    if s != "" {
      var t := s[1..];
      NewlineIsFirst(t);
      forall k | 1 <= k < |s| ensures s[k] == t[k - 1] {
      }
    }
  }

  lemma NewlineSplits(s: string)
    ensures NewlineAt(s) < 0 ==> '\n' !in s
    ensures NewlineAt(s) >= 0 ==>
      var i := NewlineAt(s); '\n' !in s[..i] && s == s[..i] + "\n" + s[i + 1..] && s[..i + 1] == s[..i] + "\n"
  {
    NewlineIsFirst(s);
    if NewlineAt(s) >= 0 {
      SplitAtIndex(s, NewlineAt(s));
    }
  }

  lemma SplitAtIndex(s: string, i: nat)
    requires i < |s|
    ensures s == s[..i] + [s[i]] + s[i + 1..] && s[..i + 1] == s[..i] + [s[i]]
  {
  }

  /** What reading a buffer comes to, by its first newline. */
  lemma FirstLine(plain: LineTest, sent: string, buf: string)
    ensures var end := NewlineAt(buf);
      if end < 0 then Run(plain, Cut(sent, ""), buf) == Cut(sent, buf)
      else
        && '\n' in buf
        && Run(plain, Cut(sent, ""), buf)
           == Run(plain, Cut(if plain(buf[..end + 1]) then sent + buf[..end + 1] else sent, ""), buf[end + 1..])
  {
    NewlineSplits(buf);
    var end := NewlineAt(buf);
    if end < 0 {
      RunInsideLine(plain, Cut(sent, ""), buf);
      assert "" + buf == buf;
    } else {
      assert "" + buf[..end] + "\n" == buf[..end + 1];
      RunLine(plain, Cut(sent, ""), buf[..end], buf[end + 1..]);
      assert sent + "" == sent;
    }
  }

  lemma SentGrows(text: string, before: string, sent: string, line: string)
    requires before <= sent
    ensures before <= sent + line
    ensures text + sent[|before|..] + line == text + (sent + line)[|before|..]
  {
    assert (sent + line)[|before|..] == sent[|before|..] + line;
  }

  class PlainStderrLines {
    const plain: LineTest
    const out: Sink
    var buf: string
    ghost var sent: string  // what this filter has put into the sink
    ghost var fed: string   // everything written to the filter

    /** Reading the buffer on from what was sent is reading the whole input. */
    ghost predicate Valid()
      reads this
    {
      Run(plain, Cut("", ""), fed) == Run(plain, Cut(sent, ""), buf)
    }

    constructor (out: Sink)
      ensures Valid() && plain == PLAIN && this.out == out && fed == sent == buf == ""
    {
      plain, this.out, buf, sent, fed := PLAIN, out, "", "", "";
    }

    /** Without an output error what was sent is exactly the passing lines of all input so far, and
        the buffer exactly the text after the last newline. After an error nothing is lost: the
        lines not yet written stay in the buffer for the next write. */
    method Write(p: string) returns (n: nat, ok: bool)
      requires Valid()
      modifies this`buf, this`sent, this`fed, out
      ensures Valid() && n == |p| && fed == old(fed) + p
      ensures old(sent) <= sent && out.text == old(out.text) + sent[|old(sent)|..]
      ensures ok ==> sent == Passing(plain, fed) && buf == Run(plain, Cut("", ""), fed).rest
      ensures !ok ==> '\n' in buf && out.left == 0
    {
      RunAppend(plain, Cut("", ""), fed, p);
      RunAppend(plain, Cut(sent, ""), buf, p);
      buf := buf + p;
      fed := fed + p;
      n := |p|;
      while true
        invariant Valid() && fed == old(fed) + p
        invariant old(sent) <= sent && out.text == old(out.text) + sent[|old(sent)|..]
        decreases |buf|
      {
        var end := NewlineAt(buf);
        FirstLine(plain, sent, buf);
        if end < 0 {
          return n, true;
        }
        var line := buf[..end + 1];
        if plain(line) {
          ok := out.Write(line);
          if !ok {
            return n, false;
          }
          SentGrows(old(out.text), old(sent), sent, line);
          sent := sent + line;
        }
        buf := buf[end + 1..];
      }
    }
  }

  function Concat(pieces: seq<string>): string {
    if pieces == [] then "" else Concat(pieces[..|pieces| - 1]) + pieces[|pieces| - 1]
  }

  lemma Extends(text: string, before: string, now: string)
    requires before <= now
    ensures text + before + now[|before|..] == text + now
  {
    assert now == before + now[|before|..];
  }

  /** For any division of an input into writes, as long as the sink does not fail: the output is the
      input's plain lines and the buffer its unfinished rest. */
  method WriteAll(out: Sink, pieces: seq<string>) returns (w: PlainStderrLines, ok: bool)
    modifies out
    ensures ok ==> out.text == old(out.text) + Passing(PLAIN, Concat(pieces)) && w.buf == Unfinished(Concat(pieces))
    ensures !ok ==> out.left == 0
  {
    w := new PlainStderrLines(out);
    for i := 0 to |pieces|
      invariant fresh(w) && w.Valid() && w.out == out && w.plain == PLAIN
      invariant w.fed == Concat(pieces[..i])
      invariant out.text == old(out.text) + w.sent
      invariant w.sent == Passing(PLAIN, w.fed) && w.buf == Unfinished(w.fed)
    {
      assert pieces[..i + 1][..i] == pieces[..i];
      ghost var before := w.sent;
      var n;
      n, ok := w.Write(pieces[i]);
      if !ok {
        return;
      }
      Extends(old(out.text), before, w.sent);
    }
    assert pieces[..|pieces|] == pieces;
    ok := true;
  }
}
