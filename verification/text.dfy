/** Byte-string helpers with the meaning of Go's strings and bytes packages.
    A Go string is a sequence of bytes; here each char stands for one byte. */
module Text {
  import Runes

  predicate HasSuffix(s: string, suffix: string) {
    |suffix| <= |s| && s[|s| - |suffix|..] == suffix
  }

  /** The number of bytes of the white space character s begins with, 0 if it begins with none.
      The multi-byte cases are the UTF-8 encodings of U+0085, U+00A0, U+1680, U+2000 to U+200A,
      U+2028, U+2029, U+202F, U+205F and U+3000. */
  function SpaceLen(s: string): (n: nat)
    ensures n <= |s|
  {
    if |s| >= 1 && IsNarrowSpace(s[0]) then 1
    else if |s| >= 2 && s[0] == '\U{C2}' && (s[1] == '\U{85}' || s[1] == '\U{A0}') then 2
    else if |s| >= 3 && IsWideSpace(s[0], s[1], s[2]) then 3
    else 0
  }

  predicate IsNarrowSpace(c: char) {
    '\t' <= c <= '\r' || c == ' '
  }

  predicate IsWideSpace(a: char, b: char, c: char) {
    || (a == '\U{E1}' && b == '\U{9A}' && c == '\U{80}')
    || (a == '\U{E2}' && b == '\U{80}'
        && ('\U{80}' <= c <= '\U{8A}' || c == '\U{A8}' || c == '\U{A9}' || c == '\U{AF}'))
    || (a == '\U{E2}' && b == '\U{81}' && c == '\U{9F}')
    || (a == '\U{E3}' && b == '\U{80}' && c == '\U{80}')
  }

  /** The number of bytes of the white space character s ends with, 0 if it ends with none. */
  function SpaceLenBack(s: string): (n: nat)
    ensures n <= |s|
  {
    if |s| >= 1 && SpaceLen(s[|s| - 1..]) == 1 then 1
    else if |s| >= 2 && SpaceLen(s[|s| - 2..]) == 2 then 2
    else if |s| >= 3 && SpaceLen(s[|s| - 3..]) == 3 then 3
    else 0
  }

  /** The UTF-8 encoding of a character up to U+FFFF. */
  function Utf8(c: char): string
    requires c <= '\U{FFFF}'
  {
    var n := c as int;
    if n < 0x80 then [c]
    else if n < 0x800 then [(0xC0 + n / 64) as char, (0x80 + n % 64) as char]
    else [(0xE0 + n / 4096) as char, (0x80 + n / 64 % 64) as char, (0x80 + n % 64) as char]
  }

  lemma TwoBytes(c: char, rest: string)
    requires '\U{80}' <= c < '\U{800}'
    ensures SpaceLen(Utf8(c) + rest) == if Runes.IsSpace(c) then 2 else 0
  {
    var n := c as int;
    var s := Utf8(c) + rest;
    assert s[0] == (0xC0 + n / 64) as char && s[1] == (0x80 + n % 64) as char;
  }

  lemma ThreeBytes(c: char, rest: string)
    requires '\U{800}' <= c <= '\U{FFFF}'
    ensures SpaceLen(Utf8(c) + rest) == if Runes.IsSpace(c) then 3 else 0
  {
    var n := c as int;
    var s := Utf8(c) + rest;
    assert s[0] == (0xE0 + n / 4096) as char;
    assert s[1] == (0x80 + n / 64 % 64) as char;
    assert s[2] == (0x80 + n % 64) as char;
    assert n == n / 4096 * 4096 + n / 64 % 64 * 64 + n % 64;
  }

  /** A text begins with a white space character exactly when that is one in Unicode. */
  lemma SpaceLenExactly(c: char, rest: string)
    requires c <= '\U{FFFF}'
    ensures SpaceLen(Utf8(c) + rest) == if Runes.IsSpace(c) then |Utf8(c)| else 0
  {
    if c < '\U{80}' {
      assert (Utf8(c) + rest)[0] == c;
    } else if c < '\U{800}' {
      TwoBytes(c, rest);
    } else {
      ThreeBytes(c, rest);
    }
  }

  function TrimLeft(s: string): string {
    if SpaceLen(s) == 0 then s else TrimLeft(s[SpaceLen(s)..])
  }

  function TrimRight(s: string): string {
    if SpaceLenBack(s) == 0 then s else TrimRight(s[..|s| - SpaceLenBack(s)])
  }

  function TrimSpace(s: string): string {
    TrimRight(TrimLeft(s))
  }

  /** Nothing but white space. */
  predicate Blank(s: string) {
    TrimLeft(s) == ""
  }

  lemma {:induction false} BlankAppend(a: string, b: string)
    requires Blank(a) && Blank(b)
    ensures Blank(a + b)
  {
    if a == "" {
      assert a + b == b;
    } else {
      var n := SpaceLen(a);
      assert SpaceLen(a + b) == n;
      assert (a + b)[n..] == a[n..] + b;
      BlankAppend(a[n..], b);
    }
  }

  lemma {:induction false} BlankHasNone(s: string, c: char)
    requires Blank(s)
    requires SpaceLen([c]) == 0 && c < '\U{80}'
    ensures c !in s
  {
    if s != "" {
      var n := SpaceLen(s);
      assert s == s[..n] + s[n..];
      BlankHasNone(s[n..], c);
    }
  }

  lemma SpaceIsBlank(r: string)
    requires SpaceLen(r) == |r|
    ensures Blank(r)
  {
    assert r[|r|..] == "";
  }

  lemma Reassociate(a: string, b: string, c: string)
    ensures (a + b) + c == a + (b + c)
  {
  }

  lemma Halves(s: string, n: nat)
    requires n <= |s|
    ensures s == s[..n] + s[n..]
  {
  }

  lemma SpaceThenBlank(s: string, v: string)
    requires SpaceLen(s) > 0 && Blank(v)
    ensures Blank(s[..SpaceLen(s)] + v)
  {
    var n := SpaceLen(s);
    var w := s[..n] + v;
    assert SpaceLen(w) == n && w[n..] == v;
  }

  /** Blank text in front makes no difference. */
  lemma {:induction false} TrimLeftDropsBlank(w: string, t: string)
    requires Blank(w)
    ensures TrimLeft(w + t) == TrimLeft(t)
    decreases |w|
  {
    if w == "" {
      assert w + t == t;
    } else {
      var n := SpaceLen(w);
      assert SpaceLen(w + t) == n;
      assert (w + t)[n..] == w[n..] + t;
      TrimLeftDropsBlank(w[n..], t);
    }
  }

  /** What TrimLeft removes is blank. */
  lemma {:induction false} TrimLeftSplit(s: string) returns (w: string)
    ensures s == w + TrimLeft(s) && Blank(w)
  {
    var n := SpaceLen(s);
    if n == 0 {
      w := "";
    } else {
      var head, tail := s[..n], s[n..];
      var v := TrimLeftSplit(tail);
      w := head + v;
      SpaceThenBlank(s, v);
      Reassociate(head, v, TrimLeft(tail));
      Halves(s, n);
    }
  }

  lemma {:induction false} TrimRightStops(s: string)
    ensures SpaceLenBack(TrimRight(s)) == 0
    decreases |s|
  {
    if SpaceLenBack(s) != 0 {
      TrimRightStops(s[..|s| - SpaceLenBack(s)]);
    }
  }

  lemma LastSpaceIsBlank(s: string)
    ensures Blank(s[|s| - SpaceLenBack(s)..])
  {
    SpaceIsBlank(s[|s| - SpaceLenBack(s)..]);
  }

  /** What TrimRight removes is blank. */
  lemma {:induction false} TrimRightSplit(s: string) returns (w: string)
    ensures s == TrimRight(s) + w
    ensures Blank(w)
    decreases |s|
  {
    var n := SpaceLenBack(s);
    if n == 0 {
      w := "";
    } else {
      var head, last := s[..|s| - n], s[|s| - n..];
      var v := TrimRightSplit(head);
      w := v + last;
      LastSpaceIsBlank(s);
      BlankAppend(v, last);
      Reassociate(TrimRight(head), v, last);
      Halves(s, |s| - n);
    }
  }

  lemma OneSpaceAtEnd(p: string, w: string)
    requires SpaceLen(w) == |w| > 0
    ensures 0 < SpaceLenBack(p + w) <= |w|
    ensures Blank(w[..|w| - SpaceLenBack(p + w)])
  {
    assert (p + w)[|p + w| - |w|..] == w;
    assert |w| == 2 ==> (p + w)[|p + w| - 1..] == [w[1]];
    assert |w| == 3 ==> (p + w)[|p + w| - 1..] == [w[2]] && (p + w)[|p + w| - 2..] == [w[1], w[2]];
  }

  /** A non-empty blank text ends in a white space character, whatever precedes it. */
  lemma {:induction false} BlankEndsInSpace(p: string, w: string)
    requires Blank(w) && w != ""
    ensures SpaceLenBack(p + w) > 0
    ensures Blank(w[..|w| - SpaceLenBack(p + w)])
    ensures SpaceLenBack(p + w) <= |w|
    decreases |w|
  {
    var n := SpaceLen(w);
    if n == |w| {
      OneSpaceAtEnd(p, w);
    } else {
      var v := w[n..];
      assert p + w == (p + w[..n]) + v;
      BlankEndsInSpace(p + w[..n], v);
      var k := SpaceLenBack(p + w);
      assert w[..|w| - k] == w[..n] + v[..|v| - k];
      SpaceIsBlank(w[..n]);
      BlankAppend(w[..n], v[..|v| - k]);
    }
  }

  lemma TakeFromAppend(p: string, w: string, n: nat)
    requires n <= |w|
    ensures (p + w)[..|p| + n] == p + w[..n]
  {
  }

  /** Blank text without its last white space character. */
  lemma LastSpace(p: string, w: string) returns (v: string)
    requires Blank(w) && w != ""
    ensures Blank(v) && |v| < |w|
    ensures SpaceLenBack(p + w) > 0 && (p + w)[..|p + w| - SpaceLenBack(p + w)] == p + v
  {
    BlankEndsInSpace(p, w);
    var k := SpaceLenBack(p + w);
    v := w[..|w| - k];
    TakeFromAppend(p, w, |w| - k);
  }

  lemma TrimOff(s: string)
    requires SpaceLenBack(s) > 0
    ensures TrimRight(s) == TrimRight(s[..|s| - SpaceLenBack(s)])
  {
  }

  lemma {:induction false} TrimRightDropsBlank(p: string, w: string)
    requires Blank(w)
    ensures TrimRight(p + w) == TrimRight(p)
    decreases |w|
  {
    if w == "" {
      assert p + w == p;
    } else {
      var v := LastSpace(p, w);
      TrimOff(p + w);
      TrimRightDropsBlank(p, v);
    }
  }

  /** TrimSpace removes blank text on both sides, and nothing else. */
  lemma TrimSpaceSplit(s: string, c: char) returns (left: string, right: string)
    requires SpaceLen([c]) == 0 && c < '\U{80}'
    ensures s == left + TrimSpace(s) + right
    ensures Blank(right)
    ensures c !in left && c !in right
  {
    left := TrimLeftSplit(s);
    right := TrimRightSplit(TrimLeft(s));
    Reassociate(left, TrimSpace(s), right);
    BlankHasNone(left, c);
    BlankHasNone(right, c);
  }
}
