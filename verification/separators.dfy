/** Fields joined with a separator into one key. */
module Separators {

  /** A text is cut at its first separator in one way only. */
  lemma {:induction false} CutAtFirst(sep: char, a: string, b: string, c: string, d: string)
    requires sep !in a && sep !in c
    requires a + [sep] + b == c + [sep] + d
    ensures a == c && b == d
    decreases |a|
  {
    var s, t := a + [sep] + b, c + [sep] + d;
    if a == "" || c == "" {
      assert s[0] == t[0] && s[1..] == t[1..];
      assert a == "" ==> s[1..] == b;
      assert c == "" ==> t[1..] == d;
    } else {
      assert s[0] == a[0] && t[0] == c[0];
      assert s[1..] == a[1..] + [sep] + b && t[1..] == c[1..] + [sep] + d;
      CutAtFirst(sep, a[1..], b, c[1..], d);
    }
  }

  /** The text before the first separator and the text after it. */
  lemma {:induction false} FirstCut(sep: char, s: string) returns (head: string, rest: string)
    requires sep in s
    ensures s == head + [sep] + rest && sep !in head
  {
    if s[0] == sep {
      head, rest := "", s[1..];
    } else {
      head, rest := FirstCut(sep, s[1..]);
      head := [s[0]] + head;
    }
  }
}
