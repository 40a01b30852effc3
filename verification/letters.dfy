/** Upper and lower case of ASCII letters. */
module Letters {

  function LowerChar(c: char): char {
    if 'A' <= c <= 'Z' then c - 'A' + 'a' else c
  }

  function Lower(s: string): (r: string)
    ensures |r| == |s|
  {
    seq(|s|, i requires 0 <= i < |s| => LowerChar(s[i]))
  }

  /** Equal, or the two cases of one ASCII letter. */
  predicate SameLetter(c: char, d: char) {
    || c == d
    || ('A' <= c <= 'Z' && d as int == c as int + 32)
    || ('A' <= d <= 'Z' && c as int == d as int + 32)
  }

  predicate SameButCase(s: string, t: string) {
    |s| == |t| && forall i :: 0 <= i < |s| ==> SameLetter(s[i], t[i])
  }

  predicate NoUpper(s: string) {
    forall i :: 0 <= i < |s| ==> !('A' <= s[i] <= 'Z')
  }

  /** Lower(s) is the one text without upper-case letters that differs from s only in case. */
  lemma LowerExactly(s: string, t: string)
    ensures t == Lower(s) <==> SameButCase(s, t) && NoUpper(t)
  {
    if SameButCase(s, t) && NoUpper(t) {
      forall i | 0 <= i < |s| ensures t[i] == Lower(s)[i] {
        assert SameLetter(s[i], t[i]) && !('A' <= t[i] <= 'Z');
      }
    }
  }

  lemma LowerOfSame(s: string, t: string)
    requires SameButCase(s, t)
    ensures Lower(s) == Lower(t)
  {
    forall i | 0 <= i < |s| ensures Lower(s)[i] == Lower(t)[i] {
      assert SameLetter(s[i], t[i]);
    }
  }

  lemma LowerKeeps(c: char, s: string)
    requires !('A' <= c <= 'Z') && !('a' <= c <= 'z')
    ensures c in Lower(s) <==> c in s
  {
    forall i | 0 <= i < |s| ensures Lower(s)[i] == c <==> s[i] == c {
    }
  }
}
