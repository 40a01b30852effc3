/** path.Base of the Go standard library, by which ExtractFile (internal/archive/archive.go) finds the
    binary in an archive. */
module BaseNames {
  import opened Paths

  /** path.Base: the last non-empty component, "." for an empty name, "/" for slashes only. */
  function Base(name: string): string {
    if name == "" then "." else LastNonEmpty(Split(name))
  }

  function LastNonEmpty(parts: seq<string>): string {
    if parts == [] then "/"
    else if parts[|parts| - 1] != "" then parts[|parts| - 1]
    else LastNonEmpty(parts[..|parts| - 1])
  }

  predicate AllSlashes(s: string) {
    forall i :: 0 <= i < |s| ==> s[i] == '/'
  }

  /** The last component of the name, trailing slashes aside, is this one. */
  ghost predicate EndsIn(name: string, base: string) {
    exists dir, slashes :: (dir == "" || dir[|dir| - 1] == '/') && AllSlashes(slashes) && name == dir + base + slashes
  }

  lemma {:induction false} LastPart(parts: seq<string>) returns (n: nat)
    requires LastNonEmpty(parts) != "/"
    ensures n < |parts| && parts[n] == LastNonEmpty(parts) && parts[n] != ""
    ensures forall k :: n < k < |parts| ==> parts[k] == ""
  {
    if parts[|parts| - 1] != "" {
      n := |parts| - 1;
    } else {
      n := LastPart(parts[..|parts| - 1]);
    }
  }

  lemma {:induction false} EmptyParts(parts: seq<string>)
    requires parts != [] && forall k :: 0 <= k < |parts| ==> parts[k] == ""
    ensures AllSlashes(Join(parts))
  {
    if |parts| > 1 {
      EmptyParts(parts[1..]);
    }
  }

  lemma {:induction false} SplitSlashes(slashes: string)
    requires AllSlashes(slashes)
    ensures forall k :: 0 <= k < |Split(slashes)| ==> Split(slashes)[k] == ""
  {
    if slashes != "" {
      SplitSlashes(slashes[1..]);
    }
  }

  lemma {:induction false} LastOfEmptied(parts: seq<string>, more: seq<string>)
    requires parts != [] && parts[|parts| - 1] != "" && forall k :: 0 <= k < |more| ==> more[k] == ""
    ensures LastNonEmpty(parts + more) == parts[|parts| - 1]
    decreases |more|
  {
    if more == [] {
      assert parts + more == parts;
    } else {
      assert (parts + more)[..|parts + more| - 1] == parts + more[..|more| - 1];
      LastOfEmptied(parts, more[..|more| - 1]);
    }
  }

  function Before(head: seq<string>): string {
    if head == [] then "" else Join(head) + "/"
  }

  function After(back: seq<string>): string {
    if back == [] then "" else "/" + Join(back)
  }

  lemma CutAfter(front: seq<string>, back: seq<string>)
    requires front != []
    ensures Join(front + back) == Join(front) + After(back)
  {
    if back == [] {
      assert front + back == front;
    } else {
      JoinAppend(front, back);
      Regroup(Join(front), "/", Join(back));
    }
  }

  lemma Regroup(a: string, b: string, c: string)
    ensures a + b + c == a + (b + c)
  {
  }

  lemma CutBefore(head: seq<string>, last: string)
    ensures Join(head + [last]) == Before(head) + last
  {
    if head == [] {
      assert head + [last] == [last];
    } else {
      JoinAppend(head, [last]);
    }
  }

  /** A joined name cut before and after one of its components. */
  lemma CutAround(head: seq<string>, part: string, back: seq<string>)
    ensures Join(head + [part] + back) == Before(head) + part + After(back)
  {
    CutAfter(head + [part], back);
    CutBefore(head, part);
  }

  lemma {:induction false} JoinSplit(s: string)
    ensures Join(Split(s)) == s
  {
    if s != "" {
      var rest := Split(s[1..]);
      JoinSplit(s[1..]);
      if s[0] == '/' {
        assert ([""] + rest)[1..] == rest;
      } else {
        assert ([[s[0]] + rest[0]] + rest[1..])[1..] == rest[1..];
      }
    }
  }

  /** The base name of an empty name is a dot. */
  ghost predicate HasBase(name: string, base: string) {
    EndsIn(name, base) || (name == "" && base == ".")
  }

  /** path.Base gives exactly these components. */
  lemma BaseExactly(name: string, base: string)
    requires base != "" && '/' !in base
    ensures Base(name) == base <==> HasBase(name, base)
  {
    if Base(name) == base && name != "" {
      BaseCuts(name, base);
    }
    if dir, slashes :| (dir == "" || dir[|dir| - 1] == '/') && AllSlashes(slashes) && name == dir + base + slashes {
      BaseOfEnd(dir, base, slashes);
    }
  }

  lemma BaseCuts(name: string, base: string)
    requires base != "" && '/' !in base && name != "" && Base(name) == base
    ensures EndsIn(name, base)
  {
    var parts := Split(name);
    assert LastNonEmpty(parts) != "/" by { assert "/"[0] == '/'; }
    var n := LastPart(parts);
    var head, back := parts[..n], parts[n + 1..];
    JoinSplit(name);
    assert parts == head + [base] + back;
    CutAround(head, base, back);
    var dir, slashes := Before(head), After(back);
    if back != [] {
      EmptyParts(back);
    }
    assert AllSlashes(slashes) && (dir == "" || dir[|dir| - 1] == '/');
    assert name == dir + base + slashes;
  }

  lemma BaseOfEnd(dir: string, base: string, slashes: string)
    requires base != "" && '/' !in base
    requires (dir == "" || dir[|dir| - 1] == '/') && AllSlashes(slashes)
    ensures Base(dir + base + slashes) == base
  {
    var front, back := dir + base, dir + base + slashes;
    SplitPart(base);
    if dir != "" {
      assert front == dir[..|dir| - 1] + "/" + base;
      SplitAround(dir[..|dir| - 1], base);
    } else {
      assert front == base;
    }
    var parts := Split(front);
    assert parts[|parts| - 1] == base;
    if slashes == "" {
      assert back == front;
      LastOfEmptied(parts, []);
      assert parts + [] == parts;
    } else {
      assert back == front + "/" + slashes[1..];
      SplitAround(front, slashes[1..]);
      SplitSlashes(slashes[1..]);
      LastOfEmptied(parts, Split(slashes[1..]));
    }
  }
}
