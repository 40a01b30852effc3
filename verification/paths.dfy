/** Lexical path confinement of archive entries (internal/archive/archive.go), with path/filepath's
    Clean, Join and Rel on Unix paths. */
module Paths {

  // ---------------------------------------------------------------- splitting and joining

  /** strings.Split(s, "/"). */
  function Split(s: string): (parts: seq<string>)
    ensures |parts| > 0
    ensures NoSlash(parts)
  {
    if s == "" then [""]
    else
      var rest := Split(s[1..]);
      if s[0] == '/' then [""] + rest else [[s[0]] + rest[0]] + rest[1..]
  }

  /** strings.Join(parts, "/"). */
  function Join(parts: seq<string>): string {
    if parts == [] then ""
    else if |parts| == 1 then parts[0]
    else parts[0] + "/" + Join(parts[1..])
  }

  lemma {:induction false} SplitAround(a: string, b: string)
    ensures Split(a + "/" + b) == Split(a) + Split(b)
    decreases |a|
  {
    var s := a + "/" + b;
    if a == "" {
      assert s[1..] == b;
    } else {
      SplitAround(a[1..], b);
      TailOfJoint(a, b);
      HeadGrows(a[0], Split(a[1..]), Split(b));
    }
  }

  lemma TailOfJoint(a: string, b: string)
    requires a != ""
    ensures (a + "/" + b)[0] == a[0] && (a + "/" + b)[1..] == a[1..] + "/" + b
  {
  }

  lemma HeadGrows(c: char, a: seq<string>, b: seq<string>)
    requires a != []
    ensures [""] + (a + b) == ([""] + a) + b
    ensures [[c] + (a + b)[0]] + (a + b)[1..] == ([[c] + a[0]] + a[1..]) + b
  {
  }

  lemma {:induction false} SplitPart(a: string)
    requires '/' !in a
    ensures Split(a) == [a]
  {
    if a != "" {
      SplitPart(a[1..]);
      assert [a[0]] + a[1..] == a;
    }
  }

  lemma {:induction false} SplitJoin(parts: seq<string>)
    requires parts != [] && NoSlash(parts)
    ensures Split(Join(parts)) == parts
  {
    SplitPart(parts[0]);
    if |parts| > 1 {
      SplitJoin(parts[1..]);
      SplitAround(parts[0], Join(parts[1..]));
    }
  }

  // ---------------------------------------------------------------- clean absolute paths

  /** Resolves empty, "." and ".." components of a rooted path from the left. */
  function Resolve(parts: seq<string>): (r: seq<string>)
    requires NoSlash(parts)
    ensures Proper(r)
  {
    if parts == [] then []
    else
      var done, last := Resolve(parts[..|parts| - 1]), parts[|parts| - 1];
      if last in {"", "."} then done
      else if last == ".." then (if done == [] then done else done[..|done| - 1])
      else done + [last]
  }

  predicate NoSlash(parts: seq<string>) {
    forall i :: 0 <= i < |parts| ==> '/' !in parts[i]
  }

  predicate Proper(parts: seq<string>) {
    forall i :: 0 <= i < |parts| ==> parts[i] !in {"", ".", ".."} && '/' !in parts[i]
  }

  function Render(parts: seq<string>): string {
    "/" + Join(parts)
  }

  predicate IsAbs(p: string) {
    p != "" && p[0] == '/'
  }

  /** filepath.Clean of a rooted path. */
  function CleanAbs(p: string): string
    requires IsAbs(p)
  {
    Render(Resolve(Split(p)))
  }

  predicate IsClean(p: string) {
    IsAbs(p) && CleanAbs(p) == p
  }

  /** The components of a clean path. */
  function Parts(p: string): (parts: seq<string>)
    requires IsClean(p)
    ensures Proper(parts) && Render(parts) == p
  {
    Resolve(Split(p))
  }

  lemma {:induction false} ResolveAppend(a: seq<string>, b: seq<string>)
    requires NoSlash(a) && NoSlash(b)
    ensures Resolve(a + b) == Resolve(Resolve(a) + b)
    decreases |b|
  {
    if b == [] {
      assert a + b == a && Resolve(a) + b == Resolve(a);
      ResolveProper(Resolve(a));
    } else {
      var head, last := b[..|b| - 1], b[|b| - 1];
      assert (a + b)[..|a + b| - 1] == a + head;
      assert (Resolve(a) + b)[..|Resolve(a) + b| - 1] == Resolve(a) + head;
      ResolveAppend(a, head);
    }
  }

  lemma {:induction false} ResolveProper(parts: seq<string>)
    requires Proper(parts)
    ensures Resolve(parts) == parts
  {
    if parts != [] {
      ResolveProper(parts[..|parts| - 1]);
      assert parts[..|parts| - 1] + [parts[|parts| - 1]] == parts;
    }
  }

  lemma SplitRender(parts: seq<string>)
    requires Proper(parts)
    ensures Split(Render(parts)) == [""] + if parts == [] then [""] else parts
  {
    assert Render(parts) == "" + "/" + Join(parts);
    SplitAround("", Join(parts));
    if parts != [] {
      SplitJoin(parts);
    }
  }

  lemma RenderInjective(a: seq<string>, b: seq<string>)
    requires Proper(a) && Proper(b) && Render(a) == Render(b)
    ensures a == b
  {
    SplitRender(a);
    SplitRender(b);
    var x, y := if a == [] then [""] else a, if b == [] then [""] else b;
    assert ([""] + x)[1..] == x && ([""] + y)[1..] == y;
  }

  /** A ".." takes back the component before it, at the root it does nothing, and empty and "."
      components never do. */
  lemma ResolveParent(a: seq<string>, p: string, b: seq<string>)
    requires NoSlash(a) && NoSlash(b) && '/' !in p
    ensures p !in {"", ".", ".."} ==> Resolve(a + [p, ".."] + b) == Resolve(a + b)
    ensures p in {"", "."} ==> Resolve(a + [p] + b) == Resolve(a + b)
    ensures Resolve([".."] + b) == Resolve(b)
  {
    var s, t := a + [p], a + [p, ".."];
    assert s[..|a|] == a && t[..|a| + 1] == s;
    ResolveAppend(a, b);
    if p in {"", "."} {
      assert Resolve(s) == Resolve(a);
      ResolveAppend(s, b);
    } else if p != ".." {
      assert Resolve(s) == Resolve(a) + [p];
      assert Resolve(t) == Resolve(a);
      ResolveAppend(t, b);
    }
    assert [".."][..0] == [] && Resolve([".."]) == [];
    ResolveAppend([".."], b);
    assert [] + b == b;
  }

  // ---------------------------------------------------------------- Join and Rel

  function CommonLen(a: seq<string>, b: seq<string>): (k: nat)
    ensures k <= |a| && k <= |b| && a[..k] == b[..k]
    ensures k < |a| && k < |b| ==> a[k] != b[k]
  {
    if a == [] || b == [] || a[0] != b[0] then 0
    else
      var k := CommonLen(a[1..], b[1..]);
      assert a[..k + 1] == [a[0]] + a[1..][..k] && b[..k + 1] == [b[0]] + b[1..][..k];
      k + 1
  }

  function Ups(n: nat): (ups: seq<string>)
    ensures |ups| == n && forall i :: 0 <= i < n ==> ups[i] == ".."
  {
    if n == 0 then [] else [".."] + Ups(n - 1)
  }

  function RelParts(base: seq<string>, target: seq<string>): seq<string> {
    var k := CommonLen(base, target);
    Ups(|base| - k) + target[k..]
  }

  /** filepath.Rel of two clean rooted paths. */
  function Rel(base: string, target: string): string
    requires IsClean(base) && IsClean(target)
  {
    var parts := RelParts(Parts(base), Parts(target));
    if parts == [] then "." else Join(parts)
  }

  // ---------------------------------------------------------------- confine

  datatype Confined = Target(path: string) | Skipped | InvalidName | AbsoluteName | Escapes

  /** The name after stripping leading components, empty when nothing is left. */
  function Stripped(name: string, strip: nat): string {
    var parts := Split(name);
    if |parts| <= strip then "" else Join(parts[strip..])
  }

  lemma CleanIsClean(p: string)
    requires IsAbs(p)
    ensures IsClean(CleanAbs(p)) && Parts(CleanAbs(p)) == Resolve(Split(p))
  {
    var parts := Resolve(Split(p));
    SplitRender(parts);
    if parts == [] {
      assert Resolve([""] + [""]) == [] by {
        assert ([""] + [""])[..1] == [""] && [""][..0] == [];
      }
    } else {
      ResolveAppend([""], parts);
      assert Resolve([""]) == [] by { assert [""][..0] == []; }
      assert [] + parts == parts;
      ResolveProper(parts);
    }
  }

  function JoinedTarget(dest: string, relative: string): (t: string)
    requires IsClean(dest)
    ensures IsClean(t)
  {
    assert IsAbs(dest + "/" + relative) by { assert (dest + "/" + relative)[0] == dest[0]; }
    CleanIsClean(dest + "/" + relative);
    CleanAbs(dest + "/" + relative)
  }

  function Confine(dest: string, name: string, strip: nat): Confined
    requires IsClean(dest)
  {
    if '\\' in name || '\0' in name then InvalidName
    else if IsAbs(name) then AbsoluteName
    else if |Split(name)| <= strip then Skipped
    else
      var relative := Stripped(name, strip);
      if relative == "" then Skipped
      else
        var target := JoinedTarget(dest, relative);
        var rel := Rel(dest, target);
        if rel == "." then Skipped
        else if rel == ".." || "../" <= rel then Escapes
        else Target(target)
  }

  /** Strictly inside the directory, as a string: the directory, a slash, and more. */
  predicate Below(dest: string, path: string) {
    |dest| < |path| && dest <= path && (dest == "/" || path[|dest|] == '/')
  }

  lemma {:induction false} JoinAppend(a: seq<string>, b: seq<string>)
    requires a != [] && b != []
    ensures Join(a + b) == Join(a) + "/" + Join(b)
  {
    if |a| == 1 {
      assert (a + b)[1..] == b;
    } else {
      assert (a + b)[1..] == a[1..] + b;
      JoinAppend(a[1..], b);
    }
  }

  /** Below is the component-wise meaning: a proper extension of the directory's components. */
  lemma BelowIsExtension(d: seq<string>, t: seq<string>)
    requires Proper(d) && Proper(t)
    ensures Below(Render(d), Render(t)) <==> |d| < |t| && t[..|d|] == d
  {
    var dest, path := Render(d), Render(t);
    if |d| < |t| && t[..|d|] == d {
      assert t == d + t[|d|..];
      if d != [] {
        JoinAppend(d, t[|d|..]);
        assert path[|dest|] == '/';
      } else {
        assert t[0] != "";
      }
    }
    if Below(dest, path) && d != [] {
      var more := path[|dest| + 1..];
      assert path == dest + "/" + more;
      SplitAround(dest, more);
      SplitRender(d);
      SplitRender(t);
      assert t != [] by { assert |Split(path)| >= |d| + 2; }
      assert ([""] + t)[1..] == t && ([""] + d + Split(more))[1..] == d + Split(more);
    }
  }

  lemma RelShape(base: seq<string>, target: seq<string>)
    requires Proper(base) && Proper(target)
    ensures var parts := RelParts(base, target);
      && (parts == [] <==> base == target)
      && (parts != [] ==> Join(parts) != ".")
      && (parts != [] ==> (Join(parts) == ".." || "../" <= Join(parts) <==> !(base <= target)))
  {
    var k := CommonLen(base, target);
    var parts := RelParts(base, target);
    if parts != [] {
      SplitJoin(parts);
      SplitPart(".");
      if k < |base| {
        assert parts[0] == "..";
        assert Join(parts) == ".." || "../" <= Join(parts) by {
          if |parts| > 1 { assert Join(parts)[..3] == "../"; }
        }
      } else {
        assert parts[0] == target[k];
        SplitPart("..");
        if "../" <= Join(parts) {
          assert Join(parts) == ".." + "/" + Join(parts)[3..];
          SplitAround("..", Join(parts)[3..]);
        }
      }
    }
  }

  /** Nothing is left of the name once that many leading components are stripped. */
  predicate NothingLeft(name: string, strip: nat) {
    |Split(name)| <= strip || Split(name)[strip..] == [""]
  }

  /** Names with a backslash or a NUL byte are invalid, rooted ones absolute, and those of which nothing
      is left are skipped; all others are usable. */
  lemma RefusedExactly(dest: string, name: string, strip: nat)
    requires IsClean(dest)
    ensures Confine(dest, name, strip) == InvalidName <==> '\\' in name || '\0' in name
    ensures Confine(dest, name, strip) == AbsoluteName <==>
      '\\' !in name && '\0' !in name && name != "" && name[0] == '/'
    ensures NothingLeft(name, strip) ==>
      Confine(dest, name, strip) == Skipped || '\\' in name || '\0' in name || (name != "" && name[0] == '/')
    ensures Usable(name, strip) <==>
      '\\' !in name && '\0' !in name && (name == "" || name[0] != '/') && !NothingLeft(name, strip)
  {
    if |Split(name)| > strip {
      SplitJoin(Split(name)[strip..]);
    }
  }

  /** Whether a name reaches the path check at all. */
  predicate Usable(name: string, strip: nat) {
    '\\' !in name && '\0' !in name && !IsAbs(name) && Stripped(name, strip) != ""
  }

  /** An entry gets a target exactly when the cleaned join lies strictly inside the destination;
      it is skipped when the join is the destination itself, and an error otherwise. */
  lemma ConfineExact(dest: string, name: string, strip: nat)
    requires IsClean(dest) && Usable(name, strip)
    ensures var joined := JoinedTarget(dest, Stripped(name, strip));
      && (Confine(dest, name, strip) == Target(joined) <==> Below(dest, joined))
      && (Confine(dest, name, strip) == Skipped <==> joined == dest)
      && (Confine(dest, name, strip) == Escapes <==> joined != dest && !Below(dest, joined))
  {
    var joined := JoinedTarget(dest, Stripped(name, strip));
    var d, t := Parts(dest), Parts(joined);
    RelShape(d, t);
    BelowIsExtension(d, t);
    if joined == dest { RenderInjective(d, t); }
  }

  /** Whatever the name, a target is strictly inside the destination and clean. */
  lemma TargetsAreConfined(dest: string, name: string, strip: nat)
    requires IsClean(dest) && Confine(dest, name, strip).Target?
    ensures Below(dest, Confine(dest, name, strip).path) && IsClean(Confine(dest, name, strip).path)
  {
    ConfineExact(dest, name, strip);
  }

  function Meaningful(parts: seq<string>): seq<string> {
    if parts == [] then []
    else Meaningful(parts[..|parts| - 1]) + if parts[|parts| - 1] in {"", "."} then [] else [parts[|parts| - 1]]
  }

  lemma {:induction false} ResolveWithoutUps(d: seq<string>, parts: seq<string>)
    requires Proper(d) && ".." !in parts && NoSlash(parts)
    ensures Resolve(d + parts) == d + Meaningful(parts)
    decreases |parts|
  {
    if parts == [] {
      assert d + parts == d && d + Meaningful(parts) == d;
      ResolveProper(d);
    } else {
      var head := parts[..|parts| - 1];
      assert (d + parts)[..|d + parts| - 1] == d + head;
      ResolveWithoutUps(d, head);
    }
  }

  /** Names without a ".." component after stripping never fail the check: they map to the
      destination followed by their components, empty and "." ones left out. */
  lemma PlainNames(dest: string, name: string, strip: nat)
    requires IsClean(dest) && Usable(name, strip)
    requires ".." !in Split(name)[strip..]
    ensures var kept := Meaningful(Split(name)[strip..]);
      Confine(dest, name, strip) == if kept == [] then Skipped else Target(Render(Parts(dest) + kept))
  {
    var left := Split(name)[strip..];
    var d := Parts(dest);
    SplitJoin(left);
    SplitAround(dest, Join(left));
    CleanIsClean(dest + "/" + Join(left));
    ResolveAppend(Split(dest), left);
    ResolveWithoutUps(d, left);
    ConfineExact(dest, name, strip);
    var kept := Meaningful(left);
    var joined := JoinedTarget(dest, Stripped(name, strip));
    assert joined == Render(d + kept);
    if kept == [] {
      assert d + kept == d;
    } else {
      assert (d + kept)[..|d|] == d;
      assert Proper(d + kept);
      BelowIsExtension(d, d + kept);
    }
  }
}
