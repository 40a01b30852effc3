/** Loops with a seen map: each item whose key is new goes through, all others are skipped. */
module SeenMaps {

  datatype Keyed<K, +T> = Keyed(key: K, value: T)

  function KeySet<K, T>(items: seq<Keyed<K, T>>): set<K> {
    set i | 0 <= i < |items| :: items[i].key
  }

  /** Skips the items whose key was seen. */
  function FirstPerKey<K, T>(seen: set<K>, items: seq<Keyed<K, T>>): (kept: seq<Keyed<K, T>>)
    ensures |kept| <= |items|
    decreases |items|
  {
    if items == [] then []
    else if items[0].key in seen then FirstPerKey(seen, items[1..])
    else [items[0]] + FirstPerKey(seen + {items[0].key}, items[1..])
  }

  lemma {:induction false} FirstPerKeyAppend<K, T>(seen: set<K>, a: seq<Keyed<K, T>>, b: seq<Keyed<K, T>>)
    ensures FirstPerKey(seen, a + b) == FirstPerKey(seen, a) + FirstPerKey(seen + KeySet(a), b)
    decreases |a|
  {
    if a == [] {
      assert a + b == b && seen + KeySet(a) == seen;
    } else {
      assert (a + b)[1..] == a[1..] + b;
      KeySetCons(a);
      SeenGrows(seen, a[0].key, KeySet(a[1..]));
      FirstPerKeyAppend(seen + {a[0].key}, a[1..], b);
    }
  }

  lemma SeenGrows<K>(seen: set<K>, k: K, rest: set<K>)
    ensures seen + ({k} + rest) == (seen + {k}) + rest
    ensures k in seen ==> seen + {k} == seen
  {
  }

  lemma KeySetCons<K, T>(items: seq<Keyed<K, T>>)
    requires items != []
    ensures KeySet(items) == {items[0].key} + KeySet(items[1..])
  {
    forall k | k in KeySet(items) ensures k in {items[0].key} + KeySet(items[1..]) {
      var i :| 0 <= i < |items| && items[i].key == k;
      if i > 0 { assert items[1..][i - 1].key == k; }
    }
    forall k | k in KeySet(items[1..]) ensures k in KeySet(items) {
      var i :| 0 <= i < |items[1..]| && items[1..][i].key == k;
      assert items[i + 1].key == k;
    }
  }

  lemma KeySetAppend<K, T>(items: seq<Keyed<K, T>>, more: Keyed<K, T>)
    ensures KeySet(items + [more]) == KeySet(items) + {more.key}
  {
    var all := items + [more];
    forall k ensures k in KeySet(all) <==> k in KeySet(items) + {more.key} {
      if k in KeySet(items) {
        var i :| 0 <= i < |items| && items[i].key == k;
        assert all[i].key == k;
      }
      assert all[|items|].key == more.key;
    }
  }

  /** One turn of a loop: the seen map grows by the key, and the item goes through when it is new. */
  lemma FirstPerKeyStep<K, T>(items: seq<Keyed<K, T>>, more: Keyed<K, T>)
    ensures KeySet(items + [more]) == KeySet(items) + {more.key}
    ensures FirstPerKey({}, items + [more])
         == if more.key in KeySet(items) then FirstPerKey({}, items) else FirstPerKey({}, items) + [more]
  {
    KeySetAppend(items, more);
    FirstPerKeyAppend({}, items, [more]);
    assert {} + KeySet(items) == KeySet(items);
    assert FirstPerKey({}, items) + [] == FirstPerKey({}, items);
  }

  function Values<K, T>(items: seq<Keyed<K, T>>): (values: seq<T>)
    ensures |values| == |items|
  {
    seq(|items|, i requires 0 <= i < |items| => items[i].value)
  }

  /** One turn of a loop that collects the values alone. */
  lemma KeptValuesStep<K, T>(items: seq<Keyed<K, T>>, more: Keyed<K, T>)
    ensures KeySet(items + [more]) == if more.key in KeySet(items) then KeySet(items) else KeySet(items) + {more.key}
    ensures var kept := Values(FirstPerKey({}, items));
      Values(FirstPerKey({}, items + [more])) == if more.key in KeySet(items) then kept else kept + [more.value]
  {
    FirstPerKeyStep(items, more);
    assert more.key in KeySet(items) ==> KeySet(items) + {more.key} == KeySet(items);
    assert Values(FirstPerKey({}, items) + [more]) == Values(FirstPerKey({}, items)) + [more.value];
  }

  /** What is kept: exactly the items whose key no earlier item has. */
  lemma {:induction false} KeptIsFirst<K, T>(seen: set<K>, items: seq<Keyed<K, T>>, i: nat)
    requires i < |items| && items[i].key !in seen && forall j :: 0 <= j < i ==> items[j].key != items[i].key
    ensures items[i] in FirstPerKey(seen, items)
    decreases |items|
  {
    if i > 0 {
      KeptIsFirst(if items[0].key in seen then seen else seen + {items[0].key}, items[1..], i - 1);
    }
  }

  lemma {:induction false} KeptFrom<K, T>(seen: set<K>, items: seq<Keyed<K, T>>, k: nat) returns (i: nat)
    requires k < |FirstPerKey(seen, items)|
    ensures i < |items| && items[i] == FirstPerKey(seen, items)[k] && items[i].key !in seen
    ensures forall j :: 0 <= j < i ==> items[j].key != items[i].key
    decreases |items|
  {
    if items[0].key in seen {
      i := KeptFrom(seen, items[1..], k);
      i := i + 1;
    } else if k == 0 {
      i := 0;
    } else {
      i := KeptFrom(seen + {items[0].key}, items[1..], k - 1);
      i := i + 1;
    }
  }

  predicate DistinctKeys<K(==), T>(items: seq<Keyed<K, T>>) {
    forall i, j :: 0 <= i < j < |items| ==> items[i].key != items[j].key
  }

  lemma {:induction false} KeptDistinct<K, T>(seen: set<K>, items: seq<Keyed<K, T>>)
    ensures DistinctKeys(FirstPerKey(seen, items))
    ensures KeySet(FirstPerKey(seen, items)) == KeySet(items) - seen
    decreases |items|
  {
    if items != [] {
      KeySetCons(items);
      var k := items[0].key;
      if k in seen {
        KeptDistinct(seen, items[1..]);
      } else {
        var rest := FirstPerKey(seen + {k}, items[1..]);
        KeptDistinct(seen + {k}, items[1..]);
        DistinctCons(items[0], rest);
        KeySetCons([items[0]] + rest);
        assert ([items[0]] + rest)[1..] == rest;
      }
    }
  }

  lemma DistinctCons<K, T>(item: Keyed<K, T>, rest: seq<Keyed<K, T>>)
    ensures DistinctKeys([item] + rest) <==> DistinctKeys(rest) && item.key !in KeySet(rest)
  {
    var all := [item] + rest;
    assert forall j :: 0 <= j < |rest| ==> all[j + 1] == rest[j];
    if DistinctKeys(rest) && item.key !in KeySet(rest) {
      forall i, j | 0 <= i < j < |all| ensures all[i].key != all[j].key {
        assert all[j] == rest[j - 1];
        if i > 0 { assert all[i] == rest[i - 1]; }
      }
    }
    if DistinctKeys(all) {
      forall i, j | 0 <= i < j < |rest| ensures rest[i].key != rest[j].key {
        assert all[i + 1] == rest[i] && all[j + 1] == rest[j];
      }
      forall j | 0 <= j < |rest| ensures rest[j].key != item.key {
        assert all[j + 1] == rest[j] && all[0] == item;
      }
    }
  }

  lemma {:induction false} KeepsAllExactly<K, T>(seen: set<K>, items: seq<Keyed<K, T>>)
    ensures |FirstPerKey(seen, items)| == |items| <==> DistinctKeys(items) && KeySet(items) !! seen
    ensures |FirstPerKey(seen, items)| == |items| ==> FirstPerKey(seen, items) == items
    decreases |items|
  {
    if items != [] {
      KeySetCons(items);
      DistinctCons(items[0], items[1..]);
      assert items == [items[0]] + items[1..];
      if items[0].key !in seen {
        KeepsAllExactly(seen + {items[0].key}, items[1..]);
      }
    }
  }

  /** The items whose key is not among some. */
  function Without<K, T>(items: seq<Keyed<K, T>>, keys: set<K>): seq<Keyed<K, T>>
    decreases |items|
  {
    if items == [] then []
    else (if items[0].key in keys then [] else [items[0]]) + Without(items[1..], keys)
  }

  /** What was seen before only takes its keys out of the result. */
  lemma {:induction false} SeenIsWithout<K, T>(past: set<K>, seen: set<K>, items: seq<Keyed<K, T>>)
    ensures FirstPerKey(past + seen, items) == Without(FirstPerKey(seen, items), past)
    decreases |items|
  {
    if items != [] {
      var k := items[0].key;
      if k in seen {
        SeenIsWithout(past, seen, items[1..]);
      } else {
        SeenIsWithout(past, seen + {k}, items[1..]);
        assert past + (seen + {k}) == past + seen + {k};
        assert ([items[0]] + FirstPerKey(seen + {k}, items[1..]))[1..] == FirstPerKey(seen + {k}, items[1..]);
        if k in past { assert past + seen + {k} == past + seen; }
      }
    }
  }

  // ---------------------------------------------------------------- keys and identities

  /** Item i is the first with its key. */
  predicate IsFirst<K(==), T>(items: seq<Keyed<K, T>>, i: nat)
    requires i < |items|
  {
    forall j :: 0 <= j < i ==> items[j].key != items[i].key
  }

  /** Of the first n items the values of those that are the first with their key, in order. */
  function Firsts<K(==), T>(items: seq<Keyed<K, T>>, n: nat): seq<T>
    requires n <= |items|
  {
    if n == 0 then [] else Firsts(items, n - 1) + if IsFirst(items, n - 1) then [items[n - 1].value] else []
  }

  lemma {:induction false} KeptAreFirsts<K, T>(items: seq<Keyed<K, T>>, n: nat)
    requires n <= |items|
    ensures Values(FirstPerKey({}, items[..n])) == Firsts(items, n)
  {
    if n > 0 {
      KeptAreFirsts(items, n - 1);
      var head, last := items[..n - 1], items[n - 1];
      assert items[..n] == head + [last];
      KeptValuesStep(head, last);
      FirstIsNew(items, n - 1);
    }
  }

  lemma FirstIsNew<K, T>(items: seq<Keyed<K, T>>, i: nat)
    requires i < |items|
    ensures IsFirst(items, i) <==> items[i].key !in KeySet(items[..i])
  {
    if items[i].key in KeySet(items[..i]) {
      var j :| 0 <= j < |items[..i]| && items[..i][j].key == items[i].key;
      assert items[j].key == items[i].key;
    }
    if j :| 0 <= j < i && items[j].key == items[i].key {
      assert items[..i][j].key == items[i].key;
    }
  }

  /** Where those items stand. */
  function FirstPlaces<K(==), T>(items: seq<Keyed<K, T>>, n: nat): seq<nat>
    requires n <= |items|
  {
    if n == 0 then [] else FirstPlaces(items, n - 1) + if IsFirst(items, n - 1) then [n - 1] else []
  }

  lemma {:induction false} FirstsStand<K, T>(items: seq<Keyed<K, T>>, n: nat)
    requires n <= |items|
    ensures var at, values := FirstPlaces(items, n), Firsts(items, n);
      && |at| == |values|
      && (forall k :: 0 <= k < |at| ==> at[k] < n && IsFirst(items, at[k]) && values[k] == items[at[k]].value)
      && (forall j, k :: 0 <= j < k < |at| ==> at[j] < at[k])
  {
    if n > 0 {
      FirstsStand(items, n - 1);
    }
  }

  lemma {:induction false} PlaceOfFirst<K, T>(items: seq<Keyed<K, T>>, n: nat, i: nat) returns (k: nat)
    requires i < n <= |items| && IsFirst(items, i)
    ensures k < |FirstPlaces(items, n)| && FirstPlaces(items, n)[k] == i
  {
    if i == n - 1 {
      k := |FirstPlaces(items, n - 1)|;
    } else {
      k := PlaceOfFirst(items, n - 1, i);
    }
  }

  /** The same values under two keys, of which the second tells at least as many values apart. */
  ghost predicate Finer<K, L, T>(byKey: seq<Keyed<K, T>>, byIdentity: seq<Keyed<L, T>>) {
    && |byKey| == |byIdentity|
    && (forall i :: 0 <= i < |byKey| ==> byKey[i].value == byIdentity[i].value)
    && (forall i, j :: 0 <= i < |byKey| && 0 <= j < |byKey| && byIdentity[i].key == byIdentity[j].key ==>
          byKey[i].key == byKey[j].key)
  }

  /** Two items share a key and differ in identity. */
  ghost predicate Collides<K, L, T>(byKey: seq<Keyed<K, T>>, byIdentity: seq<Keyed<L, T>>)
    requires |byKey| == |byIdentity|
  {
    exists i, j :: 0 <= i < |byKey| && 0 <= j < |byKey|
      && byKey[i].key == byKey[j].key && byIdentity[i].key != byIdentity[j].key
  }

  /** Going by the key keeps no more than going by the identity; equally much only if the same
      items are the first ones. */
  lemma {:induction false} CoarserKeepsLess<K, L, T>(byKey: seq<Keyed<K, T>>, byIdentity: seq<Keyed<L, T>>, n: nat)
    requires Finer(byKey, byIdentity) && n <= |byKey|
    ensures |Firsts(byKey, n)| <= |Firsts(byIdentity, n)|
    ensures |Firsts(byKey, n)| == |Firsts(byIdentity, n)| <==>
      forall i :: 0 <= i < n ==> (IsFirst(byKey, i) <==> IsFirst(byIdentity, i))
    ensures |Firsts(byKey, n)| == |Firsts(byIdentity, n)| ==> Firsts(byKey, n) == Firsts(byIdentity, n)
  {
    if n > 0 {
      CoarserKeepsLess(byKey, byIdentity, n - 1);
      if IsFirst(byKey, n - 1) {
        forall j | 0 <= j < n - 1 ensures byIdentity[j].key != byIdentity[n - 1].key {
          assert byKey[j].key != byKey[n - 1].key;
        }
      }
    }
  }

  lemma FirstOf<K, T>(items: seq<Keyed<K, T>>, i: nat) returns (f: nat)
    requires i < |items|
    ensures f <= i && items[f].key == items[i].key && IsFirst(items, f)
  {
    f := 0;
    while items[f].key != items[i].key
      invariant f <= i && forall j :: 0 <= j < f ==> items[j].key != items[i].key
      decreases i - f
    {
      f := f + 1;
    }
  }

  /** The seen map over keys keeps the first value of each identity exactly when no two items share
      a key and differ in identity. Otherwise it keeps fewer values. */
  lemma KeptByIdentityExactly<K, L, T>(byKey: seq<Keyed<K, T>>, byIdentity: seq<Keyed<L, T>>)
    requires Finer(byKey, byIdentity)
    ensures Values(FirstPerKey({}, byKey)) == Firsts(byIdentity, |byIdentity|) <==> !Collides(byKey, byIdentity)
    ensures |FirstPerKey({}, byKey)| < |Firsts(byIdentity, |byIdentity|)| <==> Collides(byKey, byIdentity)
  {
    var n := |byKey|;
    assert byKey[..n] == byKey;
    KeptAreFirsts(byKey, n);
    CoarserKeepsLess(byKey, byIdentity, n);
    if Collides(byKey, byIdentity) {
      TwoFirsts(byKey, byIdentity);
    } else {
      forall i | 0 <= i < n ensures IsFirst(byKey, i) <==> IsFirst(byIdentity, i) {
        forall j | 0 <= j < i ensures byKey[j].key == byKey[i].key <==> byIdentity[j].key == byIdentity[i].key {
        }
      }
    }
  }

  lemma TwoFirsts<K, L, T>(byKey: seq<Keyed<K, T>>, byIdentity: seq<Keyed<L, T>>)
    requires Finer(byKey, byIdentity) && Collides(byKey, byIdentity)
    ensures exists i :: 0 <= i < |byKey| && IsFirst(byIdentity, i) && !IsFirst(byKey, i)
  {
    var i, j :| 0 <= i < |byKey| && 0 <= j < |byKey|
      && byKey[i].key == byKey[j].key && byIdentity[i].key != byIdentity[j].key;
    var f := FirstOf(byIdentity, i);
    var g := FirstOf(byIdentity, j);
    assert byKey[f].key == byKey[i].key && byKey[g].key == byKey[j].key && f != g;
    if f < g {
      assert !IsFirst(byKey, g);
    } else {
      assert !IsFirst(byKey, f);
    }
  }
}
