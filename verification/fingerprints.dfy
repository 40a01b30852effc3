/** Which configurations a fingerprint identifies (internal/provider/runtime.go), among all of them. */
module Fingerprints {
  import opened Keys
  import opened Separators

  const NUL := '\0'

  /** No other configuration has this one's fingerprint. */
  ghost predicate Unique(a: map<string, string>) {
    forall b :: Fingerprint(b) == Fingerprint(a) ==> b == a
  }

  function Nuls(s: string): nat {
    multiset(s)[NUL]
  }

  lemma NulsAdd(a: string, b: string)
    ensures Nuls(a + b) == Nuls(a) + Nuls(b)
  {
  }

  lemma EntryNuls(e: Entry)
    ensures Nuls(e.Text()) >= 2
    ensures Nuls(e.Text()) == 2 <==> e.NulFree()
  {
    assert Nuls(e.Text()) == Nuls(e.key) + Nuls("\0") + Nuls(e.value) + Nuls("\0");
  }

  /** Every entry brings two NUL bytes, and more if its key or its value holds one. */
  lemma {:induction false} WrittenNuls(entries: seq<Entry>)
    ensures Nuls(Written(entries)) >= 2 * |entries|
    ensures Nuls(Written(entries)) == 2 * |entries| ==> forall i :: 0 <= i < |entries| ==> entries[i].NulFree()
  {
    if entries != [] {
      EntryNuls(entries[0]);
      WrittenNuls(entries[1..]);
      NulsAdd(entries[0].Text(), Written(entries[1..]));
      forall i | 1 <= i < |entries| ensures entries[i] == entries[1..][i - 1] {
      }
    }
  }

  lemma {:induction false} EndsInNul(entries: seq<Entry>)
    requires entries != []
    ensures |Written(entries)| > 0 && Written(entries)[|Written(entries)| - 1] == NUL
  {
    var text := entries[0].Text();
    assert text[|text| - 1] == NUL;
    if |entries| > 1 {
      EndsInNul(entries[1..]);
      assert Written(entries)[|Written(entries)| - 1] == Written(entries[1..])[|Written(entries[1..])| - 1];
    }
  }

  lemma OneEntry(k: string, v: string)
    ensures Fingerprint(map[k := v]) == Sha256(k + "\0" + v + "\0")
  {
    FingerprintOfOne(k, v);
    assert [Entry(k, v)][1..] == [];
    assert Written([Entry(k, v)]) == Entry(k, v).Text() + "";
  }

  lemma EntriesCover(a: map<string, string>)
    ensures a == map[] <==> EntriesOf(SortedKeys(a), a) == []
    ensures (forall i :: 0 <= i < |SortedKeys(a)| ==> EntriesOf(SortedKeys(a), a)[i].NulFree()) ==> NulFree(a)
  {
    var ks := SortedKeys(a);
    forall k | k in a ensures exists i :: 0 <= i < |ks| && EntriesOf(ks, a)[i] == Entry(k, a[k]) {
      var i :| 0 <= i < |ks| && ks[i] == k;
      assert EntriesOf(ks, a)[i] == Entry(k, a[k]);
    }
    if ks != [] { assert ks[0] in a; }
  }

  /** Every configuration that is not empty has the fingerprint of one with a single entry, whose key
      is the text before the first NUL byte written. */
  lemma SharedWithOneEntry(a: map<string, string>) returns (k: string, v: string)
    requires a != map[]
    ensures NUL !in k && Fingerprint(map[k := v]) == Fingerprint(a)
  {
    var entries := EntriesOf(SortedKeys(a), a);
    EntriesCover(a);
    var s := Written(entries);
    WrittenNuls(entries);
    EndsInNul(entries);
    k, v := SplitEntry(s);
    OneEntry(k, v);
  }

  lemma SplitEntry(s: string) returns (k: string, v: string)
    requires Nuls(s) >= 2 && s[|s| - 1] == NUL
    ensures NUL !in k && s == k + "\0" + v + "\0"
  {
    var rest;
    k, rest := FirstCut(NUL, s);
    assert Nuls(s) == Nuls(k) + 1 + Nuls(rest);
    assert rest[|rest| - 1] == s[|s| - 1];
    v := rest[..|rest| - 1];
    assert rest == v + "\0";
    Regroup(k, v);
  }

  lemma Regroup(k: string, v: string)
    ensures k + [NUL] + (v + "\0") == k + "\0" + v + "\0"
  {
  }

  /** A NUL byte in the value of a single entry can as well belong to the key. */
  lemma NulInValue(k: string, v: string)
    requires NUL in v
    ensures !Unique(map[k := v])
  {
    var head, w := FirstCut(NUL, v);
    var l := k + "\0" + head;
    OneEntry(k, v);
    OneEntry(l, w);
    SameText(k, head, w);
    assert |l| > |k|;
    assert k in map[k := v] && k !in map[l := w];
    assert Fingerprint(map[l := w]) == Fingerprint(map[k := v]);
  }

  lemma SameText(k: string, head: string, w: string)
    ensures k + "\0" + (head + [NUL] + w) + "\0" == (k + "\0" + head) + "\0" + w + "\0"
  {
  }

  /** A fingerprint belongs to one configuration alone exactly when that is empty, or has a single
      entry and no NUL byte. */
  lemma FingerprintUniqueExactly(a: map<string, string>)
    ensures Unique(a) <==> a == map[] || (|a| == 1 && NulFree(a))
  {
    if a == map[] {
      EmptyIsUnique();
    } else {
      var k, v := SharedWithOneEntry(a);
      assert Unique(a) ==> a == map[k := v];
      if NUL in v {
        NulInValue(k, v);
      }
      if |a| == 1 && NulFree(a) {
        SingleIsUnique(a);
      }
    }
  }

  lemma EmptyIsUnique()
    ensures Unique(map[])
  {
    forall b: map<string, string> | b != map[] ensures Fingerprint(b) != Fingerprint(map[]) {
      EntriesCover(map[]);
      EntriesCover(b);
      EndsInNul(EntriesOf(SortedKeys(b), b));
    }
  }

  lemma SingleIsUnique(a: map<string, string>)
    requires |a| == 1 && NulFree(a)
    ensures Unique(a)
  {
    var k :| k in a;
    OnlyKey(a, k);
    OneEntry(k, a[k]);
    EntryNuls(Entry(k, a[k]));
    EntriesCover(a);
    forall b | Fingerprint(b) == Fingerprint(a) ensures b == a {
      var entries := EntriesOf(SortedKeys(b), b);
      EntriesCover(b);
      WrittenNuls(entries);
      assert Nuls(Written(entries)) == 2;
      assert entries != [];
      FingerprintExact(a, b);
    }
  }

  lemma OnlyKey(a: map<string, string>, k: string)
    requires |a| == 1 && k in a
    ensures a == map[k := a[k]]
  {
    assert |a.Keys - {k}| == 0;
    assert a.Keys == (a.Keys - {k}) + {k};
  }
}
