/** Canonical keys: the configuration fingerprint of provider sessions (internal/provider/runtime.go) and
    the scope key of scans (internal/data/persistence.go). SHA-256 is an injective digest. */
module Keys {
  import opened Letters
  import opened Runes
  import opened Sorting

  /** The digest of a byte string; two digests are equal when their inputs are. */
  datatype Digest = Sha256(preimage: string)

  // ---------------------------------------------------------------- configuration fingerprint

  /** The keys of a set in some order, each once. */
  ghost function Listed(keys: set<string>): (ks: seq<string>)
    ensures multiset(ks) == multiset(keys)
  {
    if keys == {} then []
    else
      var k :| k in keys;
      assert multiset(keys) == multiset(keys - {k}) + multiset{k};
      [k] + Listed(keys - {k})
  }

  datatype Entry = Entry(key: string, value: string) {
    function Text(): string { key + "\0" + value + "\0" }

    predicate NulFree() { '\0' !in key && '\0' !in value }
  }

  /** What is written to the hash: each key and value, each followed by NUL. */
  function Written(entries: seq<Entry>): string {
    if entries == [] then "" else entries[0].Text() + Written(entries[1..])
  }

  lemma {:induction false} WrittenAppend(entries: seq<Entry>, last: Entry)
    ensures Written(entries + [last]) == Written(entries) + last.Text()
  {
    var all := entries + [last];
    if entries == [] {
      assert all == [last] && all[1..] == [];
      assert Written(all) == last.Text() + "";
    } else {
      assert all[1..] == entries[1..] + [last];
      WrittenAppend(entries[1..], last);
    }
  }

  function EntriesOf(keys: seq<string>, config: map<string, string>): seq<Entry>
    requires forall k :: k in keys ==> k in config
  {
    seq(|keys|, i requires 0 <= i < |keys| => Entry(keys[i], config[keys[i]]))
  }

  lemma ListedIn(ks: seq<string>, keys: set<string>)
    requires multiset(ks) == multiset(keys)
    ensures forall k :: k in ks <==> k in keys
  {
    forall k ensures k in ks <==> k in keys {
      assert k in ks <==> k in multiset(ks);
      assert k in keys <==> k in multiset(keys);
    }
  }

  ghost function SortedKeys(config: map<string, string>): (ks: seq<string>)
    ensures forall k :: k in ks <==> k in config
  {
    ListedIn(SortStrings(Listed(config.Keys)), config.Keys);
    SortStrings(Listed(config.Keys))
  }

  ghost function Fingerprint(config: map<string, string>): Digest {
    Sha256(Written(EntriesOf(SortedKeys(config), config)))
  }

  method ListKeys(keys: set<string>) returns (ks: seq<string>)
    ensures multiset(ks) == multiset(keys)
  {
    ks := [];
    var left := keys;
    while left != {}
      invariant left <= keys
      invariant multiset(ks) + multiset(left) == multiset(keys)
    {
      var key :| key in left;
      assert multiset(left) == multiset(left - {key}) + multiset{key};
      ks := ks + [key];
      left := left - {key};
    }
  }

  lemma FingerprintOf(config: map<string, string>, keys: seq<string>)
    requires Sorted(keys) && multiset(keys) == multiset(config.Keys)
    ensures (forall k :: k in keys ==> k in config) && Fingerprint(config) == Sha256(Written(EntriesOf(keys, config)))
  {
    ListedIn(keys, config.Keys);
    SortSorts(Listed(config.Keys));
    SortedUnique(SortedKeys(config), keys);
  }

  method HashEntries(keys: seq<string>, config: map<string, string>) returns (hash: string)
    requires forall k :: k in keys ==> k in config
    ensures hash == Written(EntriesOf(keys, config))
  {
    ghost var entries := EntriesOf(keys, config);
    hash := "";
    for i := 0 to |keys|
      invariant hash == Written(entries[..i])
    {
      WrittenAppend(entries[..i], entries[i]);
      assert entries[..i + 1] == entries[..i] + [entries[i]];
      hash := hash + (keys[i] + "\0" + config[keys[i]] + "\0");
    }
    assert entries[..|keys|] == entries;
  }

  /** configurationFingerprint: for any order in which the map hands out its keys. */
  method ConfigurationFingerprint(config: map<string, string>) returns (digest: Digest)
    ensures digest == Fingerprint(config)
  {
    var keys := ListKeys(config.Keys);
    SortSorts(keys);
    keys := SortStrings(keys);
    FingerprintOf(config, keys);
    var hash := HashEntries(keys, config);
    digest := Sha256(hash);
  }

  /** The text up to the first NUL. */
  function UntilNul(s: string): (t: string)
    ensures |t| <= |s|
  {
    if s == "" || s[0] == '\0' then "" else [s[0]] + UntilNul(s[1..])
  }

  lemma {:induction false} UntilNulOf(a: string, b: string)
    requires '\0' !in a
    ensures UntilNul(a + "\0" + b) == a
    ensures (a + "\0" + b)[|a| + 1..] == b
    decreases |a|
  {
    var s := a + "\0" + b;
    if a != "" {
      assert s[1..] == a[1..] + "\0" + b;
      UntilNulOf(a[1..], b);
    }
  }

  /** Reads the written form back. */
  function Parsed(s: string): seq<Entry>
    decreases |s|
  {
    var key := UntilNul(s);
    if |key| == |s| then []
    else
      var rest := s[|key| + 1..];
      var value := UntilNul(rest);
      if |value| == |rest| then [] else [Entry(key, value)] + Parsed(rest[|value| + 1..])
  }

  /** The written form of NUL-free entries is read back exactly. */
  lemma {:induction false} ParsedOfWritten(entries: seq<Entry>)
    requires forall i :: 0 <= i < |entries| ==> entries[i].NulFree()
    ensures Parsed(Written(entries)) == entries
  {
    if entries != [] {
      var e, rest := entries[0], Written(entries[1..]);
      assert Written(entries) == e.key + "\0" + (e.value + "\0" + rest);
      UntilNulOf(e.key, e.value + "\0" + rest);
      UntilNulOf(e.value, rest);
      ParsedOfWritten(entries[1..]);
    }
  }

  predicate NulFree(config: map<string, string>) {
    forall k :: k in config ==> '\0' !in k && '\0' !in config[k]
  }

  lemma EntriesReadBack(config: map<string, string>)
    requires NulFree(config)
    ensures Parsed(Fingerprint(config).preimage) == EntriesOf(SortedKeys(config), config)
  {
    var keys := SortedKeys(config);
    var entries := EntriesOf(keys, config);
    forall i | 0 <= i < |entries| ensures entries[i].NulFree() {
      assert keys[i] in config;
    }
    ParsedOfWritten(entries);
  }

  /** NUL-free configurations have equal fingerprints exactly when they are equal. */
  lemma FingerprintExact(a: map<string, string>, b: map<string, string>)
    requires NulFree(a) && NulFree(b)
    ensures Fingerprint(a) == Fingerprint(b) <==> a == b
  {
    if Fingerprint(a) == Fingerprint(b) {
      EntriesReadBack(a);
      EntriesReadBack(b);
      EntriesDetermine(a, b);
      EntriesDetermine(b, a);
    }
  }

  lemma EntriesDetermine(a: map<string, string>, b: map<string, string>)
    requires EntriesOf(SortedKeys(a), a) == EntriesOf(SortedKeys(b), b)
    ensures forall k :: k in a ==> k in b && b[k] == a[k]
  {
    var ka, kb := SortedKeys(a), SortedKeys(b);
    forall k | k in a ensures k in b && b[k] == a[k] {
      var i :| 0 <= i < |ka| && ka[i] == k;
      assert EntriesOf(ka, a)[i] == EntriesOf(kb, b)[i];
      assert kb[i] in kb;
    }
  }

  /** Without that condition it fails: a NUL in a value makes one entry look like two. */
  lemma FingerprintCollision(a: map<string, string>, b: map<string, string>)
    requires a == map["a" := "b\0c\0d"] && b == map["a" := "b", "c" := "d"]
    ensures a != b && Fingerprint(a) == Fingerprint(b)
  {
    assert a["a"] != b["a"];
    FingerprintOfOne("a", "b\0c\0d");
    assert Leq("a", "c");
    FingerprintOfTwo("a", "b", "c", "d");
    OneLooksLikeTwo();
  }

  lemma FingerprintOfOne(k: string, v: string)
    ensures Fingerprint(map[k := v]) == Sha256(Written([Entry(k, v)]))
  {
    var config := map[k := v];
    assert config.Keys == {k};
    assert multiset(config.Keys) == multiset([k]);
    FingerprintOf(config, [k]);
    assert EntriesOf([k], config) == [Entry(k, v)];
  }

  lemma FingerprintOfTwo(j: string, u: string, k: string, v: string)
    requires j != k && Sorted([j, k])
    ensures Fingerprint(map[j := u, k := v]) == Sha256(Written([Entry(j, u), Entry(k, v)]))
  {
    var config := map[j := u, k := v];
    assert config.Keys == {j, k};
    assert multiset(config.Keys) == multiset([j, k]);
    FingerprintOf(config, [j, k]);
    assert EntriesOf([j, k], config) == [Entry(j, u), Entry(k, v)];
  }

  lemma OneLooksLikeTwo()
    ensures Written([Entry("a", "b\0c\0d")]) == Written([Entry("a", "b"), Entry("c", "d")])
  {
    var one, first, second := Entry("a", "b\0c\0d"), Entry("a", "b"), Entry("c", "d");
    WrittenAppend([], one);
    WrittenAppend([], first);
    WrittenAppend([first], second);
    assert [] + [one] == [one] && [] + [first] == [first] && [first] + [second] == [first, second];
    assert one.Text() == first.Text() + second.Text();
  }

  // ---------------------------------------------------------------- JSON of strings

  function HexDigit(n: nat): char
    requires n < 16
  {
    if n < 10 then '0' + n as char else 'a' + (n - 10) as char
  }

  function Hex4(n: nat): string
    requires n < 0x10000
  {
    [HexDigit(n / 4096), HexDigit(n / 256 % 16), HexDigit(n / 16 % 16), HexDigit(n % 16)]
  }

  /** encoding/json's escape of one code point, HTML escaping on. */
  function EscapeChar(c: char): string {
    if c == '"' || c == '\\' then ['\\', c]
    else if c == '\n' then "\\n"
    else if c == '\r' then "\\r"
    else if c == '\t' then "\\t"
    else if c == '\U{08}' then "\\b"
    else if c == '\U{0C}' then "\\f"
    else if c < ' ' || c == '<' || c == '>' || c == '&' || c == '\U{2028}' || c == '\U{2029}' then
      "\\u" + Hex4(c as int)
    else [c]
  }

  function Escaped(s: string): string {
    if s == "" then "" else EscapeChar(s[0]) + Escaped(s[1..])
  }

  function Quoted(s: string): string {
    "\"" + Escaped(s) + "\""
  }

  function More(values: seq<string>): string {
    if values == [] then "]" else "," + Quoted(values[0]) + More(values[1..])
  }

  function ArrayOf(values: seq<string>): string {
    if values == [] then "[]" else "[" + Quoted(values[0]) + More(values[1..])
  }

  lemma HexDigits(n: nat)
    requires n < 0x10000
    ensures n == n / 4096 * 4096 + n / 256 % 16 * 256 + n / 16 % 16 * 16 + n % 16
  {
    assert n / 4096 == n / 256 / 16 && n / 256 == n / 16 / 16;
  }

  lemma Hex4Injective(m: nat, n: nat)
    requires m < 0x10000 && n < 0x10000 && Hex4(m) == Hex4(n)
    ensures m == n
  {
    HexDigits(m);
    HexDigits(n);
    var a, b := Hex4(m), Hex4(n);
    assert a[0] == b[0] && a[1] == b[1] && a[2] == b[2] && a[3] == b[3];
    SameDigit(m / 4096, n / 4096);
    SameDigit(m / 256 % 16, n / 256 % 16);
    SameDigit(m / 16 % 16, n / 16 % 16);
    SameDigit(m % 16, n % 16);
  }

  lemma SameDigit(m: nat, n: nat)
    requires m < 16 && n < 16 && HexDigit(m) == HexDigit(n)
    ensures m == n
  {
    if m < 10 && n < 10 {
      assert (HexDigit(m) as int) == ('0' as int) + m && (HexDigit(n) as int) == ('0' as int) + n;
    }
  }

  /** No escape begins with a quote, and no escape begins another. */
  lemma EscapesAreACode(c: char, x: string, d: char, y: string)
    ensures EscapeChar(c)[0] != '"'
    ensures EscapeChar(c) + x == EscapeChar(d) + y ==> c == d && x == y
  {
    var a, b := EscapeChar(c), EscapeChar(d);
    if a + x == b + y {
      assert (a + x)[0] == (b + y)[0];
      assert |a| > 1 && |b| > 1 ==> (a + x)[1] == (b + y)[1];
      SameLength(c, d);
      SamePrefix(a, x, b, y);
      EscapeInjective(c, d);
    }
  }

  lemma SameLength(c: char, d: char)
    requires EscapeChar(c)[0] == EscapeChar(d)[0]
    requires |EscapeChar(c)| > 1 && |EscapeChar(d)| > 1 ==> EscapeChar(c)[1] == EscapeChar(d)[1]
    ensures |EscapeChar(c)| == |EscapeChar(d)|
  {
  }

  lemma SamePrefix(a: string, x: string, b: string, y: string)
    requires a + x == b + y && |a| == |b|
    ensures a == b && x == y
  {
    assert a == (a + x)[..|a|] && b == (b + y)[..|b|];
    assert x == (a + x)[|a|..] && y == (b + y)[|b|..];
  }

  lemma EscapeInjective(c: char, d: char)
    requires EscapeChar(c) == EscapeChar(d)
    ensures c == d
  {
    var a, b := EscapeChar(c), EscapeChar(d);
    if |a| == 6 {
      assert a[2..] == Hex4(c as int) && b[2..] == Hex4(d as int);
      Hex4Injective(c as int, d as int);
    }
  }

  lemma Cancel(p: string, x: string, y: string)
    requires p + x == p + y
    ensures x == y
  {
    assert (p + x)[|p|..] == x && (p + y)[|p|..] == y;
  }

  lemma Regroup2(a: string, b: string, c: string)
    ensures a + b + c == a + (b + c)
  {
  }

  /** The rest of a JSON text from within a string: s escaped, the closing quote, and x. */
  function Closing(s: string, x: string): string {
    if s == "" then "\"" + x else EscapeChar(s[0]) + Closing(s[1..], x)
  }

  lemma {:induction false} ClosingShape(s: string, x: string)
    ensures Closing(s, x) == Escaped(s) + ("\"" + x)
  {
    if s != "" {
      ClosingShape(s[1..], x);
      Regroup2(EscapeChar(s[0]), Escaped(s[1..]), "\"" + x);
    }
  }

  /** The closing quote comes first only after an empty string. */
  lemma QuoteFirst(s: string, x: string)
    ensures s == "" <==> Closing(s, x)[0] == '"'
  {
    if s != "" {
      EscapesAreACode(s[0], "", s[0], "");
    }
  }

  lemma {:induction false} QuotedIsACode(s: string, x: string, t: string, y: string)
    requires Closing(s, x) == Closing(t, y)
    ensures s == t && x == y
    decreases |s|
  {
    QuoteFirst(s, x);
    QuoteFirst(t, y);
    if s == "" {
      Cancel("\"", x, y);
    } else {
      EscapesAreACode(s[0], Closing(s[1..], x), t[0], Closing(t[1..], y));
      QuotedIsACode(s[1..], x, t[1..], y);
      assert s == [s[0]] + s[1..] && t == [t[0]] + t[1..];
    }
  }

  lemma QuotedShape(s: string, x: string)
    ensures Quoted(s) + x == "\"" + Closing(s, x)
  {
    ClosingShape(s, x);
    Regroup3("\"", Escaped(s), "\"", x);
  }

  lemma QuotedThen(s: string, x: string, t: string, y: string)
    requires Quoted(s) + x == Quoted(t) + y
    ensures s == t && x == y
  {
    QuotedShape(s, x);
    QuotedShape(t, y);
    Cancel("\"", Closing(s, x), Closing(t, y));
    QuotedIsACode(s, x, t, y);
  }

  lemma Regroup3(a: string, b: string, c: string, x: string)
    ensures a + b + c + x == a + (b + (c + x))
  {
  }

  // ---------------------------------------------------------------- reading JSON strings

  function HexValue(c: char): (value: nat)
    ensures value < 16
  {
    if '0' <= c <= '9' then c as int - '0' as int
    else if 'a' <= c <= 'f' then c as int - 'a' as int + 10
    else if 'A' <= c <= 'F' then c as int - 'A' as int + 10
    else 0
  }

  function HexUnit(a: char, b: char, c: char, d: char): (unit: nat)
    ensures unit < 0x10000
  {
    4096 * HexValue(a) + 256 * HexValue(b) + 16 * HexValue(c) + HexValue(d)
  }

  datatype Read = Read(value: string, rest: string) | Unfinished

  /** What a JSON reader makes of a text from within a string (section 7 of RFC 8259): the value up to the
      closing quote, and the text after it. Of the escapes only those of one code unit matter here. */
  function ReadString(s: string): Read
    decreases |s|
  {
    if s == "" then Unfinished
    else if s[0] == '"' then Read("", s[1..])
    else if s[0] != '\\' then Prefixed(s[0], ReadString(s[1..]))
    else if |s| < 2 then Unfinished
    else if s[1] == 'n' then Prefixed('\n', ReadString(s[2..]))
    else if s[1] == 'r' then Prefixed('\r', ReadString(s[2..]))
    else if s[1] == 't' then Prefixed('\t', ReadString(s[2..]))
    else if s[1] == 'b' then Prefixed('\U{08}', ReadString(s[2..]))
    else if s[1] == 'f' then Prefixed('\U{0C}', ReadString(s[2..]))
    else if s[1] != 'u' then Prefixed(s[1], ReadString(s[2..]))
    else if |s| < 6 then Unfinished
    else
      var unit := HexUnit(s[2], s[3], s[4], s[5]);
      if 0xD800 <= unit < 0xE000 then Unfinished else Prefixed(unit as char, ReadString(s[6..]))
  }

  function Prefixed(c: char, read: Read): Read {
    if read.Unfinished? then Unfinished else Read([c] + read.value, read.rest)
  }

  lemma HexReadsBack(n: nat)
    requires n < 0x10000
    ensures var h := Hex4(n); HexUnit(h[0], h[1], h[2], h[3]) == n
  {
    HexDigits(n);
    DigitReadsBack(n / 4096);
    DigitReadsBack(n / 256 % 16);
    DigitReadsBack(n / 16 % 16);
    DigitReadsBack(n % 16);
  }

  lemma DigitReadsBack(n: nat)
    requires n < 16
    ensures HexValue(HexDigit(n)) == n
  {
  }

  lemma UnitReadsBack(c: char, x: string)
    requires |EscapeChar(c)| == 6
    ensures ReadString(EscapeChar(c) + x) == Prefixed(c, ReadString(x))
  {
    var e, h := EscapeChar(c), Hex4(c as int);
    var s := e + x;
    HexReadsBack(c as int);
    assert e == "\\u" + h;
    assert s[0] == '\\' && s[1] == 'u' && s[2] == h[0] && s[3] == h[1] && s[4] == h[2] && s[5] == h[3];
    assert s[6..] == x;
  }

  lemma PairReadsBack(c: char, x: string)
    requires |EscapeChar(c)| == 2
    ensures ReadString(EscapeChar(c) + x) == Prefixed(c, ReadString(x))
  {
    var s := EscapeChar(c) + x;
    assert s[0] == EscapeChar(c)[0] && s[1] == EscapeChar(c)[1] && s[2..] == x;
  }

  lemma EscapeReadsBack(c: char, x: string)
    ensures ReadString(EscapeChar(c) + x) == Prefixed(c, ReadString(x))
  {
    if |EscapeChar(c)| == 6 {
      UnitReadsBack(c, x);
    } else if |EscapeChar(c)| == 2 {
      PairReadsBack(c, x);
    } else {
      assert (EscapeChar(c) + x)[0] == c && (EscapeChar(c) + x)[1..] == x;
    }
  }

  /** A JSON reader gets every quoted string back, whatever follows it. */
  lemma {:induction false} QuotedReadsBack(s: string, x: string)
    ensures ReadString(Escaped(s) + ("\"" + x)) == Read(s, x)
  {
    if s == "" {
      assert Escaped(s) + ("\"" + x) == "\"" + x;
    } else {
      QuotedReadsBack(s[1..], x);
      Regroup2(EscapeChar(s[0]), Escaped(s[1..]), "\"" + x);
      EscapeReadsBack(s[0], Escaped(s[1..]) + ("\"" + x));
      assert [s[0]] + s[1..] == s;
    }
  }

  // ---------------------------------------------------------------- lists as JSON

  lemma MoreShape(a: seq<string>, x: string)
    ensures a != [] ==> More(a) + x == "," + (Quoted(a[0]) + (More(a[1..]) + x))
    ensures (More(a) + x)[0] == if a == [] then ']' else ','
  {
    if a != [] {
      Regroup3(",", Quoted(a[0]), More(a[1..]), x);
    }
  }

  lemma {:induction false} MoreIsACode(a: seq<string>, x: string, b: seq<string>, y: string)
    requires More(a) + x == More(b) + y
    ensures a == b && x == y
    decreases |a|
  {
    MoreShape(a, x);
    MoreShape(b, y);
    if a == [] {
      Cancel("]", x, y);
    } else {
      Cancel(",", Quoted(a[0]) + (More(a[1..]) + x), Quoted(b[0]) + (More(b[1..]) + y));
      QuotedThen(a[0], More(a[1..]) + x, b[0], More(b[1..]) + y);
      MoreIsACode(a[1..], x, b[1..], y);
      assert a == [a[0]] + a[1..] && b == [b[0]] + b[1..];
    }
  }

  lemma SecondOf(a: char, b: string, c: string)
    requires b != ""
    ensures ([a] + (b + c))[1] == b[0]
  {
  }

  lemma ArrayShape(a: seq<string>, x: string)
    ensures a == [] ==> ArrayOf(a) + x == "[]" + x
    ensures a != [] ==> ArrayOf(a) + x == "[" + (Quoted(a[0]) + (More(a[1..]) + x))
    ensures (ArrayOf(a) + x)[1] == if a == [] then ']' else '"'
  {
    if a != [] {
      Regroup3("[", Quoted(a[0]), More(a[1..]), x);
      SecondOf('[', Quoted(a[0]), More(a[1..]) + x);
    }
  }

  lemma ArrayIsACode(a: seq<string>, x: string, b: seq<string>, y: string)
    requires ArrayOf(a) + x == ArrayOf(b) + y
    ensures a == b && x == y
  {
    ArrayShape(a, x);
    ArrayShape(b, y);
    if a == [] {
      Cancel("[]", x, y);
    } else {
      Cancel("[", Quoted(a[0]) + (More(a[1..]) + x), Quoted(b[0]) + (More(b[1..]) + y));
      QuotedThen(a[0], More(a[1..]) + x, b[0], More(b[1..]) + y);
      MoreIsACode(a[1..], x, b[1..], y);
      assert a == [a[0]] + a[1..] && b == [b[0]] + b[1..];
    }
  }

  // ---------------------------------------------------------------- scope keys

  /** The trimmed values that are not blank. */
  function NonBlank(values: seq<string>): seq<string> {
    if values == [] then []
    else
      var head, last := NonBlank(values[..|values| - 1]), TrimSpace(values[|values| - 1]);
      if last == "" then head else head + [last]
  }

  function Normalized(values: seq<string>): seq<string> {
    SortStrings(NonBlank(values))
  }

  method Normalize(values: seq<string>) returns (result: seq<string>)
    ensures result == Normalized(values)
  {
    result := [];
    for i := 0 to |values|
      invariant result == NonBlank(values[..i])
    {
      assert values[..i + 1][..i] == values[..i];
      var value := TrimSpace(values[i]);
      if value != "" {
        result := result + [value];
      }
    }
    assert values[..|values|] == values;
    result := SortStrings(result);
  }

  function Payload(provider: string, services: seq<string>, scopes: seq<string>): string {
    "[" + Quoted(provider) + "," + ArrayOf(services) + "," + ArrayOf(scopes) + "]"
  }

  function ScopeKey(provider: string, services: seq<string>, scopes: seq<string>): Digest {
    Sha256(Payload(Lower(TrimSpace(provider)), Normalized(services), Normalized(scopes)))
  }

  method ScanScopeKey(provider: string, services: seq<string>, scopes: seq<string>) returns (key: Digest)
    ensures key == ScopeKey(provider, services, scopes)
  {
    var normalServices := Normalize(services);
    var normalScopes := Normalize(scopes);
    key := Sha256(Payload(Lower(TrimSpace(provider)), normalServices, normalScopes));
  }

  lemma PayloadExact(p: string, a: seq<string>, b: seq<string>, q: string, c: seq<string>, d: seq<string>)
    ensures Payload(p, a, b) == Payload(q, c, d) <==> p == q && a == c && b == d
  {
    if Payload(p, a, b) == Payload(q, c, d) {
      PayloadShape(p, a, b);
      PayloadShape(q, c, d);
      var m, n := "," + (ArrayOf(b) + "]"), "," + (ArrayOf(d) + "]");
      Cancel("[", Quoted(p) + ("," + (ArrayOf(a) + m)), Quoted(q) + ("," + (ArrayOf(c) + n)));
      QuotedThen(p, "," + (ArrayOf(a) + m), q, "," + (ArrayOf(c) + n));
      Cancel(",", ArrayOf(a) + m, ArrayOf(c) + n);
      ArrayIsACode(a, m, c, n);
      Cancel(",", ArrayOf(b) + "]", ArrayOf(d) + "]");
      ArrayIsACode(b, "]", d, "]");
    }
  }

  lemma PayloadShape(p: string, a: seq<string>, b: seq<string>)
    ensures Payload(p, a, b) == "[" + (Quoted(p) + ("," + (ArrayOf(a) + ("," + (ArrayOf(b) + "]")))))
  {
    Regroup7("[", Quoted(p), ",", ArrayOf(a), ",", ArrayOf(b), "]");
  }

  lemma Regroup7(a: string, b: string, c: string, d: string, e: string, f: string, g: string)
    ensures a + b + c + d + e + f + g == a + (b + (c + (d + (e + (f + g)))))
  {
  }

  /** Where the list has a value. */
  function PlacesOf(values: seq<string>, value: string): set<nat> {
    set i: nat | i < |values| && values[i] == value
  }

  function Trims(values: seq<string>): seq<string> {
    seq(|values|, i requires 0 <= i < |values| => TrimSpace(values[i]))
  }

  lemma PlacesOfLast(values: seq<string>, value: string)
    requires values != []
    ensures var n := |values| - 1;
      |PlacesOf(values, value)| == |PlacesOf(values[..n], value)| + if values[n] == value then 1 else 0
  {
    var n := |values| - 1;
    var head := PlacesOf(values[..n], value);
    assert n !in head;
    assert PlacesOf(values, value) == if values[n] == value then head + {n} else head;
  }

  lemma {:induction false} NonBlankCounts(values: seq<string>, value: string)
    ensures multiset(NonBlank(values))[value] == if value == "" then 0 else |PlacesOf(Trims(values), value)|
  {
    if values == [] {
      assert PlacesOf(Trims(values), value) == {};
    } else {
      var n := |values| - 1;
      NonBlankCounts(values[..n], value);
      PlacesOfLast(Trims(values), value);
      assert Trims(values)[..n] == Trims(values[..n]);
    }
  }

  /** The lists agree once values are trimmed and blank ones left out, up to the order. */
  ghost predicate SameValues(a: seq<string>, b: seq<string>) {
    forall value :: value != "" ==> |PlacesOf(Trims(a), value)| == |PlacesOf(Trims(b), value)|
  }

  lemma SameValuesExactly(a: seq<string>, b: seq<string>)
    ensures multiset(NonBlank(a)) == multiset(NonBlank(b)) <==> SameValues(a, b)
  {
    forall value
      ensures multiset(NonBlank(a))[value] == if value == "" then 0 else |PlacesOf(Trims(a), value)|
      ensures multiset(NonBlank(b))[value] == if value == "" then 0 else |PlacesOf(Trims(b), value)|
    {
      NonBlankCounts(a, value);
      NonBlankCounts(b, value);
    }
    if SameValues(a, b) {
      forall value ensures multiset(NonBlank(a))[value] == multiset(NonBlank(b))[value] {
      }
    }
  }

  /** Scope keys are equal exactly when the trimmed, lower-cased providers are, and the trimmed
      services and scopes that are not blank are the same with the same multiplicities, in any order. */
  lemma ScopeKeyExact(p: string, services: seq<string>, scopes: seq<string>,
      q: string, otherServices: seq<string>, otherScopes: seq<string>)
    ensures ScopeKey(p, services, scopes) == ScopeKey(q, otherServices, otherScopes) <==>
      && Lower(TrimSpace(p)) == Lower(TrimSpace(q))
      && SameValues(services, otherServices) && SameValues(scopes, otherScopes)
  {
    PayloadExact(Lower(TrimSpace(p)), Normalized(services), Normalized(scopes),
                 Lower(TrimSpace(q)), Normalized(otherServices), Normalized(otherScopes));
    SortCanonical(NonBlank(services), NonBlank(otherServices));
    SortCanonical(NonBlank(scopes), NonBlank(otherScopes));
    SameValuesExactly(services, otherServices);
    SameValuesExactly(scopes, otherScopes);
  }
}
