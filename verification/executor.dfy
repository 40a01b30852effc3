/** Merging and judging a scan (internal/scanexec/executor.go): deduplication, aggregation in
    requested scope order, and the status of the outcome. */
module Executor {
  import opened ScanScope
  import opened Dispatch
  import opened Positions
  import opened SeenMaps
  import opened Separators
  import opened Sorting
  import opened Wrappers

  // ---------------------------------------------------------------- identities

  const NUL := '\0'

  /** dedupeResources' key: the four identity fields joined with NUL. */
  function Key(r: Resource): string {
    r.provider + [NUL] + (r.accountId + [NUL] + (r.typ + [NUL] + r.id))
  }

  type Identity = (string, string, string, string)

  function IdentityOf(r: Resource): Identity {
    (r.provider, r.accountId, r.typ, r.id)
  }

  predicate HoldsNul(r: Resource) {
    NUL in r.provider || NUL in r.accountId || NUL in r.typ || NUL in r.id
  }

  /** Equal keys are equal identities when only the last field may hold a NUL byte. */
  lemma KeyIsIdentity(r: Resource, q: Resource)
    requires NUL !in r.provider && NUL !in r.accountId && NUL !in r.typ
    requires NUL !in q.provider && NUL !in q.accountId && NUL !in q.typ
    ensures Key(r) == Key(q) <==> IdentityOf(r) == IdentityOf(q)
  {
    if Key(r) == Key(q) {
      var r2, q2 := r.typ + [NUL] + r.id, q.typ + [NUL] + q.id;
      CutAtFirst(NUL, r.provider, r.accountId + [NUL] + r2, q.provider, q.accountId + [NUL] + q2);
      CutAtFirst(NUL, r.accountId, r2, q.accountId, q2);
      CutAtFirst(NUL, r.typ, r.id, q.typ, q.id);
    }
  }

  /** How many NUL bytes a text holds. */
  function Nuls(s: string): nat {
    multiset(s)[NUL]
  }

  lemma NulsInKey(r: Resource)
    ensures Nuls(Key(r)) == Nuls(r.provider) + Nuls(r.accountId) + Nuls(r.typ) + Nuls(r.id) + 3
    ensures HoldsNul(r) <==> Nuls(Key(r)) > 3
  {
    var tail := r.typ + [NUL] + r.id;
    assert Nuls(tail) == Nuls(r.typ) + 1 + Nuls(r.id);
    assert Nuls(r.accountId + [NUL] + tail) == Nuls(r.accountId) + 1 + Nuls(tail);
  }

  /** A resource shares its key with one of another identity exactly when one of its four fields
      holds a NUL byte: the byte can be moved into the joint between two fields. */
  lemma KeySharedExactly(r: Resource)
    ensures (exists q: Resource :: Key(q) == Key(r) && IdentityOf(q) != IdentityOf(r)) <==> HoldsNul(r)
  {
    if HoldsNul(r) {
      var q := MovedNul(r);
      assert Key(q) == Key(r);
    }
    if q: Resource :| Key(q) == Key(r) && IdentityOf(q) != IdentityOf(r) {
      NulsInKey(r);
      NulsInKey(q);
      if !HoldsNul(r) {
        KeyIsIdentity(r, q);
      }
    }
  }

  lemma MovedNul(r: Resource) returns (q: Resource)
    requires HoldsNul(r)
    ensures Key(q) == Key(r) && IdentityOf(q) != IdentityOf(r)
  {
    var a, b;
    if NUL in r.provider {
      a, b := FirstCut(NUL, r.provider);
      q := r.(provider := a, accountId := b + [NUL] + r.accountId);
      Rejoin(a, b, r.accountId, r.typ + [NUL] + r.id);
    } else if NUL in r.accountId {
      a, b := FirstCut(NUL, r.accountId);
      q := r.(accountId := a, typ := b + [NUL] + r.typ);
      Rejoin(a, b, r.typ, r.id);
    } else if NUL in r.typ {
      a, b := FirstCut(NUL, r.typ);
      q := r.(typ := a, id := b + [NUL] + r.id);
      Regroup(a, b, r.id);
    } else {
      a, b := FirstCut(NUL, r.id);
      q := r.(typ := r.typ + [NUL] + a, id := b);
      Regroup(r.typ, a, b);
    }
  }

  lemma Rejoin(a: string, b: string, c: string, d: string)
    ensures a + [NUL] + b + [NUL] + (c + [NUL] + d) == a + [NUL] + (b + [NUL] + c + [NUL] + d)
  {
  }

  lemma Regroup(a: string, b: string, c: string)
    ensures a + [NUL] + (b + [NUL] + c) == a + [NUL] + b + [NUL] + c
  {
  }

  // ---------------------------------------------------------------- deduplication

  type Entry = Option<Resource>

  /** The resources that are not nil, under their joined keys. */
  function Items(rs: seq<Entry>): (items: seq<Keyed<string, Resource>>)
    ensures |items| <= |rs|
    ensures forall i :: 0 <= i < |items| ==> items[i].key == Key(items[i].value) && Some(items[i].value) in rs
  {
    if rs == [] then []
    else
      var head, last := rs[..|rs| - 1], rs[|rs| - 1];
      assert rs == head + [last];
      if last.None? then Items(head) else Items(head) + [Keyed(Key(last.value), last.value)]
  }

  /** The same resources under their identities. */
  function Identified(rs: seq<Entry>): seq<Keyed<Identity, Resource>> {
    var items := Items(rs);
    seq(|items|, i requires 0 <= i < |items| => Keyed(IdentityOf(items[i].value), items[i].value))
  }

  function Dedupe(rs: seq<Entry>): (kept: seq<Resource>)
    ensures |kept| <= |rs|
  {
    Values(FirstPerKey({}, Items(rs)))
  }

  function Wrapped(rs: seq<Resource>): seq<Entry> {
    seq(|rs|, i requires 0 <= i < |rs| => Some(rs[i]))
  }

  lemma {:induction false} ItemsAppend(a: seq<Entry>, b: seq<Entry>)
    ensures Items(a + b) == Items(a) + Items(b)
    decreases |b|
  {
    if b == [] {
      assert a + b == a;
    } else {
      var head := b[..|b| - 1];
      assert (a + b)[..|a + b| - 1] == a + head;
      ItemsAppend(a, head);
    }
  }

  lemma {:induction false} ItemsHave(rs: seq<Entry>, r: Resource)
    requires Some(r) in rs
    ensures exists i :: 0 <= i < |Items(rs)| && Items(rs)[i].value == r
  {
    var head, last := rs[..|rs| - 1], rs[|rs| - 1];
    assert rs == head + [last];
    if last == Some(r) {
      assert Items(rs)[|Items(head)|].value == r;
    } else {
      ItemsHave(head, r);
      var i :| 0 <= i < |Items(head)| && Items(head)[i].value == r;
      assert Items(rs)[i].value == r;
    }
  }

  /** The resources without those whose key is among some. */
  function Minus(rs: seq<Resource>, keys: set<string>): seq<Resource> {
    if rs == [] then []
    else (if Key(rs[0]) in keys then [] else [rs[0]]) + Minus(rs[1..], keys)
  }

  predicate KeyedRight(items: seq<Keyed<string, Resource>>) {
    forall i :: 0 <= i < |items| ==> items[i].key == Key(items[i].value)
  }

  lemma {:induction false} WithoutIsMinus(items: seq<Keyed<string, Resource>>, keys: set<string>)
    requires KeyedRight(items)
    ensures Values(Without(items, keys)) == Minus(Values(items), keys)
  {
    if items != [] {
      WithoutIsMinus(items[1..], keys);
      assert Values(items)[1..] == Values(items[1..]);
      assert Values([items[0]] + Without(items[1..], keys)) == [items[0].value] + Values(Without(items[1..], keys));
    }
  }

  /** Kept items carry the keys of their values. */
  lemma KeptAreKeyed(rs: seq<Entry>)
    ensures KeyedRight(FirstPerKey({}, Items(rs)))
  {
    var kept := FirstPerKey({}, Items(rs));
    forall k | 0 <= k < |kept| ensures kept[k].key == Key(kept[k].value) {
      var i := KeptFrom({}, Items(rs), k);
    }
  }

  /** A resource survives merging exactly when no earlier entry has its key: of two scopes the
      earlier requested one wins. */
  lemma DedupeConcat(a: seq<Entry>, b: seq<Entry>)
    ensures Dedupe(a + b) == Dedupe(a) + Minus(Dedupe(b), KeySet(Items(a)))
  {
    var keys := KeySet(Items(a));
    ItemsAppend(a, b);
    FirstPerKeyAppend({}, Items(a), Items(b));
    SeenIsWithout(keys, {}, Items(b));
    assert {} + keys == keys == keys + {};
    KeptAreKeyed(b);
    WithoutIsMinus(FirstPerKey({}, Items(b)), keys);
    ValuesAppend(FirstPerKey({}, Items(a)), Without(FirstPerKey({}, Items(b)), keys));
  }

  lemma ValuesAppend(a: seq<Keyed<string, Resource>>, b: seq<Keyed<string, Resource>>)
    ensures Values(a + b) == Values(a) + Values(b)
  {
  }

  /** The items of a deduplicated list are the kept ones. */
  lemma ItemsOfDedupe(rs: seq<Entry>)
    ensures Items(Wrapped(Dedupe(rs))) == FirstPerKey({}, Items(rs))
  {
    KeptAreKeyed(rs);
    ItemsOfWrapped(FirstPerKey({}, Items(rs)));
  }

  lemma {:induction false} ItemsOfWrapped(kept: seq<Keyed<string, Resource>>)
    requires KeyedRight(kept)
    ensures Items(Wrapped(Values(kept))) == kept
  {
    if kept != [] {
      var head := kept[..|kept| - 1];
      ItemsOfWrapped(head);
      assert Wrapped(Values(kept))[..|head|] == Wrapped(Values(head));
    }
  }

  /** No key is lost, and none is left twice. */
  lemma DedupeKeys(rs: seq<Entry>)
    ensures KeySet(Items(Wrapped(Dedupe(rs)))) == KeySet(Items(rs))
    ensures DistinctKeys(Items(Wrapped(Dedupe(rs))))
  {
    ItemsOfDedupe(rs);
    KeptDistinct({}, Items(rs));
  }

  /** Deduplicating again changes nothing. */
  lemma DedupeIdempotent(rs: seq<Entry>)
    ensures Dedupe(Wrapped(Dedupe(rs))) == Dedupe(rs)
  {
    ItemsOfDedupe(rs);
    KeptDistinct({}, Items(rs));
    KeepsAllExactly({}, FirstPerKey({}, Items(rs)));
  }

  /** Two of the resources have the same key and different identities. */
  ghost predicate Mixed(rs: seq<Entry>) {
    exists r, q :: Some(r) in rs && Some(q) in rs && Key(r) == Key(q) && IdentityOf(r) != IdentityOf(q)
  }

  /** Deduplication keeps exactly the first resource of each identity, in order, as long as no two
      entries have the same key and different identities. Otherwise it loses an identity. */
  lemma DedupeIsFirsts(rs: seq<Entry>)
    ensures Dedupe(rs) == Firsts(Identified(rs), |Identified(rs)|) <==> !Mixed(rs)
    ensures |Dedupe(rs)| < |Firsts(Identified(rs), |Identified(rs)|)| <==> Mixed(rs)
  {
    KeptByIdentityExactly(Items(rs), Identified(rs));
    if Mixed(rs) {
      MixedCollide(rs);
    }
    if Collides(Items(rs), Identified(rs)) {
      CollidingAreMixed(rs);
    }
  }

  lemma MixedCollide(rs: seq<Entry>)
    requires Mixed(rs)
    ensures Collides(Items(rs), Identified(rs))
  {
    var items, identified := Items(rs), Identified(rs);
    var r, q :| Some(r) in rs && Some(q) in rs && Key(r) == Key(q) && IdentityOf(r) != IdentityOf(q);
    ItemsHave(rs, r);
    ItemsHave(rs, q);
    var i :| 0 <= i < |items| && items[i].value == r;
    var j :| 0 <= j < |items| && items[j].value == q;
    assert items[i].key == items[j].key && identified[i].key != identified[j].key;
  }

  lemma CollidingAreMixed(rs: seq<Entry>)
    requires Collides(Items(rs), Identified(rs))
    ensures Mixed(rs)
  {
    var items, identified := Items(rs), Identified(rs);
    var i, j :| 0 <= i < |items| && 0 <= j < |items|
      && items[i].key == items[j].key && identified[i].key != identified[j].key;
    var r, q := items[i].value, items[j].value;
    assert Some(r) in rs && Some(q) in rs && Key(r) == Key(q) && IdentityOf(r) != IdentityOf(q);
  }

  /** Such entries, which differ in provider and account. */
  lemma KeyCollision(r: Resource, q: Resource)
    requires r == Resource("a\0b", "c", "t", "i", "") && q == Resource("a", "b\0c", "t", "i", "")
    ensures Mixed([Some(r), Some(q)]) && |Dedupe([Some(r), Some(q)])| < 2
  {
    assert r.provider + [NUL] + r.accountId == "a\0b\0c" == q.provider + [NUL] + q.accountId;
    Regroup(r.provider, r.accountId, r.typ + [NUL] + r.id);
    Regroup(q.provider, q.accountId, q.typ + [NUL] + q.id);
    var rs := [Some(r), Some(q)];
    assert Some(r) in rs && Some(q) in rs && r.provider != q.provider;
    DedupeIsFirsts(rs);
    FirstsLength(Identified(rs), |Identified(rs)|);
  }

  lemma {:induction false} FirstsLength(items: seq<Keyed<Identity, Resource>>, n: nat)
    requires n <= |items|
    ensures |Firsts(items, n)| <= n
  {
    if n > 0 {
      FirstsLength(items, n - 1);
    }
  }

  /** Entries without a NUL byte are never mixed up. */
  lemma NulFreeIsNotMixed(rs: seq<Entry>)
    requires forall r :: Some(r) in rs ==> !HoldsNul(r)
    ensures !Mixed(rs)
  {
    forall r, q | Some(r) in rs && Some(q) in rs && Key(r) == Key(q) ensures IdentityOf(r) == IdentityOf(q) {
      KeyIsIdentity(r, q);
    }
  }

  lemma DedupeStep(rs: seq<Entry>, i: nat)
    requires i < |rs|
    ensures var seen, kept := KeySet(Items(rs[..i])), Dedupe(rs[..i]);
      if rs[i].None? || Key(rs[i].value) in seen then
        KeySet(Items(rs[..i + 1])) == seen && Dedupe(rs[..i + 1]) == kept
      else
        KeySet(Items(rs[..i + 1])) == seen + {Key(rs[i].value)} && Dedupe(rs[..i + 1]) == kept + [rs[i].value]
  {
    ItemsStep(rs, i);
    if rs[i].Some? {
      KeptValuesStep(Items(rs[..i]), Keyed(Key(rs[i].value), rs[i].value));
    }
  }

  lemma ItemsStep(rs: seq<Entry>, i: nat)
    requires i < |rs|
    ensures Items(rs[..i + 1])
         == if rs[i].None? then Items(rs[..i]) else Items(rs[..i]) + [Keyed(Key(rs[i].value), rs[i].value)]
  {
    assert rs[..i + 1][..i] == rs[..i];
  }

  method DedupeResources(resources: seq<Entry>) returns (result: seq<Resource>)
    ensures result == Dedupe(resources)
  {
    var seen: set<string> := {};
    result := [];
    for i := 0 to |resources|
      invariant seen == KeySet(Items(resources[..i]))
      invariant result == Dedupe(resources[..i])
    {
      DedupeStep(resources, i);
      if resources[i].Some? {
        var key := Key(resources[i].value);
        if key !in seen {
          seen := seen + {key};
          result := result + [resources[i].value];
        }
      }
    }
    assert resources[..|resources|] == resources;
  }

  // ---------------------------------------------------------------- aggregation

  /** All the scopes' resources, in requested scope order. */
  function Merged(scopes: seq<ScopeResult>): seq<Entry> {
    if scopes == [] then [] else Merged(scopes[..|scopes| - 1]) + scopes[|scopes| - 1].resources
  }

  function FailedScopes(scopes: seq<ScopeResult>): seq<string> {
    if scopes == [] then []
    else
      var last := scopes[|scopes| - 1];
      FailedScopes(scopes[..|scopes| - 1]) + if last.errors != [] then [last.scope] else []
  }

  function Unreachable(scopes: seq<ScopeResult>): nat {
    if scopes == [] then 0
    else Unreachable(scopes[..|scopes| - 1]) + if scopes[|scopes| - 1].unreachable then 1 else 0
  }

  function Size(scopes: seq<ScopeResult>): nat {
    if scopes == [] then 0 else Size(scopes[..|scopes| - 1]) + |scopes[|scopes| - 1].resources|
  }

  /** Conversion to a 32-bit integer. */
  function Wrap32(x: int): int32 {
    (x + 0x8000_0000) % 0x1_0000_0000 - 0x8000_0000
  }

  function CountOf(counts: map<string, int32>, service: string): int32 {
    if service in counts then counts[service] else 0
  }

  /** Adds counts of some services, with 32-bit overflow. */
  function AddCounts(into: map<string, int32>, counts: map<string, int32>, services: set<string>): map<string, int32> {
    map s | s in into.Keys + services ::
      if s in services then Wrap32(CountOf(into, s) + CountOf(counts, s)) else CountOf(into, s)
  }

  function ServiceCounts(scopes: seq<ScopeResult>): map<string, int32> {
    if scopes == [] then map[]
    else
      var sofar, last := ServiceCounts(scopes[..|scopes| - 1]), scopes[|scopes| - 1].stats;
      if last.None? then sofar else AddCounts(sofar, last.value.serviceCounts, last.value.serviceCounts.Keys)
  }

  /** What a scope reports of one service. */
  function Reported(scope: ScopeResult, service: string): int32 {
    if scope.stats.None? then 0 else CountOf(scope.stats.value.serviceCounts, service)
  }

  function TrueCount(scopes: seq<ScopeResult>, service: string): int {
    if scopes == [] then 0
    else TrueCount(scopes[..|scopes| - 1], service) + Reported(scopes[|scopes| - 1], service)
  }

  function FailedResources(scopes: seq<ScopeResult>): int32 {
    if scopes == [] then 0
    else
      var sofar, last := FailedResources(scopes[..|scopes| - 1]), scopes[|scopes| - 1].stats;
      if last.None? then sofar else Wrap32(sofar + last.value.failedResources)
  }

  lemma WrapAdd(x: int, y: int)
    ensures Wrap32(Wrap32(x) + y) == Wrap32(x + y)
  {
  }

  /** Whatever the order and the intermediate overflows, a service's count is the 32-bit value of
      the sum of what the scopes report, and a service is listed exactly when some scope lists it. */
  lemma {:induction false} ServiceCountsAreSums(scopes: seq<ScopeResult>, service: string)
    ensures CountOf(ServiceCounts(scopes), service) == Wrap32(TrueCount(scopes, service))
    ensures service in ServiceCounts(scopes) <==>
      exists i :: 0 <= i < |scopes| && scopes[i].stats.Some? && service in scopes[i].stats.value.serviceCounts
  {
    if scopes != [] {
      var head := scopes[..|scopes| - 1];
      ServiceCountsAreSums(head, service);
      WrapAdd(TrueCount(head, service), Reported(scopes[|scopes| - 1], service));
      forall i | 0 <= i < |head| ensures head[i] == scopes[i] {
      }
    }
  }

  datatype Status = Complete | Partial | Failed

  datatype Totals = Totals(
    resources: seq<Resource>,
    totalResources: int32,
    failedResources: int32,
    serviceCounts: map<string, int32>)

  datatype Outcome = Outcome(status: Status, scopes: seq<ScopeResult>, totals: Totals)

  datatype ScanError = NoError | NoScanner | NoScopes | Cancelled | PartialError(failedScopes: seq<string>)

  const NOTHING := Totals([], 0, 0, map[])

  function TotalsOf(scopes: seq<ScopeResult>): Totals {
    var resources := Dedupe(Merged(scopes));
    Totals(resources, Wrap32(|resources|), FailedResources(scopes), ServiceCounts(scopes))
  }

  lemma AddOneCount(into: map<string, int32>, counts: map<string, int32>, done: set<string>, service: string)
    requires service !in done && service in counts
    ensures var sum := AddCounts(into, counts, done);
      AddCounts(into, counts, done + {service}) == sum[service := Wrap32(CountOf(sum, service) + counts[service])]
  {
    var sum, more := AddCounts(into, counts, done), AddCounts(into, counts, done + {service});
    assert CountOf(sum, service) == CountOf(into, service);
    assert more.Keys == sum.Keys + {service};
    forall s | s in more && s != service ensures more[s] == sum[s] {
    }
  }

  method AddServiceCounts(into: map<string, int32>, counts: map<string, int32>) returns (sum: map<string, int32>)
    ensures sum == AddCounts(into, counts, counts.Keys)
  {
    sum := into;
    assert sum == AddCounts(into, counts, {});
    var left := counts.Keys;
    assert counts.Keys - left == {};
    while left != {}
      invariant left <= counts.Keys
      invariant sum == AddCounts(into, counts, counts.Keys - left)
    {
      // Go ranges over a map in no particular order.
      var service :| service in left;
      AddOneCount(into, counts, counts.Keys - left, service);
      assert counts.Keys - (left - {service}) == counts.Keys - left + {service};
      sum := sum[service := Wrap32(CountOf(sum, service) + counts[service])];
      left := left - {service};
    }
    assert counts.Keys - left == counts.Keys;
  }

  /** assertMergedTotal: its condition fails exactly when resources of the scopes were lost or added. */
  method MergedTotalHolds(scopes: seq<ScopeResult>, merged: seq<Entry>) returns (holds: bool)
    ensures holds <==> |merged| == |Merged(scopes)|
  {
    MergedSize(scopes);
    var count := 0;
    for i := 0 to |scopes|
      invariant count == Size(scopes[..i])
    {
      assert scopes[..i + 1][..i] == scopes[..i];
      count := count + |scopes[i].resources|;
    }
    assert scopes[..|scopes|] == scopes;
    holds := count == |merged|;
  }

  lemma {:induction false} MergedSize(scopes: seq<ScopeResult>)
    ensures |Merged(scopes)| == Size(scopes)
  {
    if scopes != [] {
      MergedSize(scopes[..|scopes| - 1]);
    }
  }

  lemma {:induction false} UnreachableHaveFailed(scopes: seq<ScopeResult>)
    requires forall i :: 0 <= i < |scopes| && scopes[i].unreachable ==> scopes[i].errors != []
    ensures Unreachable(scopes) <= |FailedScopes(scopes)|
  {
    if scopes != [] {
      UnreachableHaveFailed(scopes[..|scopes| - 1]);
    }
  }

  method AggregateScopes(scopes: seq<ScopeResult>) returns (totals: Totals, failed: seq<string>, unreachable: nat)
    requires forall i :: 0 <= i < |scopes| && scopes[i].unreachable ==> scopes[i].errors != []
    ensures totals == TotalsOf(scopes)
    ensures failed == FailedScopes(scopes)
    ensures unreachable == Unreachable(scopes)
  {
    var merged: seq<Entry> := [];
    var failedResources: int32 := 0;
    var serviceCounts: map<string, int32> := map[];
    failed, unreachable := [], 0;
    for i := 0 to |scopes|
      invariant merged == Merged(scopes[..i])
      invariant failedResources == FailedResources(scopes[..i])
      invariant serviceCounts == ServiceCounts(scopes[..i])
      invariant failed == FailedScopes(scopes[..i])
      invariant unreachable == Unreachable(scopes[..i])
    {
      assert scopes[..i + 1][..i] == scopes[..i];
      var result := scopes[i];
      if result.unreachable {
        unreachable := unreachable + 1;
      }
      merged := merged + result.resources;
      if result.stats.Some? {
        failedResources := Wrap32(failedResources + result.stats.value.failedResources);
        serviceCounts := AddServiceCounts(serviceCounts, result.stats.value.serviceCounts);
      }
      if |result.errors| > 0 {
        failed := failed + [result.scope];
      }
    }
    assert scopes[..|scopes|] == scopes;
    UnreachableHaveFailed(scopes);
    var holds := MergedTotalHolds(scopes, merged);
    assert holds;
    var resources := DedupeResources(merged);
    assert |resources| <= |merged|;
    assert unreachable <= |failed|;
    totals := Totals(resources, Wrap32(|resources|), failedResources, serviceCounts);
  }

  // ---------------------------------------------------------------- the whole scan

  function ScanEach(scopes: seq<string>, replies: seq<Reply>): seq<ScopeResult>
    requires |replies| == |scopes|
  {
    seq(|scopes|, i requires 0 <= i < |scopes| => ScanOne(scopes[i], replies[i]))
  }

  /** Scanning the scopes one after another, in plan order, and judging the result. */
  function Sequential(scopes: seq<string>, replies: seq<Reply>, cancelled: bool): (Outcome, ScanError)
    requires |replies| == |scopes| > 0
  {
    var results := ScanEach(scopes, replies);
    var totals, failed := TotalsOf(results), FailedScopes(results);
    if cancelled then (Outcome(Failed, results, totals), Cancelled)
    else if failed == [] then (Outcome(Complete, results, totals), NoError)
    else (Outcome(if Unreachable(results) == |scopes| then Failed else Partial, results, totals),
          PartialError(SortStrings(failed)))
  }

  // ---------------------------------------------------------------- what an outcome says of the replies

  /** The resource stands in the reply of scope p.outer, as its entry p.inner. */
  predicate StandsAt(replies: seq<Reply>, p: Place, r: Resource) {
    && p.outer < |replies| && replies[p.outer].Replied?
    && p.inner < |replies[p.outer].response.resources|
    && replies[p.outer].response.resources[p.inner] == Some(r)
  }

  /** Exactly the earliest resource of each joined key is kept, scopes in requested order and resources
      of a scope in the order of its reply. */
  ghost predicate Earliest(replies: seq<Reply>, kept: seq<Resource>, places: seq<Place>) {
    && |places| == |kept|
    && (forall k :: 0 <= k < |kept| ==> StandsAt(replies, places[k], kept[k]))
    && (forall j, k :: 0 <= j < k < |kept| ==> places[j].Before(places[k]))
    && (forall p, r, k :: 0 <= k < |kept| && StandsAt(replies, p, r) && p.Before(places[k]) ==> Key(r) != Key(kept[k]))
    && (forall p, r :: StandsAt(replies, p, r) ==> exists k :: 0 <= k < |kept| && Key(kept[k]) == Key(r))
  }

  /** Where the items stood in the list, in order. */
  ghost predicate ItemsAt(rs: seq<Entry>, items: seq<Keyed<string, Resource>>, where: seq<nat>) {
    && |where| == |items|
    && (forall j :: 0 <= j < |where| ==> where[j] < |rs| && rs[where[j]] == Some(items[j].value))
    && (forall i, j :: 0 <= i < j < |where| ==> where[i] < where[j])
    && (forall i: nat :: i < |rs| && rs[i].Some? ==> i in where)
  }

  lemma {:induction false} ItemPlaces(rs: seq<Entry>) returns (where: seq<nat>)
    ensures ItemsAt(rs, Items(rs), where)
  {
    if rs == [] {
      where := [];
    } else {
      var head, last := rs[..|rs| - 1], rs[|rs| - 1];
      where := ItemPlaces(head);
      assert head + [last] == rs;
      where := OneMoreItem(head, last, Items(head), where);
    }
  }

  lemma OneMoreItem(rs: seq<Entry>, last: Entry, items: seq<Keyed<string, Resource>>, where: seq<nat>)
    returns (after: seq<nat>)
    requires ItemsAt(rs, items, where)
    ensures ItemsAt(rs + [last], if last.None? then items else items + [Keyed(Key(last.value), last.value)], after)
  {
    after := if last.None? then where else where + [|rs|];
    forall i: nat | i < |rs| + 1 && (rs + [last])[i].Some? ensures i in after {
      if i < |rs| {
        assert rs[i].Some? && i in where;
      }
    }
  }

  /** Where the merged entries stood, in lexicographic order of the places. */
  ghost predicate MergedFrom(scopes: seq<ScopeResult>, n: nat, merged: seq<Entry>, at: seq<Place>)
    requires n <= |scopes|
  {
    && |at| == |merged|
    && (forall x :: 0 <= x < |at| ==>
          at[x].outer < n && at[x].inner < |scopes[at[x].outer].resources|
          && merged[x] == scopes[at[x].outer].resources[at[x].inner])
    && (forall x, y :: 0 <= x < y < |at| ==> at[x].Before(at[y]))
    && (forall i: nat, e: nat :: i < n && e < |scopes[i].resources| ==> Place(i, e) in at)
  }

  lemma {:induction false} MergedPlaces(scopes: seq<ScopeResult>, n: nat) returns (at: seq<Place>)
    requires n <= |scopes|
    ensures MergedFrom(scopes, n, Merged(scopes[..n]), at)
  {
    at := [];
    if n > 0 {
      at := MergedPlaces(scopes, n - 1);
      assert scopes[..n][..n - 1] == scopes[..n - 1];
      at := OneMoreScope(scopes, n - 1, Merged(scopes[..n - 1]), at);
    }
  }

  lemma OneMoreScope(scopes: seq<ScopeResult>, n: nat, merged: seq<Entry>, at: seq<Place>) returns (after: seq<Place>)
    requires n < |scopes| && MergedFrom(scopes, n, merged, at)
    ensures MergedFrom(scopes, n + 1, merged + scopes[n].resources, after)
  {
    var last := seq(|scopes[n].resources|, e requires 0 <= e < |scopes[n].resources| => Place(n, e));
    after := at + last;
    forall i: nat, e: nat | i < n + 1 && e < |scopes[i].resources| ensures Place(i, e) in after {
      if i == n {
        assert last[e] == Place(i, e);
      } else {
        assert Place(i, e) in at;
      }
    }
  }

  lemma InPlaceOrder(places: seq<Place>, x: nat, y: nat)
    requires x < |places| && y < |places| && places[x].Before(places[y])
    requires forall i, j :: 0 <= i < j < |places| ==> places[i].Before(places[j])
    ensures x < y
  {
  }

  /** The items stand at these places of the replies, in order, and they are all that stands there. */
  ghost predicate ItemsStand(replies: seq<Reply>, items: seq<Keyed<string, Resource>>, places: seq<Place>) {
    && |places| == |items|
    && (forall j :: 0 <= j < |items| ==> StandsAt(replies, places[j], items[j].value))
    && (forall i, j :: 0 <= i < j < |items| ==> places[i].Before(places[j]))
    && (forall p, r :: StandsAt(replies, p, r) ==> p in places)
  }

  /** Places of merged entries give places of items. */
  lemma ItemsOfPlaces(replies: seq<Reply>, merged: seq<Entry>, all: seq<Place>, items: seq<Keyed<string, Resource>>,
      where: seq<nat>) returns (places: seq<Place>)
    requires |all| == |merged| && ItemsAt(merged, items, where)
    requires forall x :: 0 <= x < |merged| && merged[x].Some? ==> StandsAt(replies, all[x], merged[x].value)
    requires forall i, j :: 0 <= i < j < |all| ==> all[i].Before(all[j])
    requires forall p, r :: StandsAt(replies, p, r) ==>
      exists x :: 0 <= x < |all| && all[x] == p && merged[x] == Some(r)
    ensures ItemsStand(replies, items, places)
  {
    places := seq(|where|, j requires 0 <= j < |where| => all[where[j]]);
    forall p, r | StandsAt(replies, p, r) ensures p in places {
      var x :| 0 <= x < |all| && all[x] == p && merged[x] == Some(r);
      assert x in where;
      var j :| 0 <= j < |where| && where[j] == x;
      assert places[j] == p;
    }
  }

  lemma ItemAt(replies: seq<Reply>, items: seq<Keyed<string, Resource>>, all: seq<Place>, p: Place, r: Resource)
    returns (x: nat)
    requires KeyedRight(items) && ItemsStand(replies, items, all) && StandsAt(replies, p, r)
    ensures x < |items| == |all| && all[x] == p && items[x].value == r && items[x].key == Key(r)
  {
    x :| 0 <= x < |all| && all[x] == p;
  }

  lemma NoneEarlier(replies: seq<Reply>, items: seq<Keyed<string, Resource>>, all: seq<Place>, first: nat,
      p: Place, r: Resource)
    requires KeyedRight(items) && ItemsStand(replies, items, all) && StandsAt(replies, p, r)
    requires first < |items| && IsFirst(items, first) && p.Before(all[first])
    ensures Key(r) != Key(items[first].value)
  {
    var x := ItemAt(replies, items, all, p, r);
    InPlaceOrder(all, x, first);
    assert items[x].key != items[first].key;
  }

  lemma SomeFirst(replies: seq<Reply>, items: seq<Keyed<string, Resource>>, all: seq<Place>, p: Place, r: Resource)
    returns (first: nat)
    requires KeyedRight(items) && ItemsStand(replies, items, all) && StandsAt(replies, p, r)
    ensures first < |items| && IsFirst(items, first) && Key(items[first].value) == Key(r)
  {
    var x := ItemAt(replies, items, all, p, r);
    first := FirstOf(items, x);
    assert items[first].key == items[x].key;
  }

  /** Of items at places, the first of each key are the earliest. */
  lemma EarliestItems(replies: seq<Reply>, items: seq<Keyed<string, Resource>>, all: seq<Place>)
    returns (places: seq<Place>)
    requires KeyedRight(items) && ItemsStand(replies, items, all)
    ensures Earliest(replies, Firsts(items, |items|), places)
  {
    var at, values := FirstPlaces(items, |items|), Firsts(items, |items|);
    FirstsStand(items, |items|);
    places := seq(|at|, k requires 0 <= k < |at| => all[at[k]]);
    forall p, r, k | 0 <= k < |values| && StandsAt(replies, p, r) && p.Before(places[k])
      ensures Key(r) != Key(values[k])
    {
      NoneEarlier(replies, items, all, at[k], p, r);
    }
    forall p, r | StandsAt(replies, p, r) ensures exists k :: 0 <= k < |values| && Key(values[k]) == Key(r) {
      var first := SomeFirst(replies, items, all, p, r);
      var k := PlaceOfFirst(items, |items|, first);
      assert values[k] == items[first].value;
    }
  }

  /** The merged and deduplicated resources are the earliest of each key. */
  lemma EarliestKept(scopes: seq<string>, replies: seq<Reply>) returns (places: seq<Place>)
    requires |replies| == |scopes|
    ensures Earliest(replies, Dedupe(Merged(ScanEach(scopes, replies))), places)
  {
    var merged := Merged(ScanEach(scopes, replies));
    var all := PlacesOfMerged(scopes, replies);
    var where := ItemPlaces(merged);
    var stand := ItemsOfPlaces(replies, merged, all, Items(merged), where);
    var items := Items(merged);
    assert items[..|items|] == items;
    KeptAreFirsts(items, |items|);
    places := EarliestItems(replies, items, stand);
  }

  lemma PlacesOfMerged(scopes: seq<string>, replies: seq<Reply>) returns (all: seq<Place>)
    requires |replies| == |scopes|
    ensures var merged := Merged(ScanEach(scopes, replies));
      && |all| == |merged|
      && (forall x :: 0 <= x < |merged| && merged[x].Some? ==> StandsAt(replies, all[x], merged[x].value))
      && (forall i, j :: 0 <= i < j < |all| ==> all[i].Before(all[j]))
      && (forall p, r :: StandsAt(replies, p, r) ==>
            exists x :: 0 <= x < |all| && all[x] == p && merged[x] == Some(r))
  {
    var results := ScanEach(scopes, replies);
    var merged := Merged(results);
    assert results[..|results|] == results;
    all := MergedPlaces(results, |results|);
    forall p, r | StandsAt(replies, p, r) ensures exists x :: 0 <= x < |all| && all[x] == p && merged[x] == Some(r) {
      assert results[p.outer].resources == replies[p.outer].response.resources;
      assert Place(p.outer, p.inner) in all;
    }
    forall x | 0 <= x < |merged| && merged[x].Some? ensures StandsAt(replies, all[x], merged[x].value) {
      assert results[all[x].outer] == ScanOne(scopes[all[x].outer], replies[all[x].outer]);
    }
  }

  /** The part of Execute after its checks. */
  method ExecutePlan(scopes: seq<string>, replies: seq<Reply>, maxConcurrency: int, cancelled: bool)
    returns (outcome: Outcome, err: ScanError)
    requires |replies| == |scopes| > 0
    ensures (outcome, err) == Sequential(scopes, replies, cancelled)
  {
    var concurrency := maxConcurrency;
    if concurrency <= 0 {
      concurrency := 1;
    }
    if concurrency > |scopes| {
      concurrency := |scopes|;
    }
    var plan := Plan(scopes, replies, concurrency);
    var results := DispatchAndCollect(plan);
    assert results == ScanEach(scopes, replies);
    var totals, failed, unreachable := AggregateScopes(results);
    if cancelled {
      return Outcome(Failed, results, totals), Cancelled;
    }
    if |failed| > 0 {
      failed := SortStrings(failed);
      if unreachable == |scopes| {
        return Outcome(Failed, results, totals), PartialError(failed);
      }
      return Outcome(Partial, results, totals), PartialError(failed);
    }
    outcome, err := Outcome(Complete, results, totals), NoError;
  }

  /** Execute: for every number of workers, every interleaving of them and the collector, and every
      order of a map range, the outcome is the sequential scan's, and it says of the replies what it
      should. */
  method Execute(scanner: bool, scopes: seq<string>, replies: seq<Reply>, maxConcurrency: int, cancelled: bool)
    returns (outcome: Outcome, err: ScanError)
    requires |replies| == |scopes|
    ensures !scanner ==> outcome.status == Failed && err == NoScanner
    ensures scanner && scopes == [] ==> outcome.status == Failed && err == NoScopes
    ensures scanner && scopes != [] ==> (outcome, err) == Sequential(scopes, replies, cancelled)
    ensures scanner && scopes != [] ==> Reports(scopes, replies, cancelled, outcome, err)
  {
    if !scanner {
      return Outcome(Failed, [], NOTHING), NoScanner;
    }
    if |scopes| == 0 {
      return Outcome(Failed, [], NOTHING), NoScopes;
    }
    outcome, err := ExecutePlan(scopes, replies, maxConcurrency, cancelled);
    SequentialReports(scopes, replies, cancelled);
  }

  /** A reply that leaves its scope not fully observed: none at all, or one with an entry that is
      not a notice. */
  predicate Unobserved(reply: Reply) {
    !reply.Replied? || exists i :: 0 <= i < |reply.response.errors| && !IsScanNotice(reply.response.errors[i])
  }

  lemma {:induction false} EntriesFound(entries: seq<string>, notices: bool)
    ensures Entries(entries, notices) != [] <==> exists i :: 0 <= i < |entries| && IsScanNotice(entries[i]) == notices
  {
    if entries != [] {
      var head := entries[..|entries| - 1];
      EntriesFound(head, notices);
      forall i | 0 <= i < |head| ensures head[i] == entries[i] {
      }
    }
  }

  lemma {:induction false} JudgeScopes(results: seq<ScopeResult>)
    ensures FailedScopes(results) == [] <==> forall i :: 0 <= i < |results| ==> results[i].errors == []
    ensures Unreachable(results) <= |results|
    ensures Unreachable(results) == |results| <==> forall i :: 0 <= i < |results| ==> results[i].unreachable
  {
    if results != [] {
      var head := results[..|results| - 1];
      JudgeScopes(head);
      assert forall i :: 0 <= i < |results| ==> results[i] == if i < |head| then head[i] else results[|head|];
    }
  }

  lemma ObservedScope(scope: string, reply: Reply)
    ensures var result := ScanOne(scope, reply);
      (result.unreachable <==> !reply.Replied?) && (result.errors == [] <==> !Unobserved(reply))
  {
    if reply.Replied? {
      EntriesFound(reply.response.errors, false);
    }
  }

  /** While the context lives, a scan is complete exactly when every scope was fully observed, failed
      exactly when no scope answered, and partial otherwise. */
  lemma StatusMeans(scopes: seq<string>, replies: seq<Reply>)
    requires |replies| == |scopes| > 0
    ensures var status := Sequential(scopes, replies, false).0.status;
      && (status == Complete <==> forall i :: 0 <= i < |replies| ==> !Unobserved(replies[i]))
      && (status == Failed <==> forall i :: 0 <= i < |replies| ==> !replies[i].Replied?)
  {
    var results := ScanEach(scopes, replies);
    JudgeScopes(results);
    forall i | 0 <= i < |replies|
      ensures results[i].unreachable <==> !replies[i].Replied?
      ensures results[i].errors == [] <==> !Unobserved(replies[i])
    {
      ObservedScope(scopes[i], replies[i]);
    }
    assert results[0].unreachable ==> Unobserved(replies[0]);
  }

  // ---------------------------------------------------------------- the outcome in terms of the replies

  /** Each scope has its own result, in requested order: what the provider replied, its error entries
      split in order, or one error for a scope that could not be reached. */
  ghost predicate ScopeReported(scope: string, reply: Reply, result: ScopeResult) {
    result.scope == scope &&
    match reply
    case Replied(r) =>
      && result.resources == r.resources && result.stats == r.stats && !result.unreachable
      && (exists at :: Picked(r.errors, false, result.errors, at))
      && (exists at :: Picked(r.errors, true, result.notices, at))
    case TransportError(message) => result == ScopeResult(scope, [], None, [message], [], true)
    case NoResponse => result.unreachable && result.resources == [] && |result.errors| == 1 && result.notices == []
  }

  lemma ScanOneReports(scope: string, reply: Reply)
    ensures ScopeReported(scope, reply, ScanOne(scope, reply))
  {
    if reply.Replied? {
      var errors := EntriesInOrder(reply.response.errors, false);
      var notices := EntriesInOrder(reply.response.errors, true);
    }
  }

  function Total(xs: seq<int>): int {
    if xs == [] then 0 else Total(xs[..|xs| - 1]) + xs[|xs| - 1]
  }

  /** The 32-bit value of a number. */
  predicate Is32(x: int32, number: int) {
    (x - number) % 0x1_0000_0000 == 0
  }

  predicate ListsService(reply: Reply, service: string) {
    reply.Replied? && reply.response.stats.Some? && service in reply.response.stats.value.serviceCounts
  }

  function CountsIn(replies: seq<Reply>, service: string): seq<int> {
    seq(|replies|, i requires 0 <= i < |replies| =>
      if ListsService(replies[i], service) then replies[i].response.stats.value.serviceCounts[service] else 0)
  }

  function FailuresIn(replies: seq<Reply>): seq<int> {
    seq(|replies|, i requires 0 <= i < |replies| =>
      if replies[i].Replied? && replies[i].response.stats.Some? then replies[i].response.stats.value.failedResources
      else 0)
  }

  /** The totals: the earliest resource of each key, and 32-bit sums over the replies. */
  ghost predicate TotalsReported(replies: seq<Reply>, totals: Totals) {
    && (exists places :: Earliest(replies, totals.resources, places))
    && Is32(totals.totalResources, |totals.resources|)
    && Is32(totals.failedResources, Total(FailuresIn(replies)))
    && (forall service :: service in totals.serviceCounts <==>
          exists i :: 0 <= i < |replies| && ListsService(replies[i], service))
    && (forall service :: service in totals.serviceCounts ==>
          Is32(totals.serviceCounts[service], Total(CountsIn(replies, service))))
  }

  lemma WrapIs32(x: int)
    ensures Is32(Wrap32(x), x)
  {
  }

  lemma {:induction false} CountsAdd(scopes: seq<string>, replies: seq<Reply>, service: string)
    requires |replies| == |scopes|
    ensures TrueCount(ScanEach(scopes, replies), service) == Total(CountsIn(replies, service))
  {
    if scopes != [] {
      var n := |scopes| - 1;
      CountsAdd(scopes[..n], replies[..n], service);
      ScanEachInit(scopes, replies);
      assert CountsIn(replies, service)[..n] == CountsIn(replies[..n], service);
    }
  }

  /** Wrapping takes off a multiple of 2^32. */
  lemma WrapTakes(x: int) returns (q: int)
    ensures Wrap32(x) == x + q * 0x1_0000_0000
  {
    q := -((x + 0x8000_0000) / 0x1_0000_0000);
  }

  lemma TakenIs32(x: int32, number: int, q: int)
    requires x == number + q * 0x1_0000_0000
    ensures Is32(x, number)
  {
  }

  lemma {:induction false} FailuresAdd(scopes: seq<string>, replies: seq<Reply>) returns (q: int)
    requires |replies| == |scopes|
    ensures FailedResources(ScanEach(scopes, replies)) == Total(FailuresIn(replies)) + q * 0x1_0000_0000
  {
    q := 0;
    if scopes != [] {
      var n := |scopes| - 1;
      q := FailuresAdd(scopes[..n], replies[..n]);
      ScanEachInit(scopes, replies);
      FailuresInit(scopes, replies);
      var p := FailedMore(ScanEach(scopes, replies));
      q := p + q;
    }
  }

  lemma FailuresInit(scopes: seq<string>, replies: seq<Reply>)
    requires |replies| == |scopes| > 0
    ensures var n, failures := |replies| - 1, FailuresIn(replies);
      && failures[..n] == FailuresIn(replies[..n])
      && failures[n] == FailuresOf(ScanOne(scopes[n], replies[n]))
  {
  }

  function FailuresOf(result: ScopeResult): int {
    if result.stats.None? then 0 else result.stats.value.failedResources
  }

  lemma FailedMore(results: seq<ScopeResult>) returns (q: int)
    requires results != []
    ensures FailedResources(results)
         == FailedResources(results[..|results| - 1]) + FailuresOf(results[|results| - 1]) + q * 0x1_0000_0000
  {
    q := 0;
    if results[|results| - 1].stats.Some? {
      q := WrapTakes(FailedResources(results[..|results| - 1]) + FailuresOf(results[|results| - 1]));
    }
  }

  lemma ScanEachInit(scopes: seq<string>, replies: seq<Reply>)
    requires |replies| == |scopes| > 0
    ensures var n := |scopes| - 1;
      && ScanEach(scopes, replies)[..n] == ScanEach(scopes[..n], replies[..n])
      && ScanEach(scopes, replies)[n] == ScanOne(scopes[n], replies[n])
  {
  }

  lemma TotalsAreReported(scopes: seq<string>, replies: seq<Reply>)
    requires |replies| == |scopes|
    ensures TotalsReported(replies, TotalsOf(ScanEach(scopes, replies)))
  {
    var results := ScanEach(scopes, replies);
    var totals := TotalsOf(results);
    var places := EarliestKept(scopes, replies);
    WrapIs32(|totals.resources|);
    var q := FailuresAdd(scopes, replies);
    TakenIs32(totals.failedResources, Total(FailuresIn(replies)), q);
    forall service
      ensures service in totals.serviceCounts <==> exists i :: 0 <= i < |replies| && ListsService(replies[i], service)
      ensures service in totals.serviceCounts ==>
        Is32(totals.serviceCounts[service], Total(CountsIn(replies, service)))
    {
      ServiceCountsAreSums(results, service);
      CountsAdd(scopes, replies, service);
      WrapIs32(TrueCount(results, service));
      forall i | 0 <= i < |replies|
        ensures ListsService(replies[i], service) <==>
          results[i].stats.Some? && service in results[i].stats.value.serviceCounts
      {
      }
    }
  }

  /** The scopes that were not fully observed, each as often as it was requested, in byte order. */
  ghost predicate FailuresReported(scopes: seq<string>, replies: seq<Reply>, failed: seq<string>)
    requires |replies| == |scopes|
  {
    Sorted(failed) && forall scope :: multiset(failed)[scope] == |UnobservedAt(scopes, replies, scope)|
  }

  function UnobservedAt(scopes: seq<string>, replies: seq<Reply>, scope: string): set<nat>
    requires |replies| == |scopes|
  {
    set i: nat | i < |scopes| && scopes[i] == scope && Unobserved(replies[i])
  }

  lemma {:induction false} FailedOnce(scopes: seq<string>, replies: seq<Reply>, scope: string)
    requires |replies| == |scopes|
    ensures multiset(FailedScopes(ScanEach(scopes, replies)))[scope] == |UnobservedAt(scopes, replies, scope)|
  {
    if scopes == [] {
      assert UnobservedAt(scopes, replies, scope) == {};
    } else {
      var n := |scopes| - 1;
      FailedOnce(scopes[..n], replies[..n], scope);
      ScanEachInit(scopes, replies);
      ObservedScope(scopes[n], replies[n]);
      UnobservedLast(scopes, replies, scope);
    }
  }

  lemma UnobservedLast(scopes: seq<string>, replies: seq<Reply>, scope: string)
    requires |replies| == |scopes| > 0
    ensures var n := |scopes| - 1;
      |UnobservedAt(scopes, replies, scope)|
      == |UnobservedAt(scopes[..n], replies[..n], scope)|
         + if scopes[n] == scope && Unobserved(replies[n]) then 1 else 0
  {
    var n := |scopes| - 1;
    var head, all := UnobservedAt(scopes[..n], replies[..n], scope), UnobservedAt(scopes, replies, scope);
    assert n !in head;
    assert all == if scopes[n] == scope && Unobserved(replies[n]) then head + {n} else head;
  }

  /** What Execute reports, told from the replies alone. */
  ghost predicate Reports(scopes: seq<string>, replies: seq<Reply>, cancelled: bool, outcome: Outcome, err: ScanError)
    requires |replies| == |scopes|
  {
    && |outcome.scopes| == |scopes|
    && (forall i :: 0 <= i < |scopes| ==> ScopeReported(scopes[i], replies[i], outcome.scopes[i]))
    && TotalsReported(replies, outcome.totals)
    && (cancelled ==> outcome.status == Failed && err == Cancelled)
    && (!cancelled ==>
          && (outcome.status == Complete <==> forall i :: 0 <= i < |replies| ==> !Unobserved(replies[i]))
          && (outcome.status == Failed <==> forall i :: 0 <= i < |replies| ==> !replies[i].Replied?)
          && (if outcome.status == Complete then err == NoError
              else err.PartialError? && FailuresReported(scopes, replies, err.failedScopes)))
  }

  lemma SequentialReports(scopes: seq<string>, replies: seq<Reply>, cancelled: bool)
    requires |replies| == |scopes| > 0
    ensures var (outcome, err) := Sequential(scopes, replies, cancelled);
      Reports(scopes, replies, cancelled, outcome, err)
  {
    var results := ScanEach(scopes, replies);
    forall i | 0 <= i < |scopes| ensures ScopeReported(scopes[i], replies[i], results[i]) {
      ScanOneReports(scopes[i], replies[i]);
    }
    TotalsAreReported(scopes, replies);
    StatusMeans(scopes, replies);
    var failed := FailedScopes(results);
    SortSorts(failed);
    forall scope ensures multiset(SortStrings(failed))[scope] == |UnobservedAt(scopes, replies, scope)| {
      FailedOnce(scopes, replies, scope);
    }
  }
}
