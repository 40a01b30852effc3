/** What holds over persisted scans (internal/db/graph_store.go, observations.go, internal/data/history.go):
    observations hold each resource once, and over a whole history the previous-scan links form a
    chain along which the drift counters add up. */
module History {
  import opened Drift
  import opened ScanMeaning
  import opened ScanTables
  import opened SeenMaps
  import opened Separators
  import opened Wrappers
  import opened WriteLogs

  // ---------------------------------------------------------------- one observation per resource

  lemma {:induction false} ObsItemsOccur(resources: seq<Option<Resource>>, fallback: string, k: nat)
    requires k < |ObsItems(resources, fallback)|
    ensures var item := ObsItems(resources, fallback)[k];
      item.key == SubjectKey(item.value, fallback) && Some(item.value) in resources && Observable(Some(item.value))
  {
    var head := resources[..|resources| - 1];
    if k < |ObsItems(head, fallback)| {
      ObsItemsOccur(head, fallback, k);
    }
  }

  lemma {:induction false} ObsItemsPrefix(resources: seq<Option<Resource>>, n: nat, fallback: string)
    requires n <= |resources|
    ensures ObsItems(resources[..n], fallback) <= ObsItems(resources, fallback)
    decreases |resources|
  {
    if n == |resources| {
      assert resources[..n] == resources;
    } else {
      var head := resources[..|resources| - 1];
      assert head[..n] == resources[..n];
      ObsItemsPrefix(head, n, fallback);
    }
  }

  /** Where the item of an observable entry stands: after the items of the entries before it. */
  lemma ObsItemAt(resources: seq<Option<Resource>>, n: nat, fallback: string)
    requires n < |resources| && Observable(resources[n])
    ensures var k := |ObsItems(resources[..n], fallback)|;
      && k < |ObsItems(resources, fallback)|
      && ObsItems(resources, fallback)[k] == Keyed(SubjectKey(resources[n].value, fallback), resources[n].value)
      && ObsItems(resources, fallback)[..k] == ObsItems(resources[..n], fallback)
  {
    ObsItemsPrefix(resources, n + 1, fallback);
    assert resources[..n + 1][..n] == resources[..n];
  }

  lemma {:induction false} ObsItemsSize(resources: seq<Option<Resource>>, fallback: string)
    ensures |ObsItems(resources, fallback)| <= |resources|
    ensures |ObsItems(resources, fallback)| == |resources| <==> AllObservable(resources)
  {
    if resources != [] {
      ObsItemsSize(resources[..|resources| - 1], fallback);
      AllObservableStep(resources);
    }
  }

  predicate AllObservable(resources: seq<Option<Resource>>) {
    forall i :: 0 <= i < |resources| ==> Observable(resources[i])
  }

  lemma AllObservableStep(resources: seq<Option<Resource>>)
    requires resources != []
    ensures AllObservable(resources) <==>
      AllObservable(resources[..|resources| - 1]) && Observable(resources[|resources| - 1])
  {
    var head := resources[..|resources| - 1];
    assert forall i :: 0 <= i < |resources| ==> resources[i] == if i < |head| then head[i] else resources[|head|];
  }

  lemma AllObservableItems(resources: seq<Option<Resource>>, fallback: string)
    requires forall i :: 0 <= i < |resources| ==> Observable(resources[i])
    ensures |ObsItems(resources, fallback)| == |resources|
    ensures forall i :: 0 <= i < |resources| ==>
      resources[i].Some? && ObsItems(resources, fallback)[i].key == SubjectKey(resources[i].value, fallback)
  {
    ObsItemsSize(resources, fallback);
    forall i | 0 <= i < |resources|
      ensures resources[i].Some? && ObsItems(resources, fallback)[i].key == SubjectKey(resources[i].value, fallback)
    {
      ObsItemsSize(resources[..i], fallback);
      ObsItemAt(resources, i, fallback);
    }
  }

  function SubjectOf(r: Resource, fallback: string): Subject {
    Subject(ObservedProvider(r, fallback), r.id)
  }

  lemma SnapshotPut(observations: map<ObsKey, string>, key: ObsKey, hash: string, scan: string)
    ensures Snapshot(observations[key := hash], scan)
         == if key.scan == scan then Snapshot(observations, scan)[Subject(key.provider, key.id) := hash]
            else Snapshot(observations, scan)
  {
    var after := Snapshot(observations[key := hash], scan);
    var before := Snapshot(observations, scan);
    forall s ensures s in after <==> s in before || (key.scan == scan && s == Subject(key.provider, key.id)) {
      if s in before { assert ObsKey(scan, s.provider, s.id) in observations[key := hash]; }
      if key.scan == scan && s == Subject(key.provider, key.id) { assert key in observations[key := hash]; }
    }
  }

  function SubjectRows(kept: Subjects, fallback: string): seq<(Subject, string)> {
    seq(|kept|, i requires 0 <= i < |kept| => (SubjectOf(kept[i].value, fallback), kept[i].value.hash))
  }

  /** Observing one more resource, seen from any scan's snapshot. */
  lemma ObserveLast(observations: map<ObsKey, string>, kept: Subjects, scan: string, fallback: string, id: string)
    requires kept != []
    ensures var head, last := kept[..|kept| - 1], kept[|kept| - 1].value;
      var before := Snapshot(Upsert(observations, ObsRows(head, scan, fallback)), id);
      Snapshot(Upsert(observations, ObsRows(kept, scan, fallback)), id)
      == if id == scan then before[SubjectOf(last, fallback) := last.hash] else before
  {
    var head, last := kept[..|kept| - 1], kept[|kept| - 1].value;
    var rows := ObsRows(head, scan, fallback);
    var key := ObsKey(scan, ObservedProvider(last, fallback), last.id);
    assert ObsRows(kept, scan, fallback) == rows + [(key, last.hash)];
    UpsertOne(observations, rows, key, last.hash);
    SnapshotPut(Upsert(observations, rows), key, last.hash, id);
  }

  /** The snapshot of a scan without earlier observations is made of its kept resources. */
  lemma {:induction false} SnapshotOfKept(observations: map<ObsKey, string>, kept: Subjects, scan: string,
      fallback: string)
    requires forall k :: k in observations ==> k.scan != scan
    ensures Snapshot(Upsert(observations, ObsRows(kept, scan, fallback)), scan)
         == Upsert(map[], SubjectRows(kept, fallback))
  {
    if kept == [] {
      assert Snapshot(observations, scan) == map[];
    } else {
      var head := kept[..|kept| - 1];
      SnapshotOfKept(observations, head, scan, fallback);
      ObserveLast(observations, kept, scan, fallback, scan);
      SubjectRowsLast(kept, fallback);
    }
  }

  lemma SubjectRowsLast(kept: Subjects, fallback: string)
    requires kept != []
    ensures var head, last := kept[..|kept| - 1], kept[|kept| - 1].value;
      Upsert(map[], SubjectRows(kept, fallback))
      == Upsert(map[], SubjectRows(head, fallback))[SubjectOf(last, fallback) := last.hash]
  {
    assert SubjectRows(kept, fallback)[..|kept| - 1] == SubjectRows(kept[..|kept| - 1], fallback);
  }

  lemma {:induction false} UpsertSize<K, V>(rows: seq<(K, V)>)
    requires forall i, j :: 0 <= i < j < |rows| ==> rows[i].0 != rows[j].0
    ensures |Upsert(map[], rows)| == |rows|
  {
    if rows != [] {
      var head, last := rows[..|rows| - 1], rows[|rows| - 1];
      UpsertSize(head);
      UpsertKeys(map[], head);
      assert last.0 !in RowKeys(head);
    }
  }

  lemma {:induction false} UpsertHolds<K, V>(rows: seq<(K, V)>, i: nat)
    requires forall i, j :: 0 <= i < j < |rows| ==> rows[i].0 != rows[j].0
    requires i < |rows|
    ensures rows[i].0 in Upsert(map[], rows) && Upsert(map[], rows)[rows[i].0] == rows[i].1
  {
    var head := rows[..|rows| - 1];
    if i < |head| {
      UpsertHolds(head, i);
    }
  }

  /** A scan with a fresh ID has at most as many observations as resources, and exactly as many
      when no entry is nil, no ID is blank and no two entries share a subject key. */
  lemma ObservationCount(t: Tables, resources: seq<Option<Resource>>, options: Options, m: Metadata)
    requires forall k :: k in t.observations ==> k.scan != m.id
    ensures var count := |Snapshot(Persisted(t, resources, options, m).observations, m.id)|;
      count <= |resources| && (count == |resources| <==> AllDiffer(resources, m.provider))
  {
    KeptAreObserved(t, resources, m);
    KeepsEveryResource(resources, m.provider);
  }

  /** All entries are observable, under different subject keys. */
  predicate AllDiffer(resources: seq<Option<Resource>>, fallback: string) {
    && AllObservable(resources)
    && forall i, j :: 0 <= i < j < |resources| ==>
         SubjectKey(resources[i].value, fallback) != SubjectKey(resources[j].value, fallback)
  }

  lemma KeepsEveryResource(resources: seq<Option<Resource>>, fallback: string)
    ensures var count := |FirstPerKey({}, ObsItems(resources, fallback))|;
      count <= |resources| && (count == |resources| <==> AllDiffer(resources, fallback))
  {
    ObsItemsSize(resources, fallback);
    KeepsAllExactly({}, ObsItems(resources, fallback));
    if AllObservable(resources) {
      AllObservableItems(resources, fallback);
    }
  }

  lemma KeptAreObserved(t: Tables, resources: seq<Option<Resource>>, m: Metadata)
    requires forall k :: k in t.observations ==> k.scan != m.id
    ensures var kept := FirstPerKey({}, ObsItems(resources, m.provider));
      var snapshot := Snapshot(AfterObserving(t, resources, m).observations, m.id);
      && |snapshot| == |kept|
      && forall k :: 0 <= k < |kept| ==>
           var r := kept[k].value; SubjectOf(r, m.provider) in snapshot && snapshot[SubjectOf(r, m.provider)] == r.hash
  {
    var items := ObsItems(resources, m.provider);
    var kept := FirstPerKey({}, items);
    KeptDistinct({}, items);
    forall k | 0 <= k < |kept| ensures kept[k].key == SubjectKey(kept[k].value, m.provider) {
      var i := KeptFrom({}, items, k);
      ObsItemsOccur(resources, m.provider, i);
    }
    SnapshotOfKept(t.observations, kept, m.id, m.provider);
    var rows := SubjectRows(kept, m.provider);
    forall i, j | 0 <= i < j < |rows| ensures rows[i].0 != rows[j].0 {
      assert kept[i].key != kept[j].key;
    }
    UpsertSize(rows);
    forall k | 0 <= k < |kept|
      ensures var r := kept[k].value; var s := SubjectOf(r, m.provider);
        s in Upsert(map[], rows) && Upsert(map[], rows)[s] == r.hash
    {
      UpsertHolds(rows, k);
    }
  }

  lemma {:induction false} ObsItemsOrigin(resources: seq<Option<Resource>>, fallback: string, j: nat) returns (i: nat)
    requires j < |ObsItems(resources, fallback)|
    ensures i < |resources| && Observable(resources[i])
    ensures ObsItems(resources, fallback)[j] == Keyed(SubjectKey(resources[i].value, fallback), resources[i].value)
  {
    var head := resources[..|resources| - 1];
    if j < |ObsItems(head, fallback)| {
      i := ObsItemsOrigin(head, fallback, j);
    } else {
      i := |resources| - 1;
    }
  }

  /** Of resources with one subject key the first is the one observed. */
  lemma FirstIsObserved(t: Tables, resources: seq<Option<Resource>>, options: Options, m: Metadata, n: nat)
    requires forall k :: k in t.observations ==> k.scan != m.id
    requires n < |resources| && Observable(resources[n])
    requires forall i :: 0 <= i < n && Observable(resources[i]) ==>
      SubjectKey(resources[i].value, m.provider) != SubjectKey(resources[n].value, m.provider)
    ensures var snapshot := Snapshot(Persisted(t, resources, options, m).observations, m.id);
      var s := SubjectOf(resources[n].value, m.provider);
      s in snapshot && snapshot[s] == resources[n].value.hash
  {
    var items := ObsItems(resources, m.provider);
    var k := |ObsItems(resources[..n], m.provider)|;
    ObsItemAt(resources, n, m.provider);
    forall j | 0 <= j < k ensures items[j].key != items[k].key {
      assert items[j] == items[..k][j];
      var i := ObsItemsOrigin(resources[..n], m.provider, j);
      assert resources[..n][i] == resources[i];
    }
    KeptIsFirst({}, items, k);
    var kept := FirstPerKey({}, items);
    var at :| 0 <= at < |kept| && kept[at] == items[k];
    KeptAreObserved(t, resources, m);
  }

  /** The observed resources under provider and ID, instead of the joined key. */
  function BySubject(resources: seq<Option<Resource>>, fallback: string): seq<Keyed<Subject, Resource>> {
    var items := ObsItems(resources, fallback);
    seq(|items|, i requires 0 <= i < |items| => Keyed(SubjectOf(items[i].value, fallback), items[i].value))
  }

  /** Two observable resources have the same joined key and differ in provider or ID. */
  ghost predicate MixedSubjects(resources: seq<Option<Resource>>, fallback: string) {
    exists r, q :: Some(r) in resources && Some(q) in resources && Observable(Some(r)) && Observable(Some(q))
      && SubjectKey(r, fallback) == SubjectKey(q, fallback) && SubjectOf(r, fallback) != SubjectOf(q, fallback)
  }

  /** A scan with a fresh ID has one observation for each provider and ID exactly when no two of its
      resources are mixed up, and fewer otherwise. */
  lemma SubjectsObservedExactly(t: Tables, resources: seq<Option<Resource>>, options: Options, m: Metadata)
    requires forall k :: k in t.observations ==> k.scan != m.id
    ensures var bySubject := BySubject(resources, m.provider);
      var count := |Snapshot(Persisted(t, resources, options, m).observations, m.id)|;
      && (count == |Firsts(bySubject, |bySubject|)| <==> !MixedSubjects(resources, m.provider))
      && (count < |Firsts(bySubject, |bySubject|)| <==> MixedSubjects(resources, m.provider))
  {
    var items, bySubject := ObsItems(resources, m.provider), BySubject(resources, m.provider);
    KeptAreObserved(t, resources, m);
    ItemsAreFiner(resources, m.provider);
    KeptByIdentityExactly(items, bySubject);
    MixedExactly(resources, m.provider);
  }

  /** Without such a mix-up all resources are observed exactly when all are observable and no two have
      the same provider and ID. */
  lemma ObservationCountBySubject(t: Tables, resources: seq<Option<Resource>>, options: Options, m: Metadata)
    requires forall k :: k in t.observations ==> k.scan != m.id
    requires !MixedSubjects(resources, m.provider)
    ensures |Snapshot(Persisted(t, resources, options, m).observations, m.id)| == |resources| <==>
      && AllObservable(resources)
      && forall i, j :: 0 <= i < j < |resources| ==>
           SubjectOf(resources[i].value, m.provider) != SubjectOf(resources[j].value, m.provider)
  {
    ObservationCount(t, resources, options, m);
    if AllObservable(resources) {
      forall i, j | 0 <= i < j < |resources|
        ensures SubjectKey(resources[i].value, m.provider) == SubjectKey(resources[j].value, m.provider)
           <==> SubjectOf(resources[i].value, m.provider) == SubjectOf(resources[j].value, m.provider)
      {
        assert resources[i] in resources && resources[j] in resources;
        assert resources[i] == Some(resources[i].value) && resources[j] == Some(resources[j].value);
      }
    }
  }

  lemma ItemsAreFiner(resources: seq<Option<Resource>>, fallback: string)
    ensures Finer(ObsItems(resources, fallback), BySubject(resources, fallback))
  {
    var items := ObsItems(resources, fallback);
    forall i | 0 <= i < |items| ensures items[i].key == SubjectKey(items[i].value, fallback) {
      ObsItemsOccur(resources, fallback, i);
    }
  }

  lemma MixedExactly(resources: seq<Option<Resource>>, fallback: string)
    ensures Collides(ObsItems(resources, fallback), BySubject(resources, fallback))
       <==> MixedSubjects(resources, fallback)
  {
    if MixedSubjects(resources, fallback) {
      MixedCollide(resources, fallback);
    }
    if Collides(ObsItems(resources, fallback), BySubject(resources, fallback)) {
      CollidingAreMixed(resources, fallback);
    }
  }

  lemma MixedCollide(resources: seq<Option<Resource>>, fallback: string)
    requires MixedSubjects(resources, fallback)
    ensures Collides(ObsItems(resources, fallback), BySubject(resources, fallback))
  {
    var items, bySubject := ObsItems(resources, fallback), BySubject(resources, fallback);
    var r, q :| Some(r) in resources && Some(q) in resources && Observable(Some(r)) && Observable(Some(q))
      && SubjectKey(r, fallback) == SubjectKey(q, fallback) && SubjectOf(r, fallback) != SubjectOf(q, fallback);
    var i := ItemOf(resources, fallback, r);
    var j := ItemOf(resources, fallback, q);
    assert items[i].key == items[j].key && bySubject[i].key != bySubject[j].key;
  }

  lemma CollidingAreMixed(resources: seq<Option<Resource>>, fallback: string)
    requires Collides(ObsItems(resources, fallback), BySubject(resources, fallback))
    ensures MixedSubjects(resources, fallback)
  {
    var items, bySubject := ObsItems(resources, fallback), BySubject(resources, fallback);
    var i, j :| 0 <= i < |items| && 0 <= j < |items|
      && items[i].key == items[j].key && bySubject[i].key != bySubject[j].key;
    ObsItemsOccur(resources, fallback, i);
    ObsItemsOccur(resources, fallback, j);
    var r, q := items[i].value, items[j].value;
    assert SubjectKey(r, fallback) == SubjectKey(q, fallback) && SubjectOf(r, fallback) != SubjectOf(q, fallback);
  }

  /** Where an observable resource stands among the items. */
  lemma ItemOf(resources: seq<Option<Resource>>, fallback: string, r: Resource) returns (k: nat)
    requires Some(r) in resources && Observable(Some(r))
    ensures k < |ObsItems(resources, fallback)|
    ensures ObsItems(resources, fallback)[k] == Keyed(SubjectKey(r, fallback), r)
  {
    var n :| 0 <= n < |resources| && resources[n] == Some(r);
    ObsItemAt(resources, n, fallback);
    k := |ObsItems(resources[..n], fallback)|;
  }

  /** Resources whose observed provider holds no bar are never mixed up. */
  lemma BarFreeIsNotMixed(resources: seq<Option<Resource>>, fallback: string)
    requires forall r :: Some(r) in resources ==> '|' !in ObservedProvider(r, fallback)
    ensures !MixedSubjects(resources, fallback)
  {
    forall r, q | Some(r) in resources && Some(q) in resources && SubjectKey(r, fallback) == SubjectKey(q, fallback)
      ensures SubjectOf(r, fallback) == SubjectOf(q, fallback)
    {
      CutAtFirst('|', ObservedProvider(r, fallback), r.id, ObservedProvider(q, fallback), q.id);
    }
  }

  // ---------------------------------------------------------------- whole histories

  datatype Scan = Scan(resources: seq<Option<Resource>>, options: Options, m: Metadata)

  ghost function Apply(t: Tables, scan: Scan): Tables {
    Persisted(t, scan.resources, scan.options, scan.m)
  }

  ghost function Replay(t: Tables, scans: seq<Scan>): Tables {
    if scans == [] then t else Apply(Replay(t, scans[..|scans| - 1]), scans[|scans| - 1])
  }

  /** No row of the tables belongs to this scan ID. */
  ghost predicate Fresh(t: Tables, id: string) {
    id !in t.scans && forall k :: k in t.observations ==> k.scan != id
  }

  /** The row's provider and status, defaults filled in. */
  function ProviderOf(m: Metadata): string {
    if m.provider == "" then "unknown" else m.provider
  }

  function StatusOf(m: Metadata): string {
    if m.status == "" then "completed" else m.status
  }

  /** The scan is a complete one of this provider and scope. */
  predicate Joins(m: Metadata, provider: string, scopeKey: string) {
    m.complete && StatusOf(m) == "completed" && m.scopeKey == scopeKey && ProviderOf(m) == provider
  }

  /** Each scan comes with a fresh ID, and starts after the comparable scans before it. Scans of
      other providers and scopes, and partial or failed ones, may be mixed in. */
  ghost predicate InOrder(t: Tables, scans: seq<Scan>, provider: string, scopeKey: string) {
    scans == [] ||
    var before, m := Replay(t, scans[..|scans| - 1]), scans[|scans| - 1].m;
    && InOrder(t, scans[..|scans| - 1], provider, scopeKey)
    && Fresh(before, m.id)
    && (Joins(m, provider, scopeKey) ==>
          forall i :: i in Comparable(before.scans, provider, scopeKey) ==> before.scans[i].start < m.start)
  }

  function Size(t: Tables, ids: seq<string>, j: int): int {
    if 0 <= j < |ids| then |RowsOf(t.observations, ids[j])| else 0
  }

  function Prior(ids: seq<string>, j: nat): Option<string>
    requires j <= |ids|
  {
    if j == 0 then None else Some(ids[j - 1])
  }

  /** The comparable scans, oldest first. */
  ghost predicate Lined(t: Tables, provider: string, scopeKey: string, ids: seq<string>) {
    && (forall i :: i in Comparable(t.scans, provider, scopeKey) <==> i in ids)
    && Ordered(t, ids)
  }

  ghost predicate Ordered(t: Tables, ids: seq<string>) {
    && (forall j :: 0 <= j < |ids| ==> ids[j] in t.scans)
    && (forall i, j :: 0 <= i < j < |ids| ==> t.scans[ids[i]].start < t.scans[ids[j]].start)
  }

  /** Each of these scans has its counters against the one before. */
  ghost predicate Counted(t: Tables, ids: seq<string>) {
    forall j :: 0 <= j < |ids| ==> CountedAt(t, ids, j)
  }

  ghost predicate CountedAt(t: Tables, ids: seq<string>, j: nat)
    requires j < |ids|
  {
    ids[j] in t.scans && Counts(t.scans[ids[j]], t.observations, ids[j], Prior(ids, j))
  }

  ghost predicate Chain(t: Tables, provider: string, scopeKey: string, ids: seq<string>) {
    Lined(t, provider, scopeKey, ids) && Counted(t, ids)
  }

  /** In a chain each scan's previous scan is the one before it, and the first has none. */
  lemma ChainLinks(t: Tables, provider: string, scopeKey: string, ids: seq<string>, j: nat)
    requires Lined(t, provider, scopeKey, ids) && j < |ids|
    ensures PreviousOf(t.scans, ids[j]) == Prior(ids, j)
  {
    var candidates := Candidates(t.scans, provider, scopeKey, ids[j], t.scans[ids[j]].start);
    assert ids[j] in Comparable(t.scans, provider, scopeKey);
    forall i | i in candidates ensures exists k :: 0 <= k < j && ids[k] == i {
      var k :| 0 <= k < |ids| && ids[k] == i;
      assert k != j;
    }
    if j > 0 {
      assert ids[j - 1] in Comparable(t.scans, provider, scopeKey);
      assert ids[j - 1] in candidates;
      forall i | i in candidates ensures NotAfter(t.scans, i, ids[j - 1]) {
        var k :| 0 <= k < j && ids[k] == i;
        NotAfterOrders(t.scans, i, i, i);
      }
      assert IsLatest(t.scans, candidates, ids[j - 1]);
      LatestIsUnique(t.scans, candidates, ids[j - 1], LatestOf(t.scans, candidates));
    }
  }

  /** The observations of a scan are as before. */
  ghost predicate SameRows(before: map<ObsKey, string>, after: map<ObsKey, string>, id: string) {
    forall k: ObsKey :: k.scan == id ==> (k in before <==> k in after) && (k in before ==> before[k] == after[k])
  }

  lemma SnapshotTellsRows(before: map<ObsKey, string>, after: map<ObsKey, string>, id: string)
    requires Snapshot(before, id) == Snapshot(after, id)
    ensures SameRows(before, after, id)
  {
    forall k: ObsKey | k.scan == id
      ensures (k in before <==> k in after) && (k in before ==> before[k] == after[k])
    {
      InSnapshot(before, id, Subject(k.provider, k.id));
      InSnapshot(after, id, Subject(k.provider, k.id));
    }
  }

  /** Persisting under a fresh ID leaves every other scan's row and observations alone. */
  lemma OthersStay(t: Tables, scan: Scan, id: string)
    requires id != scan.m.id
    ensures SameRows(t.observations, Apply(t, scan).observations, id)
    ensures id in Apply(t, scan).scans <==> id in t.scans
    ensures id in t.scans ==> Apply(t, scan).scans[id] == t.scans[id]
  {
    var kept := FirstPerKey({}, ObsItems(scan.resources, scan.m.provider));
    RowsOfOneScan(t.observations, kept, scan.m.id, scan.m.provider, id);
    SnapshotTellsRows(t.observations, Apply(t, scan).observations, id);
  }

  lemma {:induction false} RowsOfOneScan(observations: map<ObsKey, string>, kept: Subjects, scan: string,
      fallback: string, id: string)
    requires id != scan
    ensures Snapshot(Upsert(observations, ObsRows(kept, scan, fallback)), id) == Snapshot(observations, id)
  {
    if kept != [] {
      RowsOfOneScan(observations, kept[..|kept| - 1], scan, fallback, id);
      ObserveLast(observations, kept, scan, fallback, id);
    }
  }

  /** The row of a persisted scan: its metadata with defaults filled in, and for an incomplete scan
      the counters that the row had, if there was one. */
  lemma NewRow(t: Tables, scan: Scan)
    ensures var after, m := Apply(t, scan), scan.m;
      && m.id in after.scans
      && after.scans[m.id].provider == ProviderOf(m) && after.scans[m.id].scopeKey == m.scopeKey
      && after.scans[m.id].complete == m.complete && after.scans[m.id].status == StatusOf(m)
      && after.scans[m.id].start == m.start && after.scans[m.id].total == m.total
    ensures var row, m := Apply(t, scan).scans[scan.m.id], scan.m;
      !m.complete ==>
        if m.id in t.scans then
          row.created == t.scans[m.id].created && row.updated == t.scans[m.id].updated
          && row.deleted == t.scans[m.id].deleted
        else row.created == row.updated == row.deleted == 0
  {
  }

  /** Persisting a fresh scan adds it to the comparable ones exactly when it joins them. */
  lemma ComparableAfter(t: Tables, scan: Scan, provider: string, scopeKey: string)
    requires Fresh(t, scan.m.id)
    ensures forall i :: i in Comparable(Apply(t, scan).scans, provider, scopeKey) <==>
      i in Comparable(t.scans, provider, scopeKey) || (i == scan.m.id && Joins(scan.m, provider, scopeKey))
  {
    NewRow(t, scan);
    forall i ensures i in Comparable(Apply(t, scan).scans, provider, scopeKey) <==>
      i in Comparable(t.scans, provider, scopeKey) || (i == scan.m.id && Joins(scan.m, provider, scopeKey)) {
      if i != scan.m.id {
        OthersStay(t, scan, i);
      }
    }
  }

  /** The new scan's counters are taken against the last scan of the chain. */
  lemma CountsAgainstLast(t: Tables, scan: Scan, provider: string, scopeKey: string, ids: seq<string>)
    requires Fresh(t, scan.m.id) && Joins(scan.m, provider, scopeKey)
    requires Chain(t, provider, scopeKey, ids)
    requires forall i :: i in Comparable(t.scans, provider, scopeKey) ==> t.scans[i].start < scan.m.start
    ensures var after, m := Apply(t, scan), scan.m;
      m.id in after.scans && Counts(after.scans[m.id], after.observations, m.id, Prior(ids, |ids|))
  {
    var after, m := Apply(t, scan), scan.m;
    var stored := t.scans[m.id := MetadataRow(t.scans, m)];
    NewRow(t, scan);
    PreviousIsLast(t, scan, provider, scopeKey, ids, stored);
    SamePrevious(stored, after.scans, provider, scopeKey, m.id, m.start);
    CountersAreExact(t, scan.resources, scan.options, m);
  }

  lemma PreviousIsLast(t: Tables, scan: Scan, provider: string, scopeKey: string, ids: seq<string>, stored: Scans)
    requires Fresh(t, scan.m.id) && Lined(t, provider, scopeKey, ids)
    requires stored == t.scans[scan.m.id := MetadataRow(t.scans, scan.m)]
    requires forall i :: i in Comparable(t.scans, provider, scopeKey) ==> t.scans[i].start < scan.m.start
    ensures Previous(stored, provider, scopeKey, scan.m.id, scan.m.start)
         == Prior(ids, |ids|)
  {
    var m := scan.m;
    var candidates := Candidates(stored, provider, scopeKey, m.id, m.start);
    forall i ensures i in candidates <==> i in ids {
      assert i in ids ==> i in Comparable(t.scans, provider, scopeKey);
      assert i in candidates ==> i in Comparable(t.scans, provider, scopeKey);
    }
    if ids != [] {
      var last := ids[|ids| - 1];
      assert last in candidates;
      forall i | i in candidates ensures NotAfter(stored, i, last) {
        var k :| 0 <= k < |ids| && ids[k] == i;
        NotAfterOrders(stored, i, i, i);
      }
      assert IsLatest(stored, candidates, last);
      LatestIsUnique(stored, candidates, last, LatestOf(stored, candidates));
    }
  }

  /** Counters stay right as long as the rows of both scans do. */
  lemma CountsStay(row: ScanRow, before: map<ObsKey, string>, after: map<ObsKey, string>, id: string,
      prior: Option<string>)
    requires Counts(row, before, id, prior) && SameRows(before, after, id)
    requires prior.Some? ==> SameRows(before, after, prior.value)
    ensures Counts(row, after, id, prior)
  {
    assert NewRows(before, id, prior) == NewRows(after, id, prior);
    assert ChangedRows(before, id, prior) == ChangedRows(after, id, prior);
    assert EqualRows(before, id, prior) == EqualRows(after, id, prior);
    assert GoneRows(before, id, prior) == GoneRows(after, id, prior);
    assert RowsOf(before, id) == RowsOf(after, id);
    assert prior.Some? ==> RowsOf(before, prior.value) == RowsOf(after, prior.value);
  }

  /** The counters of earlier scans are not touched. */
  lemma CountedStays(t: Tables, scan: Scan, ids: seq<string>)
    requires Counted(t, ids) && scan.m.id !in t.scans
    ensures Counted(Apply(t, scan), ids)
  {
    var after := Apply(t, scan);
    forall j | 0 <= j < |ids| ensures CountedAt(after, ids, j) {
      assert CountedAt(t, ids, j);
      OthersStay(t, scan, ids[j]);
      if j > 0 {
        assert CountedAt(t, ids, j - 1);
        OthersStay(t, scan, ids[j - 1]);
      }
      CountsStay(t.scans[ids[j]], t.observations, after.observations, ids[j], Prior(ids, j));
    }
  }

  lemma CountedGrows(t: Tables, ids: seq<string>, id: string)
    requires Counted(t, ids) && id in t.scans
    requires Counts(t.scans[id], t.observations, id, Prior(ids, |ids|))
    ensures Counted(t, ids + [id])
  {
    var more := ids + [id];
    forall j | 0 <= j < |more| ensures CountedAt(t, more, j) {
      assert Prior(more, j) == Prior(ids, j);
      assert j < |ids| ==> CountedAt(t, ids, j);
    }
  }

  lemma ChainStep(t: Tables, scan: Scan, provider: string, scopeKey: string, ids: seq<string>)
    requires Fresh(t, scan.m.id) && Chain(t, provider, scopeKey, ids)
    requires Joins(scan.m, provider, scopeKey) ==>
      forall i :: i in Comparable(t.scans, provider, scopeKey) ==> t.scans[i].start < scan.m.start
    ensures Chain(Apply(t, scan), provider, scopeKey,
      if Joins(scan.m, provider, scopeKey) then ids + [scan.m.id] else ids)
  {
    CountedStays(t, scan, ids);
    LinedAfter(t, scan, provider, scopeKey, ids);
    if Joins(scan.m, provider, scopeKey) {
      CountsAgainstLast(t, scan, provider, scopeKey, ids);
      CountedGrows(Apply(t, scan), ids, scan.m.id);
    }
  }

  lemma LinedAfter(t: Tables, scan: Scan, provider: string, scopeKey: string, ids: seq<string>)
    requires Fresh(t, scan.m.id) && Lined(t, provider, scopeKey, ids)
    requires Joins(scan.m, provider, scopeKey) ==>
      forall i :: i in Comparable(t.scans, provider, scopeKey) ==> t.scans[i].start < scan.m.start
    ensures Lined(Apply(t, scan), provider, scopeKey,
      if Joins(scan.m, provider, scopeKey) then ids + [scan.m.id] else ids)
  {
    ComparableAfter(t, scan, provider, scopeKey);
    NewRow(t, scan);
    var after := Apply(t, scan);
    forall j | 0 <= j < |ids|
      ensures ids[j] in after.scans && after.scans[ids[j]] == t.scans[ids[j]]
      ensures Joins(scan.m, provider, scopeKey) ==> t.scans[ids[j]].start < scan.m.start
    {
      assert ids[j] in Comparable(t.scans, provider, scopeKey);
      OthersStay(t, scan, ids[j]);
    }
  }

  /** New minus deleted resources over the first n scans of the chain. */
  function NetDrift(t: Tables, ids: seq<string>, n: nat): int
    requires n <= |ids| && forall j :: 0 <= j < |ids| ==> ids[j] in t.scans
  {
    if n == 0 then 0 else NetDrift(t, ids, n - 1) + t.scans[ids[n - 1]].created - t.scans[ids[n - 1]].deleted
  }

  lemma {:induction false} NetDriftIsSize(t: Tables, provider: string, scopeKey: string, ids: seq<string>, n: nat)
    requires Chain(t, provider, scopeKey, ids) && n <= |ids|
    ensures NetDrift(t, ids, n) == Size(t, ids, n - 1)
  {
    if n > 0 {
      NetDriftIsSize(t, provider, scopeKey, ids, n - 1);
      assert CountedAt(t, ids, n - 1);
    }
  }

  /** The IDs of the scans that join, in the order they were persisted. */
  function JoinedIds(scans: seq<Scan>, provider: string, scopeKey: string): seq<string> {
    if scans == [] then []
    else
      var head, last := JoinedIds(scans[..|scans| - 1], provider, scopeKey), scans[|scans| - 1];
      if Joins(last.m, provider, scopeKey) then head + [last.m.id] else head
  }

  lemma {:induction false} HistoryIsChain(t: Tables, scans: seq<Scan>, provider: string, scopeKey: string)
    requires Comparable(t.scans, provider, scopeKey) == {} && InOrder(t, scans, provider, scopeKey)
    ensures Chain(Replay(t, scans), provider, scopeKey, JoinedIds(scans, provider, scopeKey))
  {
    if scans != [] {
      var head := scans[..|scans| - 1];
      HistoryIsChain(t, head, provider, scopeKey);
      ChainStep(Replay(t, head), scans[|scans| - 1], provider, scopeKey, JoinedIds(head, provider, scopeKey));
    }
  }

  lemma ChainAddsUp(t: Tables, provider: string, scopeKey: string, ids: seq<string>, j: nat)
    requires Chain(t, provider, scopeKey, ids) && j < |ids|
    ensures forall i :: i in Comparable(t.scans, provider, scopeKey) <==> i in ids
    ensures forall k :: 0 <= k < |ids| ==> ids[k] in t.scans
    ensures PreviousOf(t.scans, ids[j]) == Prior(ids, j)
    ensures Counts(t.scans[ids[j]], t.observations, ids[j], Prior(ids, j))
    ensures NetDrift(t, ids, j + 1) == |RowsOf(t.observations, ids[j])|
  {
    ChainLinks(t, provider, scopeKey, ids, j);
    assert CountedAt(t, ids, j);
    NetDriftIsSize(t, provider, scopeKey, ids, j + 1);
  }

  /** Over any history that is in order, whatever else is persisted in between: the previous scan of
      each complete scan of a provider and scope is the one persisted before it, all of them form
      one chain, every counter in the chain counts the rows that it should against the scan before,
      and new minus deleted resources summed along the chain up to a scan is the number of its
      observations. */
  lemma DriftAddsUp(t: Tables, scans: seq<Scan>, provider: string, scopeKey: string, j: nat)
    requires Comparable(t.scans, provider, scopeKey) == {} && InOrder(t, scans, provider, scopeKey)
    requires j < |JoinedIds(scans, provider, scopeKey)|
    ensures var after, ids := Replay(t, scans), JoinedIds(scans, provider, scopeKey);
      && (forall i :: i in Comparable(after.scans, provider, scopeKey) <==> i in ids)
      && (forall k :: 0 <= k < |ids| ==> ids[k] in after.scans)
      && PreviousOf(after.scans, ids[j]) == (if j == 0 then None else Some(ids[j - 1]))
      && Counts(after.scans[ids[j]], after.observations, ids[j], if j == 0 then None else Some(ids[j - 1]))
      && NetDrift(after, ids, j + 1) == |RowsOf(after.observations, ids[j])|
  {
    HistoryIsChain(t, scans, provider, scopeKey);
    ChainAddsUp(Replay(t, scans), provider, scopeKey, JoinedIds(scans, provider, scopeKey), j);
  }
}
