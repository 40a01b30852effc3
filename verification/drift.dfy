/** Scan history (internal/db/graph_store.go, internal/data/history.go): the previous comparable scan
    and the drift counters against it. */
module Drift {
  import opened Sorting
  import opened Wrappers

  datatype ObsKey = ObsKey(scan: string, provider: string, id: string)

  datatype Subject = Subject(provider: string, id: string)

  datatype ScanRow = ScanRow(
    provider: string, scopeKey: string, status: string, complete: bool, start: int, total: int,
    created: int, updated: int, deleted: int)

  /** The (provider, resource_id) -> semantic_hash rows of one scan. */
  function Snapshot(observations: map<ObsKey, string>, scan: string): map<Subject, string> {
    map k | k in observations && k.scan == scan :: Subject(k.provider, k.id) := observations[k]
  }

  // ---------------------------------------------------------------- the counters

  function Created(prior: map<Subject, string>, current: map<Subject, string>): set<Subject> {
    set s | s in current && s !in prior
  }

  function Updated(prior: map<Subject, string>, current: map<Subject, string>): set<Subject> {
    set s | s in current && s in prior && current[s] != prior[s]
  }

  function Deleted(prior: map<Subject, string>, current: map<Subject, string>): set<Subject> {
    set s | s in prior && s !in current
  }

  function Unchanged(prior: map<Subject, string>, current: map<Subject, string>): set<Subject> {
    set s | s in current && s in prior && current[s] == prior[s]
  }

  function Patched(prior: map<Subject, string>, current: map<Subject, string>): map<Subject, string> {
    (prior - Deleted(prior, current)) + (map s | s in Created(prior, current) + Updated(prior, current) :: current[s])
  }

  lemma SplitSize(whole: map<Subject, string>, a: set<Subject>, b: set<Subject>, c: set<Subject>)
    requires forall s :: s in whole <==> s in a || s in b || s in c
    requires a !! b && a !! c && b !! c
    ensures |a| + |b| + |c| == |whole|
  {
    assert whole.Keys == a + b + c;
    assert |a + b| == |a| + |b|;
  }

  /** Applying the deletions, creations and updates to the prior snapshot gives the current one. */
  lemma ChangesRebuild(prior: map<Subject, string>, current: map<Subject, string>)
    ensures Patched(prior, current) == current
  {
    var patched := Patched(prior, current);
    forall s ensures s in patched <==> s in current {
    }
    forall s | s in current ensures patched[s] == current[s] {
    }
  }

  /** The classification splits both snapshots, so the counters add up on both sides. */
  lemma ChangesAreExact(prior: map<Subject, string>, current: map<Subject, string>)
    ensures |Created(prior, current)| + |Updated(prior, current)| + |Unchanged(prior, current)| == |current|
    ensures |Deleted(prior, current)| + |Updated(prior, current)| + |Unchanged(prior, current)| == |prior|
  {
    var c, u := Created(prior, current), Updated(prior, current);
    var d, n := Deleted(prior, current), Unchanged(prior, current);
    SplitSize(current, c, u, n);
    SplitSize(prior, d, u, n);
  }

  /** Without a prior scan everything is new and nothing is updated or deleted. */
  lemma FirstScanIsAllNew(current: map<Subject, string>)
    ensures Created(map[], current) == current.Keys
    ensures Updated(map[], current) == {} && Deleted(map[], current) == {}
  {
  }

  // ---------------------------------------------------------------- the counters as sets of rows

  type Observed = map<ObsKey, string>

  /** The row of another scan for the same provider and resource. */
  function Twin(k: ObsKey, scan: string): ObsKey {
    ObsKey(scan, k.provider, k.id)
  }

  function RowsOf(rows: Observed, scan: string): set<ObsKey> {
    set k | k in rows && k.scan == scan
  }

  /** The rows of a scan that an earlier one lacks. */
  function NewRows(rows: Observed, scan: string, prior: Option<string>): set<ObsKey> {
    set k | k in rows && k.scan == scan && (prior.None? || Twin(k, prior.value) !in rows)
  }

  /** The rows that both have, with different hashes. */
  function ChangedRows(rows: Observed, scan: string, prior: Option<string>): set<ObsKey> {
    set k | k in rows && k.scan == scan && prior.Some? && Twin(k, prior.value) in rows
            && rows[k] != rows[Twin(k, prior.value)]
  }

  /** The rows that both have, with one hash. */
  function EqualRows(rows: Observed, scan: string, prior: Option<string>): set<ObsKey> {
    set k | k in rows && k.scan == scan && prior.Some? && Twin(k, prior.value) in rows
            && rows[k] == rows[Twin(k, prior.value)]
  }

  /** The rows of the earlier scan that this one lacks. */
  function GoneRows(rows: Observed, scan: string, prior: Option<string>): set<ObsKey> {
    set k | k in rows && prior.Some? && k.scan == prior.value && Twin(k, scan) !in rows
  }

  /** The row holds these counters against the earlier scan, and they add up to the sizes of both. */
  ghost predicate Counts(row: ScanRow, rows: Observed, scan: string, prior: Option<string>) {
    && row.created == |NewRows(rows, scan, prior)|
    && row.updated == |ChangedRows(rows, scan, prior)|
    && row.deleted == |GoneRows(rows, scan, prior)|
    && row.created + row.updated + |EqualRows(rows, scan, prior)| == |RowsOf(rows, scan)|
    && (prior.Some? ==> row.deleted + row.updated + |EqualRows(rows, scan, prior)| == |RowsOf(rows, prior.value)|)
    && (prior.None? ==> row.updated == row.deleted == 0)
  }

  /** The keys of some subjects in a scan. */
  function KeysIn(scan: string, subjects: set<Subject>): set<ObsKey> {
    set s | s in subjects :: ObsKey(scan, s.provider, s.id)
  }

  lemma {:induction false} AsManyKeys(scan: string, subjects: set<Subject>)
    ensures |KeysIn(scan, subjects)| == |subjects|
  {
    if s :| s in subjects {
      AsManyKeys(scan, subjects - {s});
      assert KeysIn(scan, subjects) == KeysIn(scan, subjects - {s}) + {ObsKey(scan, s.provider, s.id)};
    }
  }

  function SnapshotBefore(rows: Observed, prior: Option<string>): map<Subject, string> {
    if prior.None? then map[] else Snapshot(rows, prior.value)
  }

  lemma InSnapshot(rows: Observed, scan: string, s: Subject)
    ensures s in Snapshot(rows, scan) <==> ObsKey(scan, s.provider, s.id) in rows
    ensures s in Snapshot(rows, scan) ==> Snapshot(rows, scan)[s] == rows[ObsKey(scan, s.provider, s.id)]
  {
    if ObsKey(scan, s.provider, s.id) in rows {
      assert Subject(s.provider, s.id) == s;
    }
  }

  /** The classes of subjects are those of rows. */
  lemma ClassesAreRows(rows: Observed, scan: string, prior: Option<string>)
    ensures var before, now := SnapshotBefore(rows, prior), Snapshot(rows, scan);
      && NewRows(rows, scan, prior) == KeysIn(scan, Created(before, now))
      && ChangedRows(rows, scan, prior) == KeysIn(scan, Updated(before, now))
      && EqualRows(rows, scan, prior) == KeysIn(scan, Unchanged(before, now))
  {
    var before, now := SnapshotBefore(rows, prior), Snapshot(rows, scan);
    forall k | k in rows && k.scan == scan
      ensures Subject(k.provider, k.id) in now && now[Subject(k.provider, k.id)] == rows[k]
      ensures Subject(k.provider, k.id) in before <==> prior.Some? && Twin(k, prior.value) in rows
      ensures Subject(k.provider, k.id) in before ==> before[Subject(k.provider, k.id)] == rows[Twin(k, prior.value)]
      ensures forall s: Subject :: ObsKey(scan, s.provider, s.id) == k ==> s == Subject(k.provider, k.id)
    {
      InSnapshot(rows, scan, Subject(k.provider, k.id));
      if prior.Some? { InSnapshot(rows, prior.value, Subject(k.provider, k.id)); }
    }
    forall s | s in now ensures ObsKey(scan, s.provider, s.id) in rows {
      InSnapshot(rows, scan, s);
    }
  }

  lemma GoneAreRows(rows: Observed, scan: string, prior: string)
    ensures GoneRows(rows, scan, Some(prior))
         == KeysIn(prior, Deleted(Snapshot(rows, prior), Snapshot(rows, scan)))
  {
    forall k | k in rows && k.scan == prior
      ensures Subject(k.provider, k.id) in Snapshot(rows, prior)
      ensures Subject(k.provider, k.id) in Snapshot(rows, scan) <==> Twin(k, scan) in rows
    {
      InSnapshot(rows, scan, Subject(k.provider, k.id));
      InSnapshot(rows, prior, Subject(k.provider, k.id));
    }
    forall s | s in Snapshot(rows, prior)
      ensures ObsKey(prior, s.provider, s.id) in rows
      ensures s in Snapshot(rows, scan) <==> Twin(ObsKey(prior, s.provider, s.id), scan) in rows
    {
      InSnapshot(rows, prior, s);
      InSnapshot(rows, scan, s);
    }
  }

  lemma RowsOfSnapshot(rows: Observed, scan: string)
    ensures RowsOf(rows, scan) == KeysIn(scan, Snapshot(rows, scan).Keys)
    ensures |RowsOf(rows, scan)| == |Snapshot(rows, scan)|
  {
    forall k | k in rows && k.scan == scan ensures Subject(k.provider, k.id) in Snapshot(rows, scan) {
      InSnapshot(rows, scan, Subject(k.provider, k.id));
    }
    forall s | s in Snapshot(rows, scan) ensures ObsKey(scan, s.provider, s.id) in rows {
      InSnapshot(rows, scan, s);
    }
    AsManyKeys(scan, Snapshot(rows, scan).Keys);
  }

  /** A row with the sizes of the classes has these counters. */
  lemma SizesCount(row: ScanRow, rows: Observed, scan: string, prior: Option<string>)
    requires var before, now := SnapshotBefore(rows, prior), Snapshot(rows, scan);
      && row.created == |Created(before, now)| && row.updated == |Updated(before, now)|
      && row.deleted == |Deleted(before, now)|
    ensures Counts(row, rows, scan, prior)
  {
    var before, now := SnapshotBefore(rows, prior), Snapshot(rows, scan);
    ClassesAreRows(rows, scan, prior);
    AsManyKeys(scan, Created(before, now));
    AsManyKeys(scan, Updated(before, now));
    AsManyKeys(scan, Unchanged(before, now));
    ChangesAreExact(before, now);
    RowsOfSnapshot(rows, scan);
    if prior.Some? {
      GoneAreRows(rows, scan, prior.value);
      AsManyKeys(prior.value, Deleted(before, now));
      RowsOfSnapshot(rows, prior.value);
    } else {
      FirstScanIsAllNew(now);
      assert GoneRows(rows, scan, prior) == {};
    }
  }

  // ---------------------------------------------------------------- the previous scan

  type Scans = map<string, ScanRow>

  /** Not before the other in ORDER BY scan_start_time DESC, id DESC. */
  predicate NotAfter(scans: Scans, a: string, b: string)
    requires a in scans && b in scans
  {
    scans[a].start < scans[b].start || (scans[a].start == scans[b].start && Leq(a, b))
  }

  lemma NotAfterOrders(scans: Scans, a: string, b: string, c: string)
    requires a in scans && b in scans && c in scans
    ensures NotAfter(scans, a, b) || NotAfter(scans, b, a)
    ensures NotAfter(scans, a, b) && NotAfter(scans, b, a) ==> a == b
    ensures NotAfter(scans, a, b) && NotAfter(scans, b, c) ==> NotAfter(scans, a, c)
  {
    LeqTotal(a, b);
    if Leq(a, b) && Leq(b, c) {
      LeqTransitive(a, b, c);
    }
  }

  ghost predicate IsLatest(scans: Scans, ids: set<string>, m: string) {
    ids <= scans.Keys && m in ids && forall i :: i in ids ==> NotAfter(scans, i, m)
  }

  lemma {:induction false} LatestExists(scans: Scans, ids: set<string>) returns (m: string)
    requires ids != {} && ids <= scans.Keys
    ensures IsLatest(scans, ids, m)
  {
    m :| m in ids;
    var rest := ids - {m};
    if rest == {} {
      NotAfterOrders(scans, m, m, m);
      assert ids == {m};
    } else {
      var n := LatestExists(scans, rest);
      NotAfterOrders(scans, m, n, n);
      if NotAfter(scans, n, m) {
        forall i | i in ids ensures NotAfter(scans, i, m) {
          NotAfterOrders(scans, m, m, m);
          if i != m { NotAfterOrders(scans, i, n, m); }
        }
      } else {
        m := n;
      }
    }
  }

  /** Completed, complete scans of one provider and scope key. */
  function Comparable(scans: Scans, provider: string, scopeKey: string): set<string> {
    set i | i in scans && scans[i].provider == provider && scans[i].scopeKey == scopeKey
            && scans[i].complete && scans[i].status == "completed"
  }

  function Candidates(scans: Scans, provider: string, scopeKey: string, id: string, start: int): set<string> {
    set i | i in Comparable(scans, provider, scopeKey) && i != id && scans[i].start <= start
  }

  /** The scan that both the counters' SQL and PreviousComparableScan select. */
  ghost function Previous(scans: Scans, provider: string, scopeKey: string, id: string, start: int): Option<string> {
    var ids := Candidates(scans, provider, scopeKey, id, start);
    if ids == {} then None
    else
      var e := LatestOf(scans, ids);
      Some(e)
  }

  ghost function LatestOf(scans: Scans, ids: set<string>): (m: string)
    requires ids != {} && ids <= scans.Keys
    ensures IsLatest(scans, ids, m)
  {
    assert exists m :: IsLatest(scans, ids, m) by {
      var m := LatestExists(scans, ids);
    }
    var m :| IsLatest(scans, ids, m);
    m
  }

  lemma LatestIsUnique(scans: Scans, ids: set<string>, m: string, n: string)
    requires IsLatest(scans, ids, m) && IsLatest(scans, ids, n)
    ensures m == n
  {
    NotAfterOrders(scans, m, n, n);
  }

  /** A completed, complete scan of the provider and scope other than this one, that has not started
      later. */
  predicate Qualifies(scans: Scans, provider: string, scopeKey: string, id: string, start: int, p: string) {
    && p in scans && p != id && scans[p].provider == provider && scans[p].scopeKey == scopeKey
    && scans[p].complete && scans[p].status == "completed" && scans[p].start <= start
  }

  /** Of the scans that qualify it is the one that started last, and of those that started then the
      one with the greatest ID. */
  ghost predicate IsPrevious(scans: Scans, provider: string, scopeKey: string, id: string, start: int, p: string) {
    && Qualifies(scans, provider, scopeKey, id, start, p)
    && forall q :: Qualifies(scans, provider, scopeKey, id, start, q) && q != p ==>
         scans[q].start < scans[p].start || (scans[q].start == scans[p].start && Before(q, p))
  }

  lemma PreviousExactly(scans: Scans, provider: string, scopeKey: string, id: string, start: int)
    ensures var previous := Previous(scans, provider, scopeKey, id, start);
      && (previous.None? <==> forall p :: !Qualifies(scans, provider, scopeKey, id, start, p))
      && (previous.Some? ==> IsPrevious(scans, provider, scopeKey, id, start, previous.value))
  {
    var ids := Candidates(scans, provider, scopeKey, id, start);
    forall p ensures p in ids <==> Qualifies(scans, provider, scopeKey, id, start, p) {
    }
    var previous := Previous(scans, provider, scopeKey, id, start);
    if previous.Some? {
      var m := previous.value;
      assert IsLatest(scans, ids, m);
      forall q | q in ids && q != m
        ensures scans[q].start < scans[m].start || (scans[q].start == scans[m].start && Before(q, m))
      {
        assert NotAfter(scans, q, m);
        BeforeExactly(q, m);
      }
    }
  }

  /** The query as a scan over the rows, in any order. */
  method QueryPrevious(scans: Scans, provider: string, scopeKey: string, id: string, start: int)
    returns (previous: Option<string>)
    ensures previous == Previous(scans, provider, scopeKey, id, start)
    ensures previous.None? <==> forall p :: !Qualifies(scans, provider, scopeKey, id, start, p)
    ensures previous.Some? ==> IsPrevious(scans, provider, scopeKey, id, start, previous.value)
  {
    PreviousExactly(scans, provider, scopeKey, id, start);
    var ids := Candidates(scans, provider, scopeKey, id, start);
    if ids == {} {
      return None;
    }
    var best :| best in ids;
    var left := ids - {best};
    NotAfterOrders(scans, best, best, best);
    while left != {}
      invariant left <= ids && IsLatest(scans, ids - left, best)
    {
      var i :| i in left;
      NotAfterOrders(scans, best, i, i);
      if scans[best].start < scans[i].start || (scans[best].start == scans[i].start && Leq(best, i)) {
        forall j | j in ids - left ensures NotAfter(scans, j, i) {
          NotAfterOrders(scans, j, best, i);
        }
        NotAfterOrders(scans, i, i, i);
        best := i;
      }
      left := left - {i};
    }
    assert ids - left == ids;
    LatestIsUnique(scans, ids, best, LatestOf(scans, ids));
    previous := Some(best);
  }

  /** PreviousComparableScan of a stored row. */
  ghost function PreviousOf(scans: Scans, id: string): Option<string>
    requires id in scans
  {
    Previous(scans, scans[id].provider, scans[id].scopeKey, id, scans[id].start)
  }

  /** Two comparable scans have each other as their previous scan exactly when two comparable scans
      start at the same time. */
  lemma MutualExactlyOnTies(scans: Scans, provider: string, scopeKey: string)
    ensures
      (exists a, b :: a in Comparable(scans, provider, scopeKey) && b in Comparable(scans, provider, scopeKey)
                      && PreviousOf(scans, a) == Some(b) && PreviousOf(scans, b) == Some(a))
      <==>
      (exists a, b :: a in Comparable(scans, provider, scopeKey) && b in Comparable(scans, provider, scopeKey)
                      && a != b && scans[a].start == scans[b].start)
  {
    var all := Comparable(scans, provider, scopeKey);
    if a, b :| a in all && b in all && PreviousOf(scans, a) == Some(b) && PreviousOf(scans, b) == Some(a) {
      assert b in Candidates(scans, provider, scopeKey, a, scans[a].start);
      assert a in Candidates(scans, provider, scopeKey, b, scans[b].start);
      assert a != b && scans[a].start == scans[b].start;
    }
    if a, b :| a in all && b in all && a != b && scans[a].start == scans[b].start {
      var top, next := TieIsMutual(scans, provider, scopeKey, a, b);
    }
  }

  lemma TieIsMutual(scans: Scans, provider: string, scopeKey: string, a: string, b: string)
    returns (top: string, next: string)
    requires a in Comparable(scans, provider, scopeKey) && b in Comparable(scans, provider, scopeKey)
    requires a != b && scans[a].start == scans[b].start
    ensures top in Comparable(scans, provider, scopeKey) && next in Comparable(scans, provider, scopeKey)
    ensures PreviousOf(scans, top) == Some(next) && PreviousOf(scans, next) == Some(top)
  {
    var t := scans[a].start;
    var upto := set i | i in Comparable(scans, provider, scopeKey) && scans[i].start <= t;
    assert a in upto;
    top := LatestOf(scans, upto);
    var other := if top == a then b else a;
    assert scans[top].start == t;
    var below := Candidates(scans, provider, scopeKey, top, t);
    assert other in below;
    next := LatestOf(scans, below);
    assert scans[next].start == t;
    var back := Candidates(scans, provider, scopeKey, next, t);
    assert top in back && back <= upto;
    assert IsLatest(scans, back, top);
    LatestIsUnique(scans, back, top, LatestOf(scans, back));
  }
}
