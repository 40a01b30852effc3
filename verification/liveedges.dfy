/** Live and observed relationships of one scan (internal/db/graph_store.go, internal/db/observations.go):
    when an edge that the scan writes to the live table is among its observed relationships. */
module LiveEdges {
  import opened Letters
  import opened Runes
  import opened Drift
  import opened ScanTables
  import opened SeenMaps
  import opened Separators
  import opened Wrappers
  import opened WriteLogs

  /** from is a named relationship of one of the resources. */
  ghost predicate Occurs(from: From, resources: seq<Option<Resource>>) {
    && Some(from.r) in resources
    && Some(from.rel) in from.r.relationships
    && Named(Some(from.rel))
  }

  // ---------------------------------------------------------------- what the store loops look at

  lemma {:induction false} RelItemsOccur(key: string, rels: seq<Option<Relationship>>, k: nat)
    requires k < |RelItems(key, rels)|
    ensures var item := RelItems(key, rels)[k];
      Some(item.value) in rels && Named(Some(item.value)) && item.key == RelKey(key, item.value)
  {
    var head := rels[..|rels| - 1];
    if k < |RelItems(key, head)| {
      RelItemsOccur(key, head, k);
    }
  }

  lemma {:induction false} RelItemsHave(key: string, rels: seq<Option<Relationship>>, rel: Relationship)
    requires Some(rel) in rels && Named(Some(rel))
    ensures Keyed(RelKey(key, rel), rel) in RelItems(key, rels)
  {
    var head := rels[..|rels| - 1];
    assert rels == head + [rels[|rels| - 1]];
    if rels[|rels| - 1] != Some(rel) {
      RelItemsHave(key, head, rel);
    }
  }

  lemma {:induction false} LiveItemsOccur(resources: seq<Option<Resource>>, options: Options, k: nat)
    requires k < |LiveItems(resources, options)|
    ensures Some(LiveItems(resources, options)[k].value) in resources
  {
    var head := resources[..|resources| - 1];
    if k < |LiveItems(head, options)| {
      LiveItemsOccur(head, options, k);
    }
  }

  lemma {:induction false} EdgeRowsOccur(stored: Subjects, k: nat)
    returns (r: Resource, rel: Relationship)
    requires k < |EdgeRows(stored)|
    ensures exists j :: 0 <= j < |stored| && stored[j].value == r
    ensures Some(rel) in r.relationships && Named(Some(rel)) && EdgeRows(stored)[k] == EdgeRow(r, rel)
  {
    var head, last := stored[..|stored| - 1], stored[|stored| - 1].value;
    if k < |EdgeRows(head)| {
      r, rel := EdgeRowsOccur(head, k);
      var j :| 0 <= j < |head| && head[j].value == r;
      assert stored[j].value == r;
    } else {
      r := last;
      var items := RelItems(r.id, r.relationships);
      var n := k - |EdgeRows(head)|;
      var i := KeptFrom({}, items, n);
      RelItemsOccur(r.id, r.relationships, i);
      rel := items[i].value;
      assert stored[|stored| - 1].value == r;
    }
  }

  lemma {:induction false} ObsEdgeItemsHave(resources: seq<Option<Resource>>, fallback: string, from: From)
    requires Occurs(from, resources) && Observable(Some(from.r))
    ensures FromItem(from.r, fallback, from.rel) in ObsEdgeItems(resources, fallback)
  {
    var head, last := resources[..|resources| - 1], resources[|resources| - 1];
    assert resources == head + [last];
    if last == Some(from.r) {
      var key := SubjectKey(from.r, fallback);
      RelItemsHave(key, from.r.relationships, from.rel);
      var items := RelItems(key, from.r.relationships);
      var k :| 0 <= k < |items| && items[k] == Keyed(RelKey(key, from.rel), from.rel);
      assert FromItems(from.r, fallback, from.r.relationships)[k] == FromItem(from.r, fallback, from.rel);
    } else {
      ObsEdgeItemsHave(head, fallback, from);
    }
  }

  lemma {:induction false} ObsEdgeItemsOccur(resources: seq<Option<Resource>>, fallback: string, k: nat)
    requires k < |ObsEdgeItems(resources, fallback)|
    ensures var item := ObsEdgeItems(resources, fallback)[k];
      && Occurs(item.value, resources) && Observable(Some(item.value.r))
      && item == FromItem(item.value.r, fallback, item.value.rel)
  {
    var head, last := resources[..|resources| - 1], resources[|resources| - 1];
    var before := ObsEdgeItems(head, fallback);
    if k < |before| {
      ObsEdgeItemsOccur(head, fallback, k);
    } else {
      RelItemsOccur(SubjectKey(last.value, fallback), last.value.relationships, k - |before|);
    }
  }

  /** Every edge written to the live table comes from a named relationship of a resource of the scan. */
  lemma LiveEdgeSource(resources: seq<Option<Resource>>, options: Options, edge: Edge) returns (from: From)
    requires edge in RowKeys(EdgeRows(Stored(resources, options)))
    ensures Occurs(from, resources) && edge == EdgeRow(from.r, from.rel).0
  {
    var stored := Stored(resources, options);
    var k :| 0 <= k < |EdgeRows(stored)| && EdgeRows(stored)[k].0 == edge;
    var r, rel := EdgeRowsOccur(stored, k);
    var j :| 0 <= j < |stored| && stored[j].value == r;
    var i := KeptFrom({}, LiveItems(resources, options), j);
    LiveItemsOccur(resources, options, i);
    from := From(r, rel);
  }

  predicate IsLive(from: From, resources: seq<Option<Resource>>, options: Options) {
    EdgeRow(from.r, from.rel).0 in RowKeys(EdgeRows(Stored(resources, options)))
  }

  // ---------------------------------------------------------------- which rows are observed

  /** The key that the observation loop joins from the columns of a row. */
  function JoinedKey(o: ObservedEdge): string {
    o.provider + "|" + o.fromId + "|" + o.toId + "|" + o.typ
  }

  function RowOf(from: From, scan: string, fallback: string): ObservedEdge {
    ObsEdgeRow(from, scan, fallback).0
  }

  lemma KeyOfRow(from: From, scan: string, fallback: string)
    ensures FromItem(from.r, fallback, from.rel).key == JoinedKey(RowOf(from, scan, fallback))
  {
  }

  /** The row that observes a live edge. */
  function Observed(scan: string, edge: Edge): ObservedEdge {
    ObservedEdge(scan, edge.provider, edge.fromId, edge.toId, edge.typ)
  }

  /** A new row is there exactly when a first item of its key has it. */
  lemma RowObservedExactly(before: map<ObservedEdge, string>, items: EdgeItems, scan: string, fallback: string,
      o: ObservedEdge)
    requires o !in before
    ensures o in ObservedEdges(before, items, scan, fallback) <==>
      exists i :: 0 <= i < |items| && IsFirst(items, i) && RowOf(items[i].value, scan, fallback) == o
  {
    var kept := FirstPerKey({}, items);
    var rows := ObsEdgeRows(kept, scan, fallback);
    UpsertKeys(before, rows);
    if o in RowKeys(rows) {
      var k :| 0 <= k < |rows| && rows[k].0 == o;
      var i := KeptFrom({}, items, k);
      assert IsFirst(items, i) && RowOf(items[i].value, scan, fallback) == o;
    }
    if i :| 0 <= i < |items| && IsFirst(items, i) && RowOf(items[i].value, scan, fallback) == o {
      KeptIsFirst({}, items, i);
      var k :| 0 <= k < |kept| && kept[k] == items[i];
      assert rows[k].0 == o;
    }
  }

  /** The observation files the resource under the provider that the live table uses. */
  predicate SameProvider(r: Resource, fallback: string) {
    TrimSpace(r.provider) == r.provider && (r.provider == "" ==> TrimSpace(fallback) == "")
  }

  /** For any resource q: if it is observed under r's live provider, r is so too, and exactly then r's
      provider is the same in both tables. */
  lemma SameProviderExactly(q: Resource, r: Resource, fallback: string)
    ensures ObservedProvider(r, fallback) == Lower(r.provider) <==> SameProvider(r, fallback)
    ensures ObservedProvider(q, fallback) == Lower(r.provider) ==> SameProvider(r, fallback)
  {
    var source := if Lower(TrimSpace(q.provider)) == "" then fallback else q.provider;
    ProviderIsTrimmed(source, r, fallback);
    var own := if Lower(TrimSpace(r.provider)) == "" then fallback else r.provider;
    ProviderIsTrimmed(own, r, fallback);
  }

  lemma ProviderIsTrimmed(source: string, r: Resource, fallback: string)
    requires Lower(TrimSpace(source)) == "" ==> TrimSpace(fallback) == ""
    ensures Lower(TrimSpace(source)) == Lower(r.provider) ==> SameProvider(r, fallback)
  {
    if Lower(TrimSpace(source)) == Lower(r.provider) {
      TrimSpaceTrims(source);
      var p := TrimSpace(source);
      assert p != "" ==> LowerChar(p[0]) == LowerChar(r.provider[0])
                         && LowerChar(p[|p| - 1]) == LowerChar(r.provider[|p| - 1]) by {
        assert p != "" ==> Lower(p)[0] == Lower(r.provider)[0] && Lower(p)[|p| - 1] == Lower(r.provider)[|p| - 1];
      }
      TrimmedStays(r.provider);
    }
  }

  /** The first relationship the scan observes under from's joined key is another edge. */
  ghost predicate Shadowed(from: From, resources: seq<Option<Resource>>, scan: string, fallback: string) {
    var items := ObsEdgeItems(resources, fallback);
    exists i :: 0 <= i < |items| && IsFirst(items, i) && items[i].key == FromItem(from.r, fallback, from.rel).key
      && RowOf(items[i].value, scan, fallback) != RowOf(from, scan, fallback)
  }

  /** What it takes for from's live edge to be observed: an ID that is not blank, a provider that both
      tables spell alike, and no other edge before it under the same joined key. */
  ghost predicate Traced(from: From, resources: seq<Option<Resource>>, scan: string, fallback: string) {
    && TrimSpace(from.r.id) != ""
    && SameProvider(from.r, fallback)
    && !Shadowed(from, resources, scan, fallback)
  }

  /** An edge that a relationship of the scan writes to the live table is among the scan's observed
      relationships exactly when the relationship is traced. */
  lemma EdgeObservedExactly(t: Tables, resources: seq<Option<Resource>>, options: Options, m: Metadata, from: From)
    requires Occurs(from, resources) && forall e :: e in t.observedEdges ==> e.scan != m.id
    ensures Observed(m.id, EdgeRow(from.r, from.rel).0) in Persisted(t, resources, options, m).observedEdges
       <==> Traced(from, resources, m.id, m.provider)
  {
    var items := ObsEdgeItems(resources, m.provider);
    var o := Observed(m.id, EdgeRow(from.r, from.rel).0);
    RowObservedExactly(t.observedEdges, items, m.id, m.provider, o);
    if Traced(from, resources, m.id, m.provider) {
      TracedIsObserved(resources, m, from);
    }
    if i :| 0 <= i < |items| && IsFirst(items, i) && RowOf(items[i].value, m.id, m.provider) == o {
      ObservedIsTraced(resources, m, from, i);
    }
  }

  lemma TracedIsObserved(resources: seq<Option<Resource>>, m: Metadata, from: From)
    requires Occurs(from, resources) && Traced(from, resources, m.id, m.provider)
    ensures var items := ObsEdgeItems(resources, m.provider);
      exists i :: 0 <= i < |items| && IsFirst(items, i)
        && RowOf(items[i].value, m.id, m.provider) == Observed(m.id, EdgeRow(from.r, from.rel).0)
  {
    var items, item := ObsEdgeItems(resources, m.provider), FromItem(from.r, m.provider, from.rel);
    ObsEdgeItemsHave(resources, m.provider, from);
    var at :| 0 <= at < |items| && items[at] == item;
    var first := FirstOf(items, at);
    SameProviderExactly(from.r, from.r, m.provider);
    assert RowOf(items[first].value, m.id, m.provider) == RowOf(from, m.id, m.provider);
  }

  lemma ObservedIsTraced(resources: seq<Option<Resource>>, m: Metadata, from: From, i: nat)
    requires Occurs(from, resources) && i < |ObsEdgeItems(resources, m.provider)|
    requires IsFirst(ObsEdgeItems(resources, m.provider), i)
    requires RowOf(ObsEdgeItems(resources, m.provider)[i].value, m.id, m.provider)
          == Observed(m.id, EdgeRow(from.r, from.rel).0)
    ensures Traced(from, resources, m.id, m.provider)
  {
    var items := ObsEdgeItems(resources, m.provider);
    var x := items[i].value;
    ObsEdgeItemsOccur(resources, m.provider, i);
    SameProviderExactly(x.r, from.r, m.provider);
    assert RowOf(from, m.id, m.provider) == RowOf(x, m.id, m.provider);
    KeyOfRow(from, m.id, m.provider);
    KeyOfRow(x, m.id, m.provider);
    forall j | 0 <= j < |items| && IsFirst(items, j) && items[j].key == FromItem(from.r, m.provider, from.rel).key
      ensures j == i
    {
      assert items[j].key == items[i].key;
    }
  }

  /** Every edge that a scan with a fresh ID writes to the live relationship table is also among that
      scan's observed relationships exactly when all relationships behind these edges are traced. */
  lemma EveryLiveEdgeIsObserved(t: Tables, resources: seq<Option<Resource>>, options: Options, m: Metadata)
    requires forall e :: e in t.observedEdges ==> e.scan != m.id
    ensures (forall edge :: edge in RowKeys(EdgeRows(Stored(resources, options))) ==>
               Observed(m.id, edge) in Persisted(t, resources, options, m).observedEdges)
       <==> (forall from :: Occurs(from, resources) && IsLive(from, resources, options) ==>
               Traced(from, resources, m.id, m.provider))
  {
    var live := RowKeys(EdgeRows(Stored(resources, options)));
    forall from | Occurs(from, resources)
      ensures Observed(m.id, EdgeRow(from.r, from.rel).0) in Persisted(t, resources, options, m).observedEdges
         <==> Traced(from, resources, m.id, m.provider)
    {
      EdgeObservedExactly(t, resources, options, m, from);
    }
    forall edge | edge in live ensures exists from :: Occurs(from, resources) && edge == EdgeRow(from.r, from.rel).0 {
      var from := LiveEdgeSource(resources, options, edge);
    }
  }

  // ---------------------------------------------------------------- resources for which it always holds

  /** A non-blank, bar-free ID, and a trimmed, bar-free provider (in any case) that is not blank. */
  predicate Canonical(r: Resource) {
    && TrimSpace(r.id) != "" && '|' !in r.id
    && TrimSpace(r.provider) == r.provider != "" && '|' !in r.provider
    && forall i :: 0 <= i < |r.relationships| && Named(r.relationships[i]) ==>
         '|' !in r.relationships[i].value.targetId
  }

  predicate AllCanonical(resources: seq<Option<Resource>>) {
    forall i :: 0 <= i < |resources| && resources[i].Some? ==> Canonical(resources[i].value)
  }

  /** For canonical resources the joined key determines the observed edge. */
  lemma KeyIsEdge(a: From, b: From, scan: string, fallback: string, resources: seq<Option<Resource>>)
    requires AllCanonical(resources) && Occurs(a, resources) && Occurs(b, resources)
    requires FromItem(a.r, fallback, a.rel).key == FromItem(b.r, fallback, b.rel).key
    ensures RowOf(a, scan, fallback) == RowOf(b, scan, fallback)
  {
    assert Canonical(a.r) && Canonical(b.r);
    var pa, pb := ObservedProvider(a.r, fallback), ObservedProvider(b.r, fallback);
    SameProviderExactly(a.r, a.r, fallback);
    SameProviderExactly(b.r, b.r, fallback);
    LowerKeeps('|', a.r.provider);
    LowerKeeps('|', b.r.provider);
    assert '|' !in a.rel.targetId && '|' !in b.rel.targetId;
    FourFields(pa, a.r.id, a.rel.targetId, a.rel.typ, pb, b.r.id, b.rel.targetId, b.rel.typ);
  }

  /** Four joined fields of which only the last may hold a bar are told apart. */
  lemma FourFields(a: string, b: string, c: string, d: string, e: string, f: string, g: string, h: string)
    requires '|' !in a && '|' !in b && '|' !in c && '|' !in e && '|' !in f && '|' !in g
    requires a + "|" + b + "|" + c + "|" + d == e + "|" + f + "|" + g + "|" + h
    ensures a == e && b == f && c == g && d == h
  {
    Regroup(a, b, c, d);
    Regroup(e, f, g, h);
    CutAtFirst('|', a, b + "|" + (c + "|" + d), e, f + "|" + (g + "|" + h));
    CutAtFirst('|', b, c + "|" + d, f, g + "|" + h);
    CutAtFirst('|', c, d, g, h);
  }

  lemma Regroup(a: string, b: string, c: string, d: string)
    ensures a + "|" + b + "|" + c + "|" + d == a + "|" + (b + "|" + (c + "|" + d))
  {
  }

  /** A scan of canonical resources has all its live edges observed. */
  lemma CanonicalEdgesAreObserved(t: Tables, resources: seq<Option<Resource>>, options: Options, m: Metadata,
      edge: Edge)
    requires AllCanonical(resources) && forall e :: e in t.observedEdges ==> e.scan != m.id
    requires edge in RowKeys(EdgeRows(Stored(resources, options)))
    ensures Observed(m.id, edge) in Persisted(t, resources, options, m).observedEdges
  {
    var from := LiveEdgeSource(resources, options, edge);
    assert Canonical(from.r);
    var items := ObsEdgeItems(resources, m.provider);
    forall i | 0 <= i < |items| && items[i].key == FromItem(from.r, m.provider, from.rel).key
      ensures RowOf(items[i].value, m.id, m.provider) == RowOf(from, m.id, m.provider)
    {
      ObsEdgeItemsOccur(resources, m.provider, i);
      KeyIsEdge(items[i].value, from, m.id, m.provider, resources);
    }
    EdgeObservedExactly(t, resources, options, m, from);
  }

  // ---------------------------------------------------------------- a scan that loses an edge

  /** The second of two resources with one relationship each is live. */
  lemma SecondIsLive(a: Resource, b: Resource, options: Options)
    requires LiveItem(a, options).key != LiveItem(b, options).key
    requires |b.relationships| == 1 && Named(b.relationships[0])
    ensures EdgeRow(b, b.relationships[0].value).0 in RowKeys(EdgeRows(Stored([Some(a), Some(b)], options)))
  {
    var items := LiveItems([Some(a), Some(b)], options);
    assert [Some(a), Some(b)][..1] == [Some(a)] && [Some(a)][..0] == [];
    assert LiveItems([Some(a)], options) == [LiveItem(a, options)];
    assert items == [LiveItem(a, options), LiveItem(b, options)];
    KeptIsFirst({}, items, 1);
    StoredEdge(FirstPerKey({}, items), b);
  }

  lemma {:induction false} StoredEdge(stored: Subjects, r: Resource)
    requires exists i :: 0 <= i < |stored| && stored[i].value == r
    requires |r.relationships| == 1 && Named(r.relationships[0])
    ensures EdgeRow(r, r.relationships[0].value).0 in RowKeys(EdgeRows(stored))
  {
    var head, last := stored[..|stored| - 1], stored[|stored| - 1].value;
    var before, edge := EdgeRows(head), EdgeRow(r, r.relationships[0].value);
    if last == r {
      OnlyEdge(r);
      assert EdgeRows(stored)[|before|].0 == edge.0;
    } else {
      var i :| 0 <= i < |stored| && stored[i].value == r;
      assert head[i].value == r;
      StoredEdge(head, r);
      var j :| 0 <= j < |before| && before[j].0 == edge.0;
      assert EdgeRows(stored)[j].0 == edge.0;
    }
  }

  lemma OnlyEdge(r: Resource)
    requires |r.relationships| == 1 && Named(r.relationships[0])
    ensures EdgeRowsOf(r, FirstPerKey({}, RelItems(r.id, r.relationships))) == [EdgeRow(r, r.relationships[0].value)]
  {
    RelItemsStep(r.id, r.relationships, 0);
    assert r.relationships[..1] == r.relationships && r.relationships[..0] == [];
    var item := Keyed(RelKey(r.id, r.relationships[0].value), r.relationships[0].value);
    assert RelItems(r.id, r.relationships) == [item] && [item][1..] == [];
  }

  /** The first of them comes first among the observed relationships. */
  lemma FirstItem(a: Resource, b: Resource, fallback: string)
    requires Observable(Some(a)) && |a.relationships| == 1 && Named(a.relationships[0])
    ensures var items := ObsEdgeItems([Some(a), Some(b)], fallback);
      |items| > 0 && items[0] == FromItem(a, fallback, a.relationships[0].value)
  {
    var resources := [Some(a), Some(b)];
    assert resources[..1] == [Some(a)] && [Some(a)][..0] == [];
    assert a.relationships[..0] == [];
    assert RelItems(SubjectKey(a, fallback), a.relationships[..0]) == [];
    assert ObsEdgeItems([Some(a)], fallback) == FromItems(a, fallback, a.relationships);
  }

  /** Two resources of one provider with IDs that are not blank: a|b's edge to c is joined to the same
      key as a's edge to b of type "c|d". Scanned in this order, the second edge is written to the
      live table and is missing from the observed relationships. */
  lemma CollidingEdgeIsLost(t: Tables, options: Options, m: Metadata, a: Resource, b: Resource)
    requires a == Resource("p", "a", "", "", [Some(Relationship("b", "c|d", ""))])
    requires b == Resource("p", "a|b", "", "", [Some(Relationship("c", "d", ""))])
    requires forall e :: e in t.observedEdges ==> e.scan != m.id
    ensures var edge := EdgeRow(b, b.relationships[0].value).0;
      && edge in RowKeys(EdgeRows(Stored([Some(a), Some(b)], options)))
      && Observed(m.id, edge) !in Persisted(t, [Some(a), Some(b)], options, m).observedEdges
  {
    var resources, from := [Some(a), Some(b)], From(b, b.relationships[0].value);
    LongerIdIsAnotherKey(a, b, options);
    SecondIsLive(a, b, options);
    NotBlank();
    FirstItem(a, b, m.provider);
    SameKeys(a, b, m.provider);
    var items := ObsEdgeItems(resources, m.provider);
    assert IsFirst(items, 0) && RowOf(items[0].value, m.id, m.provider).fromId == "a";
    assert Shadowed(from, resources, m.id, m.provider);
    assert Some(b) in resources && Some(from.rel) in b.relationships;
    EdgeObservedExactly(t, resources, options, m, from);
  }

  lemma LongerIdIsAnotherKey(a: Resource, b: Resource, options: Options)
    requires a.provider == b.provider && |a.id| < |b.id|
    ensures LiveItem(a, options).key != LiveItem(b, options).key
  {
    assert |LiveItem(a, options).key| < |LiveItem(b, options).key|;
  }

  lemma SameKeys(a: Resource, b: Resource, fallback: string)
    requires a.provider == b.provider && a.id == "a" && b.id == "a|b"
    requires a.relationships == [Some(Relationship("b", "c|d", ""))]
    requires b.relationships == [Some(Relationship("c", "d", ""))]
    ensures FromItem(a, fallback, a.relationships[0].value).key == FromItem(b, fallback, b.relationships[0].value).key
  {
    var p := ObservedProvider(a, fallback);
    assert FromItem(a, fallback, a.relationships[0].value).key == p + "|a|b|c|d";
    assert FromItem(b, fallback, b.relationships[0].value).key == p + "|a|b|c|d";
  }

  lemma NotBlank()
    ensures TrimSpace("a") == "a" && TrimSpace("a|b") == "a|b"
  {
    TrimmedStays("a");
    TrimmedStays("a|b");
  }
}
