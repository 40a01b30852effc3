/** What persisting one scan writes (internal/db/graph_store.go, internal/db/observations.go): live
    resources and relationships, the scan's observations, and its metadata with drift counters.
    Tables are maps from primary keys to the other columns. */
module ScanTables {
  import opened Letters
  import opened Runes
  import opened Drift
  import opened SeenMaps
  import opened Wrappers
  import opened WriteLogs

  datatype Relationship = Relationship(targetId: string, typ: string, properties: string)

  /** hash stands for resourceSemanticHash of the resource. */
  datatype Resource = Resource(
    provider: string, id: string, content: string, hash: string, relationships: seq<Option<Relationship>>)

  datatype LiveKey = LiveKey(table: string, provider: string, id: string)

  datatype Edge = Edge(fromId: string, toId: string, typ: string, provider: string)

  datatype ObservedEdge = ObservedEdge(scan: string, provider: string, fromId: string, toId: string, typ: string)

  /** What the store loops look at, under the keys of their seen maps. */
  type Subjects = seq<Keyed<string, Resource>>
  type RelItemList = seq<Keyed<string, Relationship>>
  type EdgeItems = seq<Keyed<string, From>>

  datatype Tables = Tables(
    live: map<LiveKey, string>,
    edges: map<Edge, string>,
    observations: map<ObsKey, string>,
    observedEdges: map<ObservedEdge, string>,
    scans: map<string, ScanRow>)

  // ---------------------------------------------------------------- what a scan writes

  /** The provider catalog: shipped providers with their tables, and the table for all others. */
  datatype Catalog = Catalog(official: map<string, string>, custom: string)

  datatype Options = Options(tableOverride: string, catalog: Catalog)

  /** scanResourceTable; None is its error. */
  function ResourceTable(provider: string, options: Options): Option<string> {
    var table, catalog := TrimSpace(options.tableOverride), options.catalog;
    var name := Lower(TrimSpace(provider));
    if table != "" then (if table == catalog.custom || table in catalog.official.Values then Some(table) else None)
    else if name in catalog.official then Some(catalog.official[name])
    else if name == "" then None
    else Some(catalog.custom)
  }

  predicate Selectable(r: Option<Resource>, options: Options) {
    r.Some? ==> ResourceTable(r.value.provider, options).Some?
  }

  function TableName(r: Resource, options: Options): string {
    var table := ResourceTable(r.provider, options);
    if table.Some? then table.value else ""
  }

  /** Storing the resource gives no error of its own. */
  predicate Storable(r: Resource, options: Options) {
    ResourceTable(r.provider, options) == Some(options.catalog.custom) ==> TrimSpace(r.provider) != ""
  }

  /** The official tables are keyed by id alone. */
  function LiveKeyOf(r: Resource, options: Options): LiveKey {
    var table := TableName(r, options);
    LiveKey(table, if table == options.catalog.custom then r.provider else "", r.id)
  }

  function LiveItem(r: Resource, options: Options): Keyed<string, Resource> {
    Keyed(TableName(r, options) + "|" + r.provider + "|" + r.id, r)
  }

  function LiveItems(resources: seq<Option<Resource>>, options: Options): Subjects {
    if resources == [] then []
    else
      var head, last := LiveItems(resources[..|resources| - 1], options), resources[|resources| - 1];
      if last.None? then head else head + [LiveItem(last.value, options)]
  }

  /** The resources a scan stores, each once. */
  function Stored(resources: seq<Option<Resource>>, options: Options): Subjects {
    FirstPerKey({}, LiveItems(resources, options))
  }

  predicate AllStorable(stored: Subjects, options: Options) {
    forall k :: 0 <= k < |stored| ==> Storable(stored[k].value, options)
  }

  /** Every resource of a scan has a table, and those that are stored can be. */
  predicate Accepted(resources: seq<Option<Resource>>, options: Options) {
    && (forall i :: 0 <= i < |resources| ==> Selectable(resources[i], options))
    && AllStorable(Stored(resources, options), options)
  }

  lemma StoredStep(resources: seq<Option<Resource>>, i: nat, options: Options)
    requires i < |resources|
    ensures resources[i].None? ==> LiveItems(resources[..i + 1], options) == LiveItems(resources[..i], options)
    ensures resources[i].Some? ==>
      var item, seen := LiveItem(resources[i].value, options), KeySet(LiveItems(resources[..i], options));
      && LiveItems(resources[..i + 1], options) == LiveItems(resources[..i], options) + [item]
      && KeySet(LiveItems(resources[..i + 1], options)) == seen + {item.key}
      && Stored(resources[..i + 1], options)
         == if item.key in seen then Stored(resources[..i], options) else Stored(resources[..i], options) + [item]
  {
    assert resources[..i + 1][..i] == resources[..i];
    if resources[i].Some? {
      FirstPerKeyStep(LiveItems(resources[..i], options), LiveItem(resources[i].value, options));
    }
  }

  lemma AcceptedStep(resources: seq<Option<Resource>>, i: nat, options: Options)
    requires i < |resources| && Accepted(resources[..i], options)
    ensures Accepted(resources[..i + 1], options) <==>
      && Selectable(resources[i], options)
      && (resources[i].Some?
          && LiveItem(resources[i].value, options).key !in KeySet(LiveItems(resources[..i], options)) ==>
            Storable(resources[i].value, options))
  {
    StoredStep(resources, i, options);
    if resources[i].Some? {
      StorableStep(Stored(resources[..i], options), LiveItem(resources[i].value, options), options);
    }
    var before, now := resources[..i], resources[..i + 1];
    assert forall j :: 0 <= j <= i ==> now[j] == if j < i then before[j] else resources[i];
  }

  lemma StorableStep(stored: Subjects, item: Keyed<string, Resource>, options: Options)
    ensures AllStorable(stored + [item], options) <==> AllStorable(stored, options) && Storable(item.value, options)
  {
    var more := stored + [item];
    forall k | 0 <= k < |stored| ensures more[k] == stored[k] {
    }
    assert more[|stored|] == item;
    if AllStorable(more, options) {
      forall k | 0 <= k < |stored| ensures Storable(stored[k].value, options) {
        assert more[k] == stored[k];
      }
    }
  }

  lemma {:induction false} StoredGrows(resources: seq<Option<Resource>>, n: nat, options: Options)
    requires n <= |resources|
    ensures Stored(resources[..n], options) <= Stored(resources, options)
    decreases |resources| - n
  {
    if n == |resources| {
      assert resources[..n] == resources;
    } else {
      StoredStep(resources, n, options);
      StoredGrows(resources, n + 1, options);
    }
  }

  /** A kept resource that cannot be stored fails the scan, whatever follows it. */
  lemma RejectedStays(resources: seq<Option<Resource>>, i: nat, options: Options)
    requires i < |resources| && resources[i].Some? && !Storable(resources[i].value, options)
    requires LiveItem(resources[i].value, options).key !in KeySet(LiveItems(resources[..i], options))
    ensures !Accepted(resources, options)
  {
    StoredStep(resources, i, options);
    StoredGrows(resources, i + 1, options);
    var k := |Stored(resources[..i], options)|;
    assert Stored(resources, options)[k] == Stored(resources[..i + 1], options)[k];
  }

  predicate Named(rel: Option<Relationship>) {
    rel.Some? && rel.value.targetId != "" && rel.value.typ != ""
  }

  /** The relationships a store loop looks at, with its key for each. */
  function RelItems(key: string, rels: seq<Option<Relationship>>): RelItemList {
    if rels == [] then []
    else
      var head, last := RelItems(key, rels[..|rels| - 1]), rels[|rels| - 1];
      if !Named(last) then head
      else head + [Keyed(RelKey(key, last.value), last.value)]
  }

  function RelKey(key: string, rel: Relationship): string {
    key + "|" + rel.targetId + "|" + rel.typ
  }

  function EdgeRow(r: Resource, rel: Relationship): (Edge, string) {
    (Edge(r.id, rel.targetId, rel.typ, Lower(r.provider)), rel.properties)
  }

  function EdgeRowsOf(r: Resource, kept: RelItemList): seq<(Edge, string)> {
    seq(|kept|, i requires 0 <= i < |kept| => EdgeRow(r, kept[i].value))
  }

  /** The edges after the first n relationships of a resource have been looked at. */
  function EdgesAfter(before: map<Edge, string>, r: Resource, n: nat): map<Edge, string>
    requires n <= |r.relationships|
  {
    Upsert(before, EdgeRowsOf(r, FirstPerKey({}, RelItems(r.id, r.relationships[..n]))))
  }

  lemma RelItemsStep(key: string, rels: seq<Option<Relationship>>, n: nat)
    requires n < |rels|
    ensures RelItems(key, rels[..n + 1])
         == if Named(rels[n]) then RelItems(key, rels[..n]) + [Keyed(RelKey(key, rels[n].value), rels[n].value)]
            else RelItems(key, rels[..n])
  {
    assert rels[..n + 1][..n] == rels[..n];
  }

  lemma EdgesStep(before: map<Edge, string>, r: Resource, n: nat)
    requires n < |r.relationships|
    ensures var rel := r.relationships[n];
      var items := RelItems(r.id, r.relationships[..n]);
      if !Named(rel) then
        RelItems(r.id, r.relationships[..n + 1]) == items && EdgesAfter(before, r, n + 1) == EdgesAfter(before, r, n)
      else
        && KeySet(RelItems(r.id, r.relationships[..n + 1])) == KeySet(items) + {RelKey(r.id, rel.value)}
        && EdgesAfter(before, r, n + 1)
           == if RelKey(r.id, rel.value) in KeySet(items) then EdgesAfter(before, r, n)
              else EdgesAfter(before, r, n)[EdgeRow(r, rel.value).0 := EdgeRow(r, rel.value).1]
  {
    RelItemsStep(r.id, r.relationships, n);
    if Named(r.relationships[n]) {
      var rel := r.relationships[n].value;
      EdgesGrow(before, r, RelItems(r.id, r.relationships[..n]), Keyed(RelKey(r.id, rel), rel));
    }
  }

  lemma EdgesGrow(before: map<Edge, string>, r: Resource, items: RelItemList, item: Keyed<string, Relationship>)
    ensures KeySet(items + [item]) == KeySet(items) + {item.key}
    ensures Upsert(before, EdgeRowsOf(r, FirstPerKey({}, items + [item])))
         == if item.key in KeySet(items) then Upsert(before, EdgeRowsOf(r, FirstPerKey({}, items)))
            else Upsert(before, EdgeRowsOf(r, FirstPerKey({}, items)))
                 [EdgeRow(r, item.value).0 := EdgeRow(r, item.value).1]
  {
    FirstPerKeyStep(items, item);
    var kept, row := FirstPerKey({}, items), EdgeRow(r, item.value);
    UpsertOne(before, EdgeRowsOf(r, kept), row.0, row.1);
    assert EdgeRowsOf(r, kept + [item]) == EdgeRowsOf(r, kept) + [row];
  }

  function LiveRows(stored: Subjects, options: Options): seq<(LiveKey, string)> {
    seq(|stored|, i requires 0 <= i < |stored| => (LiveKeyOf(stored[i].value, options), stored[i].value.content))
  }

  function EdgeRows(stored: Subjects): seq<(Edge, string)> {
    if stored == [] then []
    else
      var r := stored[|stored| - 1].value;
      EdgeRows(stored[..|stored| - 1]) + EdgeRowsOf(r, FirstPerKey({}, RelItems(r.id, r.relationships)))
  }

  function AfterStoring(t: Tables, stored: Subjects, options: Options): Tables {
    t.(live := Upsert(t.live, LiveRows(stored, options)), edges := Upsert(t.edges, EdgeRows(stored)))
  }

  lemma StoredMore(t: Tables, stored: Subjects, item: Keyed<string, Resource>, options: Options)
    ensures var r, sofar := item.value, AfterStoring(t, stored, options);
      AfterStoring(t, stored + [item], options) == sofar.(
        live := sofar.live[LiveKeyOf(r, options) := r.content],
        edges := Upsert(sofar.edges, EdgeRowsOf(r, FirstPerKey({}, RelItems(r.id, r.relationships)))))
  {
    var r, more := item.value, stored + [item];
    UpsertOne(t.live, LiveRows(stored, options), LiveKeyOf(r, options), r.content);
    assert LiveRows(more, options) == LiveRows(stored, options) + [(LiveKeyOf(r, options), r.content)];
    assert more[..|stored|] == stored;
    UpsertAppend(t.edges, EdgeRows(stored), EdgeRowsOf(r, FirstPerKey({}, RelItems(r.id, r.relationships))));
  }

  /** The provider an observation is filed under. */
  function ObservedProvider(r: Resource, fallback: string): string {
    var provider := Lower(TrimSpace(r.provider));
    if provider == "" then Lower(TrimSpace(fallback)) else provider
  }

  predicate Observable(r: Option<Resource>) {
    r.Some? && TrimSpace(r.value.id) != ""
  }

  function SubjectKey(r: Resource, fallback: string): string {
    ObservedProvider(r, fallback) + "|" + r.id
  }

  function ObsItems(resources: seq<Option<Resource>>, fallback: string): Subjects {
    if resources == [] then []
    else
      var head, last := ObsItems(resources[..|resources| - 1], fallback), resources[|resources| - 1];
      if !Observable(last) then head else head + [Keyed(SubjectKey(last.value, fallback), last.value)]
  }

  function ObsRows(kept: Subjects, scan: string, fallback: string): seq<(ObsKey, string)> {
    seq(|kept|, i requires 0 <= i < |kept| => (ObsKeyOf(kept[i].value, scan, fallback), kept[i].value.hash))
  }

  function ObsKeyOf(r: Resource, scan: string, fallback: string): ObsKey {
    ObsKey(scan, ObservedProvider(r, fallback), r.id)
  }

  /** The observations after a scan's items have been looked at. */
  function Observations(before: map<ObsKey, string>, items: Subjects, scan: string, fallback: string)
    : map<ObsKey, string>
  {
    Upsert(before, ObsRows(FirstPerKey({}, items), scan, fallback))
  }

  lemma ObservationsStep(before: map<ObsKey, string>, items: Subjects, r: Resource, scan: string, fallback: string)
    ensures var item := Keyed(SubjectKey(r, fallback), r);
      && KeySet(items + [item]) == KeySet(items) + {item.key}
      && Observations(before, items + [item], scan, fallback)
         == if item.key in KeySet(items) then Observations(before, items, scan, fallback)
            else Observations(before, items, scan, fallback)[ObsKeyOf(r, scan, fallback) := r.hash]
  {
    var item := Keyed(SubjectKey(r, fallback), r);
    FirstPerKeyStep(items, item);
    var kept, row := FirstPerKey({}, items), (ObsKeyOf(r, scan, fallback), r.hash);
    UpsertOne(before, ObsRows(kept, scan, fallback), row.0, row.1);
    assert ObsRows(kept + [item], scan, fallback) == ObsRows(kept, scan, fallback) + [row];
  }

  /** A relationship together with the resource it comes from. */
  datatype From = From(r: Resource, rel: Relationship)

  function FromItems(r: Resource, fallback: string, rels: seq<Option<Relationship>>): EdgeItems {
    var items := RelItems(SubjectKey(r, fallback), rels);
    seq(|items|, i requires 0 <= i < |items| => Keyed(items[i].key, From(r, items[i].value)))
  }

  function FromItem(r: Resource, fallback: string, rel: Relationship): Keyed<string, From> {
    Keyed(RelKey(SubjectKey(r, fallback), rel), From(r, rel))
  }

  lemma FromItemsStep(r: Resource, fallback: string, i: nat)
    requires i < |r.relationships|
    ensures FromItems(r, fallback, r.relationships[..i + 1])
         == if Named(r.relationships[i]) then
              FromItems(r, fallback, r.relationships[..i]) + [FromItem(r, fallback, r.relationships[i].value)]
            else FromItems(r, fallback, r.relationships[..i])
  {
    assert r.relationships[..i + 1][..i] == r.relationships[..i];
  }

  function ObsEdgeItems(resources: seq<Option<Resource>>, fallback: string): EdgeItems {
    if resources == [] then []
    else
      var head, last := ObsEdgeItems(resources[..|resources| - 1], fallback), resources[|resources| - 1];
      if !Observable(last) then head else head + FromItems(last.value, fallback, last.value.relationships)
  }

  function ObsEdgeRow(from: From, scan: string, fallback: string): (ObservedEdge, string) {
    (ObservedEdge(scan, ObservedProvider(from.r, fallback), from.r.id, from.rel.targetId, from.rel.typ),
     from.rel.properties)
  }

  function ObsEdgeRows(kept: EdgeItems, scan: string, fallback: string): seq<(ObservedEdge, string)> {
    seq(|kept|, i requires 0 <= i < |kept| => ObsEdgeRow(kept[i].value, scan, fallback))
  }

  /** The observed edges after a scan's relationship items have been looked at. */
  function ObservedEdges(before: map<ObservedEdge, string>, items: EdgeItems, scan: string, fallback: string)
    : map<ObservedEdge, string>
  {
    Upsert(before, ObsEdgeRows(FirstPerKey({}, items), scan, fallback))
  }

  lemma ObservedEdgesStep(before: map<ObservedEdge, string>, items: EdgeItems, item: Keyed<string, From>,
      scan: string, fallback: string)
    ensures KeySet(items + [item]) == KeySet(items) + {item.key}
    ensures ObservedEdges(before, items + [item], scan, fallback)
         == if item.key in KeySet(items) then ObservedEdges(before, items, scan, fallback)
            else ObservedEdges(before, items, scan, fallback)
                 [ObsEdgeRow(item.value, scan, fallback).0 := item.value.rel.properties]
  {
    FirstPerKeyStep(items, item);
    var kept, row := FirstPerKey({}, items), ObsEdgeRow(item.value, scan, fallback);
    UpsertOne(before, ObsEdgeRows(kept, scan, fallback), row.0, row.1);
    assert ObsEdgeRows(kept + [item], scan, fallback) == ObsEdgeRows(kept, scan, fallback) + [row];
  }

  /** The items before a resource and those of its first n relationships. */
  function FromUpTo(before: EdgeItems, r: Resource, fallback: string, n: nat): EdgeItems
    requires n <= |r.relationships|
  {
    before + FromItems(r, fallback, r.relationships[..n])
  }

  lemma FromUpToStep(start: map<ObservedEdge, string>, before: EdgeItems, r: Resource, scan: string,
      fallback: string, n: nat)
    requires n < |r.relationships|
    ensures var items, more := FromUpTo(before, r, fallback, n), FromUpTo(before, r, fallback, n + 1);
      if !Named(r.relationships[n]) then more == items
      else
        var item := FromItem(r, fallback, r.relationships[n].value);
        && KeySet(more) == KeySet(items) + {item.key}
        && ObservedEdges(start, more, scan, fallback)
           == if item.key in KeySet(items) then ObservedEdges(start, items, scan, fallback)
              else ObservedEdges(start, items, scan, fallback)
                   [ObsEdgeRow(item.value, scan, fallback).0 := item.value.rel.properties]
  {
    FromItemsStep(r, fallback, n);
    if Named(r.relationships[n]) {
      var items, item := FromUpTo(before, r, fallback, n), FromItem(r, fallback, r.relationships[n].value);
      assert FromUpTo(before, r, fallback, n + 1) == items + [item];
      ObservedEdgesStep(start, items, item, scan, fallback);
    }
  }

  datatype Metadata = Metadata(
    id: string, provider: string, status: string, scopeKey: string, complete: bool, start: int, total: int)

  /** The row that storeScanOutcomeMetadata inserts; on a conflict the old counters stay. */
  function MetadataRow(scans: Scans, m: Metadata): ScanRow {
    var kept := if m.id in scans then scans[m.id] else ScanRow("", "", "", false, 0, 0, 0, 0, 0);
    ScanRow(if m.provider == "" then "unknown" else m.provider, m.scopeKey,
            if m.status == "" then "completed" else m.status, m.complete, m.start, m.total,
            kept.created, kept.updated, kept.deleted)
  }

  /** The scan table after the metadata is stored: the row, with counters if the scan is complete. */
  ghost function ScansAfter(scans: Scans, observations: map<ObsKey, string>, m: Metadata): Scans {
    var row := MetadataRow(scans, m);
    var stored := scans[m.id := row];
    if !m.complete then stored
    else
      var previous := Previous(stored, row.provider, m.scopeKey, m.id, m.start);
      var prior := if previous.None? then map[] else Snapshot(observations, previous.value);
      var current := Snapshot(observations, m.id);
      stored[m.id := row.(
        created := |Created(prior, current)|,
        updated := |Updated(prior, current)|,
        deleted := |Deleted(prior, current)|)]
  }

  function AfterObserving(t: Tables, resources: seq<Option<Resource>>, m: Metadata): Tables {
    t.(observations := Observations(t.observations, ObsItems(resources, m.provider), m.id, m.provider),
       observedEdges := ObservedEdges(t.observedEdges, ObsEdgeItems(resources, m.provider), m.id, m.provider))
  }

  /** The tables after a scan is persisted without failure. */
  ghost function Persisted(t: Tables, resources: seq<Option<Resource>>, options: Options, m: Metadata): Tables {
    var observed := AfterObserving(AfterStoring(t, Stored(resources, options), options), resources, m);
    observed.(scans := ScansAfter(t.scans, observed.observations, m))
  }
}
