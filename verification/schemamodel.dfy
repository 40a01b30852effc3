/** What the schema lifecycle (internal/db/schema_lifecycle.go) works on: the database, what the
    binary ships, and what the statements of a migration do to tables, views and rows. */
module SchemaModel {
  import opened Letters
  import opened Wrappers

  /** Columns that the migration of legacy rows depends on. */
  datatype Column = Id | FromId | ToId | RelType | Properties | Provider | ScanTime | Other(text: string)

  /** The cells of a row that are not NULL. Where a copying statement casts a column to JSON the cell
      is what try_cast gives. */
  type Row = map<Column, string>

  datatype Object =
    | Base(columns: set<Column>, rows: seq<Row>, indexes: set<string>)
    | View(provider: string)  // the edges of one provider
    | OtherView               // any view that a version defines

  datatype Kind = Absent | Table | Viewed

  /** Names of tables and views: Relationships(p) is p_relationships, Archive(t) is t_legacy_v0. */
  datatype Name = Plain(text: string) | Relationships(provider: string) | Archive(table: Name)

  type Objects = map<Name, Object>

  datatype Edge = Edge(fromId: string, toId: string, typ: string, provider: string)

  type Edges = map<Edge, Option<string>>

  /** The database: its ledger of applied versions with their names in the order of insertion, its
      tables and views by name, the rows of cloud_relationships and of scan_metadata by primary
      key, and its macros. */
  datatype Database = Database(
    ledger: seq<(int, string)>,
    objects: Objects,
    edges: Edges,
    scans: set<string>,
    macros: map<string, string>)

  const LATEST := 7

  const VERSION_NAMES: seq<string> := [
    "authoritative_schema_lifecycle", "custom_provider_resources", "normalized_query_helpers",
    "historical_scan_observations", "correlation_materialization", "durable_findings", "observation_resource_times"]

  function VersionName(v: int): string {
    if 1 <= v <= LATEST then VERSION_NAMES[v - 1] else ""
  }

  /** An INSERT ... SELECT from an archive: the columns it reads, and those whose value goes into a
      NOT NULL column as it is. */
  datatype Copy = Copy(uses: set<Column>, notNull: set<Column>) {
    predicate Fits(columns: set<Column>, rows: seq<Row>) {
      uses <= columns && forall i :: 0 <= i < |rows| ==> notNull <= rows[i].Keys
    }
  }

  /** What the binary ships: provider names; per version the tables it creates when missing, the
      columns it adds to tables when missing and the views it creates or replaces; the macros; the
      legacy tables that carry a provider column once they are canonical; those that are always
      moved aside; and the statements that copy their rows. */
  datatype Shipped = Shipped(
    providers: seq<string>,
    created: map<int, Objects>,
    added: map<int, map<Name, set<Column>>>,
    views: map<int, set<Name>>,
    macros: map<string, string>,
    columned: seq<Name>,  // scan_metadata, api_action_metadata
    columnedCopies: seq<Copy>,
    relCopy: Copy,
    named: seq<Name>,     // the cross-cloud addresses, DNS records and correlations
    namedCopies: seq<Copy>)
  {
    function Created(v: int): Objects {
      if v in created then created[v] else map[]
    }

    function Added(v: int): map<Name, set<Column>> {
      if v in added then added[v] else map[]
    }

    function Views(v: int): set<Name> {
      if v in views then views[v] else {}
    }

    function RelTables(): seq<Name> {
      seq(|providers|, i requires 0 <= i < |providers| => Relationships(providers[i]))
    }

    ghost predicate WellFormed() {
      && Distinct(providers) && (forall p :: p in providers ==> Lower(p) == p)
      && Distinct(columned) && |columned| == 2 == |columnedCopies|
      && Distinct(named) && |named| == |namedCopies|
      && (forall t :: t in columned ==> t.Plain? && t !in named && t in Created(1))
      && (forall t :: t in named ==> t.Plain?)
      && (forall v: int :: Handled(v))
      && relCopy == Copy({FromId, ToId, RelType, Properties}, {FromId, ToId, RelType})
      && columnedCopies[0].notNull == {Id, ScanTime}
    }

    /** What version v creates, alters and views are plain names that stay in use; tables and views
        have different names. */
    ghost predicate Handled(v: int) {
      && (forall t :: t in Created(v) ==> IsTable(t) && Created(v)[t].Base?)
      && (forall t :: t in Added(v) ==> IsTable(t))
      && (forall t :: t in Views(v) ==> t.Plain? && t !in named && !IsTable(t))
    }

    /** A table that some version creates. */
    ghost predicate IsTable(t: Name) {
      t.Plain? && t !in named && exists w: int :: t in Created(w)
    }
  }

  /** There is something that a binary can ship. */
  lemma SomethingShipped() returns (s: Shipped)
    ensures s.WellFormed()
  {
    var scans, actions := Plain("scan_metadata"), Plain("api_action_metadata");
    var table := Base({}, [], {});
    s := Shipped(["aws"], map[1 := map[scans := table, actions := table]], map[7 := map[scans := {Provider}]],
                 map[1 := {Plain("aws_resources")}], map[], [scans, actions],
                 [Copy({}, {Id, ScanTime}), Copy({}, {})],
                 Copy({FromId, ToId, RelType, Properties}, {FromId, ToId, RelType}), [], []);
    assert scans in s.Created(1) && actions in s.Created(1);
    assert Lower("aws") == "aws";
    forall w: int, t | t in s.Created(w) ensures t == scans || t == actions {
    }
  }

  predicate Distinct<T(==)>(names: seq<T>) {
    forall i, j :: 0 <= i < j < |names| ==> names[i] != names[j]
  }

  // ---------------------------------------------------------------- the ledger

  /** COALESCE(MAX(version), 0). */
  function Version(ledger: seq<(int, string)>): (v: int)
    ensures forall e :: e in ledger ==> e.0 <= v
    ensures if ledger == [] then v == 0 else exists e :: e in ledger && e.0 == v
  {
    if ledger == [] then 0
    else if |ledger| == 1 then assert ledger[0] in ledger; ledger[0].0
    else
      var rest := Version(ledger[..|ledger| - 1]);
      var last := ledger[|ledger| - 1];
      assert last in ledger && forall e :: e in ledger ==> e == last || e in ledger[..|ledger| - 1];
      if rest < last.0 then last.0 else rest
  }

  function Floor(version: int): int {
    if version < 0 then 0 else version
  }

  /** The versions above from, up to and including last, in order. */
  function Recorded(from: int, last: int): (entries: seq<(int, string)>)
    ensures |entries| == if last < from then 0 else last - from
    ensures forall i :: 0 <= i < |entries| ==> entries[i] == (from + 1 + i, VersionName(from + 1 + i))
    decreases last - from
  {
    if last <= from then [] else Recorded(from, last - 1) + [(last, VersionName(last))]
  }

  predicate Lists(ledger: seq<(int, string)>, version: int) {
    exists e :: e in ledger && e.0 == version
  }

  lemma RecordedExactly(from: int, last: int)
    ensures forall v :: Lists(Recorded(from, last), v) <==> from < v <= last
  {
    var entries := Recorded(from, last);
    forall v | from < v <= last ensures Lists(entries, v) {
      var i := v - from - 1;
      assert entries[i] == (from + 1 + i, VersionName(from + 1 + i));
      assert entries[i] in entries;
    }
    forall e | e in entries ensures from < e.0 <= last {
      var i :| 0 <= i < |entries| && entries[i] == e;
    }
  }

  lemma NamesRecorded(from: int)
    requires from >= 0
    ensures forall e :: e in Recorded(from, LATEST) ==> 1 <= e.0 <= LATEST && e.1 == VERSION_NAMES[e.0 - 1]
  {
    var entries := Recorded(from, LATEST);
    forall e | e in entries ensures 1 <= e.0 <= LATEST && e.1 == VERSION_NAMES[e.0 - 1] {
      var i :| 0 <= i < |entries| && entries[i] == e;
    }
  }

  lemma LedgerBelow(ledger: seq<(int, string)>, v: int)
    requires Version(ledger) < v && v >= 1
    ensures forall e :: e in ledger + Recorded(Floor(Version(ledger)), v - 1) ==> e.0 < v
  {
    var from := Floor(Version(ledger));
    var entries := Recorded(from, v - 1);
    forall e | e in entries ensures e.0 < v {
      var i :| 0 <= i < |entries| && entries[i] == e;
      assert entries[i] == (from + 1 + i, VersionName(from + 1 + i));
    }
  }

  lemma LedgerNext(ledger: seq<(int, string)>, from: int, v: int)
    requires from < v
    ensures ledger + Recorded(from, v - 1) + [(v, VersionName(v))] == ledger + Recorded(from, v)
  {
  }

  lemma LatestLast(ledger: seq<(int, string)>, entries: seq<(int, string)>)
    requires Version(ledger) <= LATEST && Lists(entries, LATEST) && forall v :: Lists(entries, v) ==> v <= LATEST
    ensures Version(ledger + entries) == LATEST
  {
    forall e | e in ledger + entries ensures e.0 <= LATEST {
      if e in entries { assert Lists(entries, e.0); }
    }
    var last :| last in entries && last.0 == LATEST;
    assert last in ledger + entries;
  }

  // ---------------------------------------------------------------- copying rows

  function Cell(row: Row, column: Column): string {
    if column in row then row[column] else ""
  }

  function EdgeOf(row: Row, provider: string): Edge {
    Edge(Cell(row, FromId), Cell(row, ToId), Cell(row, RelType), provider)
  }

  function JsonOf(row: Row): Option<string> {
    if Properties in row then Some(row[Properties]) else None
  }

  /** One INSERT ... ON CONFLICT DO UPDATE of a legacy table's rows. */
  function CopyRows(edges: Edges, rows: seq<Row>, provider: string): Edges {
    if rows == [] then edges
    else
      var r := rows[|rows| - 1];
      CopyRows(edges, rows[..|rows| - 1], provider)[EdgeOf(r, provider) := JsonOf(r)]
  }

  /** One statement may not update a row twice. */
  predicate DistinctRows(rows: seq<Row>) {
    forall i, j :: 0 <= i < j < |rows| ==> EdgeOf(rows[i], "") != EdgeOf(rows[j], "")
  }

  /** Every row is there with its properties, and the provider's other edges are as before. */
  ghost predicate RowsMerged(before: Edges, now: Edges, rows: seq<Row>, provider: string) {
    && (forall i :: 0 <= i < |rows| ==>
          EdgeOf(rows[i], provider) in now && now[EdgeOf(rows[i], provider)] == JsonOf(rows[i]))
    && (forall e: Edge :: e.provider == provider && NoRow(rows, e) ==> SameEdge(before, now, e))
  }

  ghost predicate NoRow(rows: seq<Row>, e: Edge) {
    forall i :: 0 <= i < |rows| ==> EdgeOf(rows[i], e.provider) != e
  }

  ghost predicate SameEdge(before: Edges, now: Edges, e: Edge) {
    (e in before <==> e in now) && (e in before ==> now[e] == before[e])
  }

  ghost predicate SameFor(before: Edges, after: Edges, provider: string) {
    forall e: Edge :: e.provider == provider ==> SameEdge(before, after, e)
  }

  lemma {:induction false} CopyRowsCopies(edges: Edges, rows: seq<Row>, provider: string, other: string)
    ensures DistinctRows(rows) ==> RowsMerged(edges, CopyRows(edges, rows, provider), rows, provider)
    ensures other != provider ==> SameFor(edges, CopyRows(edges, rows, provider), other)
  {
    if rows != [] {
      var head, last := rows[..|rows| - 1], rows[|rows| - 1];
      CopyRowsCopies(edges, head, provider, other);
      assert rows == head + [last];
      if DistinctRows(rows) {
        OneMoreRow(edges, CopyRows(edges, head, provider), head, last, provider);
      }
    }
  }

  lemma OneMoreRow(before: Edges, mid: Edges, rows: seq<Row>, last: Row, provider: string)
    requires DistinctRows(rows + [last]) && (DistinctRows(rows) ==> RowsMerged(before, mid, rows, provider))
    ensures RowsMerged(before, mid[EdgeOf(last, provider) := JsonOf(last)], rows + [last], provider)
  {
    var all, now := rows + [last], mid[EdgeOf(last, provider) := JsonOf(last)];
    forall i, j | 0 <= i < j < |rows| ensures EdgeOf(rows[i], "") != EdgeOf(rows[j], "") {
      assert all[i] == rows[i] && all[j] == rows[j];
    }
    forall i | 0 <= i < |rows| ensures EdgeOf(rows[i], provider) != EdgeOf(last, provider) {
      assert all[i] == rows[i] && EdgeOf(all[i], "") != EdgeOf(all[|rows|], "");
    }
    forall e: Edge | e.provider == provider && NoRow(all, e) ensures SameEdge(before, now, e) {
      assert all[|rows|] == last;
      assert forall i :: 0 <= i < |rows| ==> all[i] == rows[i];
      assert NoRow(rows, e) && SameEdge(before, mid, e);
    }
  }

  /** What holds of a provider's edges goes on holding while they do not change, and held before if they
      had not changed. */
  lemma MergedStays(before: Edges, mid: Edges, now: Edges, rows: seq<Row>, provider: string)
    requires
      || (RowsMerged(before, mid, rows, provider) && SameFor(mid, now, provider))
      || (SameFor(before, mid, provider) && RowsMerged(mid, now, rows, provider))
    ensures RowsMerged(before, now, rows, provider)
  {
    forall e: Edge | e.provider == provider && NoRow(rows, e) ensures SameEdge(before, now, e) {
      assert SameEdge(before, mid, e) && SameEdge(mid, now, e);
    }
    forall i | 0 <= i < |rows|
      ensures EdgeOf(rows[i], provider) in now && now[EdgeOf(rows[i], provider)] == JsonOf(rows[i])
    {
      assert SameFor(mid, now, provider) ==> SameEdge(mid, now, EdgeOf(rows[i], provider));
    }
  }

  function Ids(rows: seq<Row>): set<string> {
    set i | 0 <= i < |rows| :: Cell(rows[i], Id)
  }

  // ---------------------------------------------------------------- table and view definitions

  function KindOf(objects: Objects, name: Name): Kind {
    if name !in objects then Absent else if objects[name].Base? then Table else Viewed
  }

  /** The DDL of a version runs: no view has the name of a table it creates or alters, no table that of
      a view it replaces, and every table it alters is there. */
  predicate DdlFits(objects: Objects, shipped: Shipped, v: int) {
    && (forall t :: t in shipped.Created(v) ==> !KindOf(objects, t).Viewed?)
    && (forall t :: t in shipped.Added(v) ==> !KindOf(objects, t).Viewed? && (t in objects || t in shipped.Created(v)))
    && (forall t :: t in shipped.Views(v) ==> !KindOf(objects, t).Table?)
  }

  /** CREATE TABLE IF NOT EXISTS, ALTER TABLE ADD COLUMN IF NOT EXISTS and CREATE OR REPLACE VIEW. */
  function Ddl(objects: Objects, shipped: Shipped, v: int): Objects {
    var created, added := shipped.Created(v), shipped.Added(v);
    map name | name in objects.Keys + created.Keys + shipped.Views(v) ::
      if name in shipped.Views(v) then OtherView
      else
        var table := if name in objects then objects[name] else created[name];
        if table.Base? && name in added then table.(columns := table.columns + added[name]) else table
  }

  /** No object is lost; a table keeps its rows and columns, and a view stays a view. */
  ghost predicate Kept(before: Objects, now: Objects) {
    forall name :: name in before ==> name in now && KeptObject(before[name], now[name])
  }

  predicate KeptObject(before: Object, now: Object) {
    if before.Base? then
      now.Base? && now.rows == before.rows && before.columns <= now.columns && before.indexes == now.indexes
    else !now.Base?
  }

  lemma KeptTwice(a: Objects, b: Objects, c: Objects)
    requires Kept(a, b) && Kept(b, c)
    ensures Kept(a, c)
  {
    forall name | name in a ensures name in c && KeptObject(a[name], c[name]) {
      assert KeptObject(a[name], b[name]) && KeptObject(b[name], c[name]);
    }
  }

  ghost predicate SameAt(before: Objects, now: Objects, name: Name) {
    (name in before <==> name in now) && (name in before ==> now[name] == before[name])
  }

  lemma DdlKeeps(objects: Objects, shipped: Shipped, v: int)
    requires shipped.Handled(v) && DdlFits(objects, shipped, v)
    ensures Kept(objects, Ddl(objects, shipped, v))
    ensures forall name: Name :: !name.Plain? || name in shipped.named ==>
      SameAt(objects, Ddl(objects, shipped, v), name)
  {
    var now := Ddl(objects, shipped, v);
    forall name | name in objects ensures name in now && KeptObject(objects[name], now[name]) {
      assert name in shipped.Views(v) ==> !KindOf(objects, name).Table?;
    }
    forall name: Name | !name.Plain? || name in shipped.named ensures SameAt(objects, now, name) {
      assert name in shipped.Created(v) ==> shipped.IsTable(name);
      assert name in shipped.Added(v) ==> shipped.IsTable(name);
    }
  }

  // ---------------------------------------------------------------- kinds over several versions

  /** What a name stands for once the versions above from up to v are applied: what it stood for at
      first, or else what the first version to use it makes. */
  function KindAt(objects: Objects, shipped: Shipped, from: int, v: int, name: Name): Kind
    decreases v - from
  {
    if v <= from then KindOf(objects, name)
    else
      var kind := KindAt(objects, shipped, from, v - 1, name);
      if !kind.Absent? then kind
      else if name in shipped.Created(v) then Table
      else if name in shipped.Views(v) then Viewed
      else Absent
  }

  /** The names of plain objects that no version moves aside for good. */
  ghost predicate Settled(name: Name, shipped: Shipped) {
    name.Plain? && name !in shipped.named
  }

  /** The kinds of all settled names are those foreseen. */
  ghost predicate KindsAt(objects: Objects, shipped: Shipped, from: int, v: int, now: Objects) {
    forall name :: Settled(name, shipped) ==> KindOf(now, name) == KindAt(objects, shipped, from, v, name)
  }

  /** In a database with these objects, applying the versions above from, version v meets a view or
      table in the wrong place, or lacks a table that it alters. */
  ghost predicate DdlBlocked(objects: Objects, shipped: Shipped, from: int, v: int) {
    exists t: Name :: Misfit(objects, shipped, from, v, t)
  }

  predicate Misfit(objects: Objects, shipped: Shipped, from: int, v: int, t: Name) {
    var kind := KindAt(objects, shipped, from, v - 1, t);
    || ((t in shipped.Created(v) || t in shipped.Added(v)) && kind.Viewed?)
    || (t in shipped.Added(v) && t !in shipped.Created(v) && kind.Absent?)
    || (t in shipped.Views(v) && kind.Table?)
  }

  lemma DdlFitsExactly(objects: Objects, shipped: Shipped, from: int, v: int, now: Objects)
    requires shipped.Handled(v) && KindsAt(objects, shipped, from, v - 1, now)
    ensures DdlFits(now, shipped, v) <==> !DdlBlocked(objects, shipped, from, v)
  {
    forall t | t in shipped.Created(v) || t in shipped.Added(v) || t in shipped.Views(v)
      ensures KindOf(now, t) == KindAt(objects, shipped, from, v - 1, t)
    {
      assert Settled(t, shipped);
    }
    if t: Name :| Misfit(objects, shipped, from, v, t) {
      assert KindOf(now, t) == KindAt(objects, shipped, from, v - 1, t);
      assert !DdlFits(now, shipped, v);
    }
    if !DdlBlocked(objects, shipped, from, v) {
      forall t | t in shipped.Created(v) || t in shipped.Added(v) || t in shipped.Views(v)
        ensures !Misfit(objects, shipped, from, v, t)
      {
      }
    }
  }

  lemma DdlKinds(objects: Objects, shipped: Shipped, from: int, v: int, now: Objects)
    requires shipped.Handled(v) && from < v && KindsAt(objects, shipped, from, v - 1, now) && DdlFits(now, shipped, v)
    ensures KindsAt(objects, shipped, from, v, Ddl(now, shipped, v))
  {
    var next := Ddl(now, shipped, v);
    forall name | Settled(name, shipped) ensures KindOf(next, name) == KindAt(objects, shipped, from, v, name) {
      assert KindOf(now, name) == KindAt(objects, shipped, from, v - 1, name);
      assert name in shipped.Views(v) ==> !shipped.IsTable(name);
      assert name in shipped.Created(v) ==> shipped.IsTable(name);
    }
  }

  // ---------------------------------------------------------------- what several versions make of a name

  /** The table is not moved aside by version 1, which moves tables that lack the provider column. */
  ghost predicate Stays(start: Objects, shipped: Shipped, from: int, t: Name) {
    && t in start && start[t].Base?
    && !(from < 1 && t in shipped.columned && Provider !in start[t].columns)
  }

  /** Of the versions above from, w is the first to create the table, which is not there yet. */
  ghost predicate MadeBy(start: Objects, shipped: Shipped, from: int, w: int, t: Name) {
    && from < w && t in shipped.Created(w) && !Stays(start, shipped, from, t)
    && forall u: int :: from < u < w ==> t !in shipped.Created(u)
  }

  ghost predicate AddedBy(shipped: Shipped, from: int, v: int, t: Name, c: Column) {
    exists w: int :: from < w <= v && t in shipped.Added(w) && c in shipped.Added(w)[t]
  }

  /** The table is that one with the columns that the versions above from up to v add. */
  ghost predicate Extends(shipped: Shipped, from: int, v: int, t: Name, table: Object, origin: Object) {
    && table.Base? && origin.Base? && table.rows == origin.rows && table.indexes == origin.indexes
    && forall c :: c in table.columns <==> c in origin.columns || AddedBy(shipped, from, v, t, c)
  }

  ghost predicate TableAt(start: Objects, shipped: Shipped, from: int, v: int, t: Name, table: Object) {
    if Stays(start, shipped, from, t) then Extends(shipped, from, v, t, table, start[t])
    else exists w: int :: w <= v && MadeBy(start, shipped, from, w, t)
                          && Extends(shipped, from, v, t, table, shipped.Created(w)[t])
  }

  ghost predicate CreatedBy(shipped: Shipped, from: int, v: int, t: Name) {
    exists w: int :: from < w <= v && t in shipped.Created(w)
  }

  ghost predicate ViewedBy(shipped: Shipped, from: int, v: int, t: Name) {
    exists w: int :: from < w <= v && t in shipped.Views(w)
  }

  ghost predicate AlteredBy(shipped: Shipped, from: int, v: int, t: Name) {
    exists w: int :: from < w <= v && t in shipped.Added(w)
  }

  /** What the versions above from up to v have made of a name: a table is what it was at the start, or
      what the first version to create it shipped, with all added columns; exactly the names that
      stayed tables or were created are tables, among them all that were altered; and exactly those
      that were views or were defined as views are views, the defined ones as they were defined. */
  ghost predicate DefinedAt(start: Objects, now: Objects, shipped: Shipped, from: int, v: int, t: Name) {
    && (t in now && now[t].Base? ==> TableAt(start, shipped, from, v, t, now[t]))
    && (t in now && now[t].Base? <==> Stays(start, shipped, from, t) || CreatedBy(shipped, from, v, t))
    && (AlteredBy(shipped, from, v, t) ==> t in now && now[t].Base?)
    && (t in now && !now[t].Base? <==> (t in start && !start[t].Base?) || ViewedBy(shipped, from, v, t))
    && (t in now && !now[t].Base? ==> now[t] == if ViewedBy(shipped, from, v, t) then OtherView else start[t])
  }

  ghost predicate Defined(start: Objects, now: Objects, shipped: Shipped, from: int, v: int) {
    forall t :: Settled(t, shipped) ==> DefinedAt(start, now, shipped, from, v, t)
  }

  /** Everything that a version defines is there. */
  ghost predicate InPlace(start: Objects, now: Objects, shipped: Shipped, from: int, v: int) {
    && (forall t :: t in shipped.Added(v) ==> t in now && now[t].Base? && shipped.Added(v)[t] <= now[t].columns)
    && (forall t :: t in shipped.Created(v) ==> t in now && now[t].Base?)
    && (forall t :: t in shipped.Created(v) && t !in start
                    && (forall u: int :: from < u < v ==> t !in shipped.Created(u)) ==>
          shipped.Created(v)[t].Base? && shipped.Created(v)[t].columns <= now[t].columns)
    && (forall t :: t in shipped.Views(v) ==> t in now && now[t] == OtherView)
  }

  lemma DefinedIsInPlace(start: Objects, now: Objects, shipped: Shipped, from: int, last: int, v: int)
    requires shipped.Handled(v) && from < v <= last && Defined(start, now, shipped, from, last)
    ensures InPlace(start, now, shipped, from, v)
  {
    forall t | t in shipped.Added(v) ensures t in now && now[t].Base? && shipped.Added(v)[t] <= now[t].columns {
      assert shipped.IsTable(t) && DefinedAt(start, now, shipped, from, last, t);
      assert AlteredBy(shipped, from, last, t);
      assert forall c :: c in shipped.Added(v)[t] ==> AddedBy(shipped, from, last, t, c);
    }
    forall t | t in shipped.Created(v)
      ensures t in now && now[t].Base?
      ensures t !in start && (forall u: int :: from < u < v ==> t !in shipped.Created(u)) ==>
        shipped.Created(v)[t].columns <= now[t].columns
    {
      assert shipped.IsTable(t) && DefinedAt(start, now, shipped, from, last, t);
      assert CreatedBy(shipped, from, last, t);
    }
    forall t | t in shipped.Views(v) ensures t in now && now[t] == OtherView {
      assert Settled(t, shipped) && DefinedAt(start, now, shipped, from, last, t);
      assert ViewedBy(shipped, from, last, t);
    }
  }

  lemma ByNext(shipped: Shipped, from: int, v: int, t: Name)
    requires from < v
    ensures CreatedBy(shipped, from, v, t) <==> CreatedBy(shipped, from, v - 1, t) || t in shipped.Created(v)
    ensures ViewedBy(shipped, from, v, t) <==> ViewedBy(shipped, from, v - 1, t) || t in shipped.Views(v)
    ensures AlteredBy(shipped, from, v, t) <==> AlteredBy(shipped, from, v - 1, t) || t in shipped.Added(v)
    ensures forall c :: AddedBy(shipped, from, v, t, c) <==>
      AddedBy(shipped, from, v - 1, t, c) || (t in shipped.Added(v) && c in shipped.Added(v)[t])
  {
  }

  /** The definitions of one more version carry this on. */
  lemma DdlDefines(start: Objects, now: Objects, shipped: Shipped, from: int, v: int)
    requires shipped.Handled(v) && from < v && Defined(start, now, shipped, from, v - 1) && DdlFits(now, shipped, v)
    ensures Defined(start, Ddl(now, shipped, v), shipped, from, v)
  {
    forall t | Settled(t, shipped) ensures DefinedAt(start, Ddl(now, shipped, v), shipped, from, v, t) {
      DdlDefinesAt(start, now, shipped, from, v, t);
    }
  }

  lemma DdlDefinesAt(start: Objects, now: Objects, shipped: Shipped, from: int, v: int, t: Name)
    requires shipped.Handled(v) && from < v && DefinedAt(start, now, shipped, from, v - 1, t)
    requires DdlFits(now, shipped, v)
    ensures DefinedAt(start, Ddl(now, shipped, v), shipped, from, v, t)
  {
    var next := Ddl(now, shipped, v);
    ByNext(shipped, from, v, t);
    assert t in shipped.Views(v) ==> !shipped.IsTable(t);
    assert t in shipped.Created(v) || t in shipped.Added(v) ==> shipped.IsTable(t);
    if t in now && now[t].Base? {
      assert t !in shipped.Views(v);
      TableGrows(start, shipped, from, v, t, now[t], next[t]);
    } else if t !in now && t in shipped.Created(v) {
      assert MadeBy(start, shipped, from, v, t);
      assert Extends(shipped, from, v, t, next[t], shipped.Created(v)[t]);
    }
  }

  lemma TableGrows(start: Objects, shipped: Shipped, from: int, v: int, t: Name, table: Object, next: Object)
    requires from < v && table.Base? && TableAt(start, shipped, from, v - 1, t, table)
    requires next == if t in shipped.Added(v) then table.(columns := table.columns + shipped.Added(v)[t]) else table
    ensures TableAt(start, shipped, from, v, t, next)
  {
    ByNext(shipped, from, v, t);
    if !Stays(start, shipped, from, t) {
      var w: int :| w <= v - 1 && MadeBy(start, shipped, from, w, t)
        && Extends(shipped, from, v - 1, t, table, shipped.Created(w)[t]);
      assert Extends(shipped, from, v, t, next, shipped.Created(w)[t]);
    }
  }

  /** Names that are not touched stay defined. */
  lemma DefinedStays(start: Objects, mid: Objects, now: Objects, shipped: Shipped, from: int, v: int)
    requires Defined(start, mid, shipped, from, v)
    requires forall name :: Settled(name, shipped) ==> SameAt(mid, now, name)
    ensures Defined(start, now, shipped, from, v)
  {
    forall t | Settled(t, shipped) ensures DefinedAt(start, now, shipped, from, v, t) {
      assert SameAt(mid, now, t) && DefinedAt(start, mid, shipped, from, v, t);
    }
  }

  // ---------------------------------------------------------------- moving tables aside

  /** When a table is moved aside: archiveLegacyTable asks for a missing column, the relationship
      loop for a table, archiveLegacyNamedTable for any object (which must be a table). */
  datatype Rule = Lacking(column: Column) | IfTable | Always

  predicate ShouldMove(objects: Objects, table: Name, rule: Rule) {
    table in objects && objects[table].Base? && (rule.Lacking? ==> rule.column !in objects[table].columns)
  }

  /** A table moved to its archive name, its indexes dropped and its rows kept. */
  function Aside(objects: Objects, table: Name): Objects
    requires table in objects && objects[table].Base?
  {
    objects[Archive(table) := objects[table].(indexes := {})] - {table}
  }

  /** The archive holds the columns and all rows that the table had. */
  ghost predicate Archived(before: Objects, now: Objects, table: Name)
    requires table in before && before[table].Base?
  {
    Archive(table) in now && now[Archive(table)] == before[table].(indexes := {})
  }

  /** The name of one of the first n tables or of its archive. */
  ghost predicate Involved(name: Name, tables: seq<Name>, n: nat)
    requires n <= |tables|
  {
    exists i :: 0 <= i < n && (name == tables[i] || name == Archive(tables[i]))
  }

  /** The first n tables have been dealt with, and nothing else has changed. */
  ghost predicate ArchivedFirst(before: Objects, now: Objects, tables: seq<Name>, rule: Rule, n: nat)
    requires n <= |tables|
  {
    && (forall i :: 0 <= i < n && ShouldMove(before, tables[i], rule) ==>
          Archived(before, now, tables[i]) && tables[i] !in now)
    && (forall name :: !Involved(name, tables, n) ==> SameAt(before, now, name))
    && (forall i :: 0 <= i < n && !ShouldMove(before, tables[i], rule) ==> SameAt(before, now, tables[i]))
  }

  /** Tables under different names of which none is an archive. */
  predicate Movable(tables: seq<Name>) {
    Distinct(tables) && forall t :: t in tables ==> !t.Archive?
  }

  lemma NotInvolvedYet(tables: seq<Name>, n: nat)
    requires n < |tables| && Movable(tables)
    ensures !Involved(tables[n], tables, n) && !Involved(Archive(tables[n]), tables, n)
  {
    forall i | 0 <= i < n
      ensures tables[n] != tables[i] && tables[n] != Archive(tables[i]) && Archive(tables[n]) != tables[i]
    {
      assert tables[n] in tables && tables[i] in tables;
    }
  }

  lemma NotInvolved(name: Name, tables: seq<Name>)
    requires name !in tables && (name.Archive? ==> name.table !in tables)
    ensures !Involved(name, tables, |tables|)
  {
    forall i | 0 <= i < |tables| ensures name != tables[i] && name != Archive(tables[i]) {
      assert tables[i] in tables;
    }
  }

  lemma OthersUntouched(mid: Objects, now: Objects, t: Name, rule: Rule)
    requires if ShouldMove(mid, t, rule) then now == Aside(mid, t) else now == mid
    ensures forall name :: name != t && name != Archive(t) ==> SameAt(mid, now, name)
  {
  }

  lemma ArchivedMore(before: Objects, mid: Objects, now: Objects, tables: seq<Name>, rule: Rule, n: nat)
    requires n < |tables| && Movable(tables)
    requires ArchivedFirst(before, mid, tables, rule, n)
    requires if ShouldMove(mid, tables[n], rule) then now == Aside(mid, tables[n]) else now == mid
    ensures ArchivedFirst(before, now, tables, rule, n + 1)
    ensures ShouldMove(mid, tables[n], rule) <==> ShouldMove(before, tables[n], rule)
  {
    var t := tables[n];
    NotInvolvedYet(tables, n);
    assert SameAt(before, mid, t);
    OthersUntouched(mid, now, t, rule);
    forall i | 0 <= i < n
      ensures Archive(tables[i]) != Archive(t) && Archive(tables[i]) != t
      ensures tables[i] != Archive(t) && tables[i] != t
      ensures SameAt(mid, now, tables[i]) && SameAt(mid, now, Archive(tables[i]))
    {
      assert t in tables && tables[i] in tables;
    }
    forall name | !Involved(name, tables, n + 1) ensures SameAt(before, now, name) {
      assert name != tables[n] && name != Archive(tables[n]);
      assert !Involved(name, tables, n);
    }
  }

  /** The table cannot be dealt with: a view has its name, or its archive name is taken. */
  predicate Blocks(objects: Objects, table: Name, rule: Rule) {
    table in objects &&
    if objects[table].Base? then ShouldMove(objects, table, rule) && Archive(table) in objects else !rule.IfTable?
  }

  predicate AnyBlocks(objects: Objects, tables: seq<Name>, rule: Rule, n: nat)
    requires n <= |tables|
  {
    exists i :: 0 <= i < n && Blocks(objects, tables[i], rule)
  }

  /** What is in the way of the table at n does not change while the ones before it are dealt with. */
  lemma BlocksAlike(before: Objects, mid: Objects, tables: seq<Name>, rule: Rule, n: nat)
    requires n < |tables| && Movable(tables) && ArchivedFirst(before, mid, tables, rule, n)
    ensures Blocks(mid, tables[n], rule) <==> Blocks(before, tables[n], rule)
  {
    NotInvolvedYet(tables, n);
    assert SameAt(before, mid, tables[n]) && SameAt(before, mid, Archive(tables[n]));
  }

  lemma SameBlocks(before: Objects, now: Objects, tables: seq<Name>, rule: Rule)
    requires forall t :: t in tables ==> SameAt(before, now, t) && SameAt(before, now, Archive(t))
    ensures AnyBlocks(before, tables, rule, |tables|) <==> AnyBlocks(now, tables, rule, |tables|)
  {
    forall i | 0 <= i < |tables| ensures Blocks(before, tables[i], rule) <==> Blocks(now, tables[i], rule) {
      assert tables[i] in tables;
      assert SameAt(before, now, tables[i]) && SameAt(before, now, Archive(tables[i]));
    }
  }

  /** A table that is moved aside holds what its copying statement cannot take: a column is missing, or
      NULL stands where a value is needed. */
  predicate CannotCopy(objects: Objects, table: Name, rule: Rule, copy: Copy) {
    ShouldMove(objects, table, rule) && !copy.Fits(objects[table].columns, objects[table].rows)
  }

  /** A relationship table also fails on two rows of one (from, to, type). */
  predicate CannotCopyEdges(objects: Objects, table: Name, copy: Copy) {
    ShouldMove(objects, table, IfTable)
    && !(copy.Fits(objects[table].columns, objects[table].rows) && DistinctRows(objects[table].rows))
  }

  // ---------------------------------------------------------------- the compatibility views

  function WithViews(objects: Objects, providers: seq<string>, n: nat): Objects
    requires n <= |providers|
  {
    if n == 0 then objects
    else WithViews(objects, providers, n - 1)[Relationships(providers[n - 1]) := View(providers[n - 1])]
  }

  ghost predicate IsRelTable(name: Name, providers: seq<string>, n: nat)
    requires n <= |providers|
  {
    exists i :: 0 <= i < n && name == Relationships(providers[i])
  }

  lemma {:induction false} WithViewsHas(objects: Objects, providers: seq<string>, n: nat)
    requires n <= |providers| && Distinct(providers)
    ensures forall i :: 0 <= i < n ==>
      && Relationships(providers[i]) in WithViews(objects, providers, n)
      && WithViews(objects, providers, n)[Relationships(providers[i])] == View(providers[i])
    ensures forall name :: !IsRelTable(name, providers, n) ==> SameAt(objects, WithViews(objects, providers, n), name)
  {
    if n > 0 {
      WithViewsHas(objects, providers, n - 1);
      forall name | !IsRelTable(name, providers, n) ensures SameAt(objects, WithViews(objects, providers, n), name) {
        assert name != Relationships(providers[n - 1]);
        assert !IsRelTable(name, providers, n - 1);
      }
    }
  }
}
