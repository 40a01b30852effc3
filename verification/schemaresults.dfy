/** What an upgrade of the schema (internal/db/schema_lifecycle.go) comes to: the ledger, a second run,
    the legacy data, and exactly which databases cannot be upgraded. */
module SchemaResults {
  import opened Letters
  import opened Schema
  import opened SchemaModel
  import opened Wrappers

  /** The ledger's maximum is then the latest version, and every version above the old one, and no
      other, has been added. */
  lemma LedgerComplete(before: Database, after: Database, shipped: Shipped)
    requires shipped.WellFormed() && Ensured(before, after, shipped)
    ensures Version(after.ledger) == LATEST
    ensures forall v ::
      Lists(after.ledger[|before.ledger|..], v) <==> Floor(Version(before.ledger)) < v <= LATEST
  {
    var from := Floor(Version(before.ledger));
    var entries := Recorded(from, LATEST);
    assert after.ledger[|before.ledger|..] == entries;
    RecordedExactly(from, LATEST);
    if from < LATEST {
      assert Lists(entries, LATEST);
      LatestLast(before.ledger, entries);
    } else {
      assert after.ledger == before.ledger;
    }
  }

  /** And each is recorded under its name. */
  lemma NamesComplete(before: Database, after: Database, shipped: Shipped)
    requires shipped.WellFormed() && Ensured(before, after, shipped)
    ensures forall e :: e in after.ledger[|before.ledger|..] ==> 1 <= e.0 <= LATEST && e.1 == VERSION_NAMES[e.0 - 1]
  {
    var from := Floor(Version(before.ledger));
    assert after.ledger[|before.ledger|..] == Recorded(from, LATEST);
    NamesRecorded(from);
  }

  /** A second run changes nothing. If the macros were edited in between, it only puts them back. */
  lemma SecondRun(before: Database, after: Database, again: Database, edited: map<string, string>, shipped: Shipped)
    requires shipped.WellFormed() && Ensured(before, after, shipped)
    requires Ensured(after.(macros := edited), again, shipped)
    ensures again == after.(macros := edited + shipped.macros)
    ensures edited == after.macros ==> again == after
  {
    LedgerComplete(before, after, shipped);
    MacrosTwice(before.macros, shipped.macros);
  }

  /** Nor can anything but a failing statement stop it. */
  lemma SecondRunIsFree(before: Database, after: Database, edited: map<string, string>, shipped: Shipped)
    requires shipped.WellFormed() && Ensured(before, after, shipped)
    ensures !Blocked(after.(macros := edited), shipped)
  {
    LedgerComplete(before, after, shipped);
  }

  /** SELECT ... FROM cloud_relationships WHERE lower(provider) = '...' shows the row: its two ends and its
      type, and its properties, or NULL if it has none. */
  ghost predicate InView(edges: Edges, provider: string, row: Row) {
    exists e :: e in edges && Lower(e.provider) == provider && IsOfRow(e, row)
                && edges[e] == if Properties in row then Some(row[Properties]) else None
  }

  predicate IsOfRow(e: Edge, row: Row) {
    && FromId in row && ToId in row && RelType in row
    && e.fromId == row[FromId] && e.toId == row[ToId] && e.typ == row[RelType]
  }

  /** After an upgrade from before version 1, the name of a legacy relationship table is a view that
      shows every row the table had, each with values in all key columns and with its properties,
      and the archive still has all the rows. No two rows have the same ends and type. */
  lemma LegacyRowsVisible(before: Database, after: Database, shipped: Shipped, p: string, i: nat)
    requires shipped.WellFormed() && Ensured(before, after, shipped) && !Blocked(before, shipped)
    requires Version(before.ledger) < 1
    requires p in shipped.providers && IsLegacy(before, p) && i < |before.objects[Relationships(p)].rows|
    ensures Relationships(p) in after.objects && after.objects[Relationships(p)] == View(p)
    ensures InView(after.edges, p, before.objects[Relationships(p)].rows[i])
    ensures Archive(Relationships(p)) in after.objects
    ensures after.objects[Archive(Relationships(p))].Base?
    ensures after.objects[Archive(Relationships(p))].rows == before.objects[Relationships(p)].rows
  {
    var row := before.objects[Relationships(p)].rows[i];
    assert RowsMerged(before.edges, after.edges, before.objects[Relationships(p)].rows, p);
    var k :| 0 <= k < |shipped.providers| && shipped.providers[k] == p;
    assert !CannotCopyEdges(before.objects, Relationships(shipped.providers[k]), shipped.relCopy);
    var e := EdgeOf(row, p);
    assert e in after.edges && after.edges[e] == JsonOf(row) && IsOfRow(e, row);
  }

  /** The edges under a legacy provider are those of its rows and those that were there before. */
  lemma LegacyEdgesExactly(before: Database, after: Database, shipped: Shipped, p: string, e: Edge)
    requires shipped.WellFormed() && Ensured(before, after, shipped) && !Blocked(before, shipped)
    requires Version(before.ledger) < 1 && p in shipped.providers && IsLegacy(before, p) && e.provider == p
    ensures var rows := before.objects[Relationships(p)].rows;
      e in after.edges <==> e in before.edges || exists i :: 0 <= i < |rows| && IsOfRow(e, rows[i])
  {
    var rows := before.objects[Relationships(p)].rows;
    assert RowsMerged(before.edges, after.edges, rows, p);
    var k :| 0 <= k < |shipped.providers| && shipped.providers[k] == p;
    assert !CannotCopyEdges(before.objects, Relationships(shipped.providers[k]), shipped.relCopy);
    forall i | 0 <= i < |rows| ensures IsOfRow(e, rows[i]) <==> EdgeOf(rows[i], p) == e {
      assert {FromId, ToId, RelType} <= rows[i].Keys;
    }
    if NoRow(rows, e) {
      assert SameEdge(before.edges, after.edges, e);
    }
  }

  /** A legacy scan_metadata table's scans are all in the canonical one, and no others are added. */
  lemma LegacyScansKept(before: Database, after: Database, shipped: Shipped, id: string)
    requires shipped.WellFormed() && Ensured(before, after, shipped) && !Blocked(before, shipped)
    requires Version(before.ledger) < 1
    ensures var scans, objects := shipped.columned[0], before.objects;
      id in after.scans <==>
        id in before.scans
        || (scans in objects && objects[scans].Base? && Provider !in objects[scans].columns
            && exists i :: 0 <= i < |objects[scans].rows| && HasId(objects[scans].rows[i], id))
  {
    var scans, objects := shipped.columned[0], before.objects;
    assert !CannotCopy(objects, scans, Lacking(Provider), shipped.columnedCopies[0]);
    if scans in objects && objects[scans].Base? && Provider !in objects[scans].columns {
      var rows := objects[scans].rows;
      forall i | 0 <= i < |rows| ensures Id in rows[i] && ScanTime in rows[i] {
        assert shipped.columnedCopies[0].notNull <= rows[i].Keys;
        assert Id in {Id, ScanTime} && ScanTime in {Id, ScanTime};
      }
    }
  }

  /** The row has this ID, and the scan time that the canonical table asks for. */
  predicate HasId(row: Row, id: string) {
    Id in row && row[Id] == id && ScanTime in row
  }

  // ---------------------------------------------------------------- what blocks an upgrade

  /** The rows cannot be copied: a column that is read is missing, or a value that is needed. */
  ghost predicate Unreadable(table: Object, copy: Copy)
    requires table.Base?
  {
    || (exists c :: c in copy.uses && c !in table.columns)
    || exists i, c :: 0 <= i < |table.rows| && c in copy.notNull && c !in table.rows[i]
  }

  /** The same for relationships, of which there may also not be two with the same ends and type. */
  ghost predicate EdgesUnreadable(table: Object)
    requires table.Base?
  {
    || FromId !in table.columns || ToId !in table.columns || RelType !in table.columns || Properties !in table.columns
    || (exists i :: 0 <= i < |table.rows| && !HasEnds(table.rows[i]))
    || exists i, j :: 0 <= i < j < |table.rows| && SameEnds(table.rows[i], table.rows[j])
  }

  predicate HasEnds(row: Row) {
    FromId in row && ToId in row && RelType in row
  }

  predicate SameEnds(a: Row, b: Row) {
    HasEnds(a) && HasEnds(b) && a[FromId] == b[FromId] && a[ToId] == b[ToId] && a[RelType] == b[RelType]
  }

  /** A legacy table is in the way of version 1: a view has the name of one that it looks at by its
      columns or moves always, or one that it would move has its archive name taken or rows that
      cannot be copied. */
  ghost predicate LegacyObstacle(objects: Objects, shipped: Shipped)
    requires shipped.WellFormed()
  {
    || (exists i :: 0 <= i < 2 && ScansObstacle(objects, shipped.columned[i], shipped.columnedCopies[i]))
    || (exists p :: p in shipped.providers && EdgesObstacle(objects, Relationships(p)))
    || (exists i :: 0 <= i < |shipped.named| && NamedObstacle(objects, shipped.named[i], shipped.namedCopies[i]))
  }

  ghost predicate ScansObstacle(objects: Objects, t: Name, copy: Copy) {
    && t in objects
    && (objects[t].Base? ==>
          Provider !in objects[t].columns && (Archive(t) in objects || Unreadable(objects[t], copy)))
  }

  ghost predicate EdgesObstacle(objects: Objects, t: Name) {
    t in objects && objects[t].Base? && (Archive(t) in objects || EdgesUnreadable(objects[t]))
  }

  ghost predicate NamedObstacle(objects: Objects, t: Name, copy: Copy) {
    t in objects && (objects[t].Base? ==> Archive(t) in objects || Unreadable(objects[t], copy))
  }

  /** A definition of version v is stopped: a view stands where a table is created or altered, a table
      that is altered is neither there nor created by a version before, or a table stands where a
      view is defined. */
  ghost predicate DefinitionObstacle(objects: Objects, shipped: Shipped, from: int, v: int, t: Name) {
    || ((t in shipped.Created(v) || t in shipped.Added(v)) && t in objects && !objects[t].Base?)
    || (t in shipped.Added(v) && t !in shipped.Created(v) && t !in objects && !CreatedBy(shipped, from, v - 1, t))
    || (t in shipped.Views(v) && t in objects && objects[t].Base?)
  }

  lemma FitsExactly(table: Object, copy: Copy)
    requires table.Base?
    ensures copy.Fits(table.columns, table.rows) <==> !Unreadable(table, copy)
  {
    forall i | 0 <= i < |table.rows|
      ensures copy.notNull <= table.rows[i].Keys <==> forall c :: c in copy.notNull ==> c in table.rows[i]
    {
    }
  }

  lemma EdgesFitExactly(table: Object, copy: Copy)
    requires table.Base? && copy == Copy({FromId, ToId, RelType, Properties}, {FromId, ToId, RelType})
    ensures copy.Fits(table.columns, table.rows) && DistinctRows(table.rows) <==> !EdgesUnreadable(table)
  {
    forall i | 0 <= i < |table.rows| ensures copy.notNull <= table.rows[i].Keys <==> HasEnds(table.rows[i]) {
    }
    assert copy.uses <= table.columns <==>
      FromId in table.columns && ToId in table.columns && RelType in table.columns && Properties in table.columns;
    if copy.Fits(table.columns, table.rows) {
      forall i, j | 0 <= i < j < |table.rows|
        ensures EdgeOf(table.rows[i], "") != EdgeOf(table.rows[j], "") <==> !SameEnds(table.rows[i], table.rows[j])
      {
        assert HasEnds(table.rows[i]) && HasEnds(table.rows[j]);
      }
    }
  }

  lemma LegacyBlockedExactly(d: Database, shipped: Shipped)
    requires shipped.WellFormed()
    ensures LegacyBlocked(d, shipped) <==> LegacyObstacle(d.objects, shipped)
  {
    var objects := d.objects;
    forall i | 0 <= i < 2
      ensures ScansObstacle(objects, shipped.columned[i], shipped.columnedCopies[i]) <==>
        Blocks(objects, shipped.columned[i], Lacking(Provider))
        || CannotCopy(objects, shipped.columned[i], Lacking(Provider), shipped.columnedCopies[i])
    {
      if shipped.columned[i] in objects && objects[shipped.columned[i]].Base? {
        FitsExactly(objects[shipped.columned[i]], shipped.columnedCopies[i]);
      }
    }
    forall i | 0 <= i < |shipped.providers|
      ensures shipped.RelTables()[i] == Relationships(shipped.providers[i])
      ensures EdgesObstacle(objects, Relationships(shipped.providers[i])) <==>
        Blocks(objects, Relationships(shipped.providers[i]), IfTable)
        || CannotCopyEdges(objects, Relationships(shipped.providers[i]), shipped.relCopy)
    {
      var t := Relationships(shipped.providers[i]);
      if t in objects && objects[t].Base? {
        EdgesFitExactly(objects[t], shipped.relCopy);
      }
    }
    forall i | 0 <= i < |shipped.named|
      ensures NamedObstacle(objects, shipped.named[i], shipped.namedCopies[i]) <==>
        Blocks(objects, shipped.named[i], Always)
        || CannotCopy(objects, shipped.named[i], Always, shipped.namedCopies[i])
    {
      if shipped.named[i] in objects && objects[shipped.named[i]].Base? {
        FitsExactly(objects[shipped.named[i]], shipped.namedCopies[i]);
      }
    }
    AnyLegacy(objects, shipped);
  }

  /** The obstacles table by table. */
  lemma AnyLegacy(objects: Objects, shipped: Shipped)
    requires shipped.WellFormed()
    requires forall i :: 0 <= i < 2 ==>
      (ScansObstacle(objects, shipped.columned[i], shipped.columnedCopies[i]) <==>
        Blocks(objects, shipped.columned[i], Lacking(Provider))
        || CannotCopy(objects, shipped.columned[i], Lacking(Provider), shipped.columnedCopies[i]))
    requires forall i :: 0 <= i < |shipped.providers| ==>
      && shipped.RelTables()[i] == Relationships(shipped.providers[i])
      && (EdgesObstacle(objects, Relationships(shipped.providers[i])) <==>
            Blocks(objects, Relationships(shipped.providers[i]), IfTable)
            || CannotCopyEdges(objects, Relationships(shipped.providers[i]), shipped.relCopy))
    requires forall i :: 0 <= i < |shipped.named| ==>
      (NamedObstacle(objects, shipped.named[i], shipped.namedCopies[i]) <==>
        Blocks(objects, shipped.named[i], Always)
        || CannotCopy(objects, shipped.named[i], Always, shipped.namedCopies[i]))
    ensures LegacyObstacle(objects, shipped) <==>
      || AnyBlocks(objects, shipped.columned, Lacking(Provider), |shipped.columned|)
      || AnyBlocks(objects, shipped.RelTables(), IfTable, |shipped.RelTables()|)
      || AnyBlocks(objects, shipped.named, Always, |shipped.named|)
      || CopiesBlocked(objects, shipped)
  {
    if p :| p in shipped.providers && EdgesObstacle(objects, Relationships(p)) {
      var i :| 0 <= i < |shipped.providers| && shipped.providers[i] == p;
      assert Blocks(objects, shipped.RelTables()[i], IfTable)
        || CannotCopyEdges(objects, Relationships(shipped.providers[i]), shipped.relCopy);
    }
    forall i | 0 <= i < |shipped.providers| ensures shipped.providers[i] in shipped.providers {
    }
  }

  /** Where no table is altered, created and viewed at once, a name's kind is the one it had, or comes from
      what the pending versions make of it. */
  lemma {:induction false} KindIsMade(objects: Objects, shipped: Shipped, from: int, v: int, t: Name)
    requires v >= from && forall w: int :: shipped.Handled(w)
    ensures t in objects ==> KindAt(objects, shipped, from, v, t) == KindOf(objects, t)
    ensures t !in objects ==> (KindAt(objects, shipped, from, v, t).Absent? <==>
      !CreatedBy(shipped, from, v, t) && !ViewedBy(shipped, from, v, t))
    ensures t !in objects && shipped.IsTable(t) ==> !KindAt(objects, shipped, from, v, t).Viewed?
    ensures t !in objects && !shipped.IsTable(t) ==> !KindAt(objects, shipped, from, v, t).Table?
    decreases v - from
  {
    if v > from {
      KindIsMade(objects, shipped, from, v - 1, t);
      ByNext(shipped, from, v, t);
      assert shipped.Handled(v);
      assert t in shipped.Created(v) ==> shipped.IsTable(t);
    }
  }

  lemma MisfitExactly(objects: Objects, shipped: Shipped, from: int, v: int, t: Name)
    requires v > from && forall w: int :: shipped.Handled(w)
    ensures Misfit(objects, shipped, from, v, t) <==> DefinitionObstacle(objects, shipped, from, v, t)
  {
    KindIsMade(objects, shipped, from, v - 1, t);
    assert shipped.Handled(v);
    assert t in shipped.Created(v) || t in shipped.Added(v) ==> shipped.IsTable(t);
    if shipped.IsTable(t) {
      forall w: int ensures t !in shipped.Views(w) {
        assert shipped.Handled(w);
      }
    }
  }

  /** Exactly these databases are blocked: newer ones, ones from before version 1 with a legacy table in
      the way, and ones in which a definition of a pending version is stopped. */
  lemma BlockedExactly(d: Database, shipped: Shipped)
    requires shipped.WellFormed()
    ensures var from := Floor(Version(d.ledger));
      Blocked(d, shipped) <==>
        || from > 7
        || (from < 1 && LegacyObstacle(d.objects, shipped))
        || exists v: int, t :: from < v <= 7 && DefinitionObstacle(d.objects, shipped, from, v, t)
  {
    LegacyBlockedExactly(d, shipped);
    DdlBlockedExactly(d.objects, shipped, Floor(Version(d.ledger)));
  }

  lemma DdlBlockedExactly(objects: Objects, shipped: Shipped, from: int)
    requires shipped.WellFormed()
    ensures (exists v: int :: from < v <= LATEST && DdlBlocked(objects, shipped, from, v)) <==>
      exists v: int, t :: from < v <= 7 && DefinitionObstacle(objects, shipped, from, v, t)
  {
    if v: int, t :| from < v <= 7 && DefinitionObstacle(objects, shipped, from, v, t) {
      MisfitExactly(objects, shipped, from, v, t);
      assert DdlBlocked(objects, shipped, from, v);
    }
    if v: int :| from < v <= LATEST && DdlBlocked(objects, shipped, from, v) {
      var t: Name :| Misfit(objects, shipped, from, v, t);
      MisfitExactly(objects, shipped, from, v, t);
    }
  }

  /** A database without tables and views is not blocked, whatever the ledger's floor. */
  lemma NewIsNotBlocked(d: Database, shipped: Shipped)
    requires shipped.WellFormed() && d.objects == map[] && Version(d.ledger) < 1
    requires forall v: int, t :: t in shipped.Added(v) ==> exists w: int :: 1 <= w <= v && t in shipped.Created(w)
    ensures !Blocked(d, shipped)
  {
    forall v: int, t: Name | 0 < v <= LATEST ensures !Misfit(d.objects, shipped, 0, v, t) {
      NewKinds(shipped, v - 1, t);
      assert shipped.Handled(v);
      if t in shipped.Added(v) && t !in shipped.Created(v) {
        var w: int :| 1 <= w <= v && t in shipped.Created(w);
        assert w <= v - 1;
      }
      assert t in shipped.Created(v) ==> shipped.IsTable(t);
    }
  }

  lemma {:induction false} NewKinds(shipped: Shipped, v: int, t: Name)
    requires shipped.WellFormed() && v >= 0
    ensures shipped.IsTable(t) ==> !KindAt(map[], shipped, 0, v, t).Viewed?
    ensures !shipped.IsTable(t) ==> !KindAt(map[], shipped, 0, v, t).Table?
    ensures forall w: int :: 1 <= w <= v && t in shipped.Created(w) ==> KindAt(map[], shipped, 0, v, t).Table?
    decreases v
  {
    if v > 0 {
      NewKinds(shipped, v - 1, t);
      assert shipped.Handled(v);
      assert t in shipped.Created(v) ==> shipped.IsTable(t);
      forall w: int | 1 <= w <= v && t in shipped.Created(w) ensures KindAt(map[], shipped, 0, v, t).Table? {
        assert shipped.Handled(w);
        assert shipped.IsTable(t);
      }
    }
  }
}
