/** EnsureSchema (internal/db/schema_lifecycle.go): the missing versions of the schema applied in one
    transaction, with the move of legacy tables in version 1. */
module Schema {
  import opened SchemaModel

  // ---------------------------------------------------------------- version 1 on legacy data

  predicate IsLegacy(d: Database, provider: string) {
    ShouldMove(d.objects, Relationships(provider), IfTable)
  }

  function ScansMoved(d: Database, shipped: Shipped): set<string>
    requires |shipped.columned| == 2
  {
    if ShouldMove(d.objects, shipped.columned[0], Lacking(Provider)) then Ids(d.objects[shipped.columned[0]].rows)
    else {}
  }

  /** What version 1 does to legacy data: every table it moves is kept whole as an archive; the rows
      of each provider's relationship table are in cloud_relationships under that provider, with
      their properties, and behind the provider's view; edges of other providers, and scans already
      there, are as before; archived scans are added. */
  ghost predicate LegacyMoved(before: Database, after: Database, shipped: Shipped)
    requires |shipped.columned| == 2
  {
    && (forall p :: p in shipped.providers && IsLegacy(before, p) ==>
          && Archived(before.objects, after.objects, Relationships(p))
          && RowsMerged(before.edges, after.edges, before.objects[Relationships(p)].rows, p))
    && (forall p :: p in shipped.providers ==>
          Relationships(p) in after.objects && after.objects[Relationships(p)] == View(p))
    && (forall p :: p !in shipped.providers || !IsLegacy(before, p) ==> SameFor(before.edges, after.edges, p))
    && (forall t :: t in shipped.columned && ShouldMove(before.objects, t, Lacking(Provider)) ==>
          Archived(before.objects, after.objects, t))
    && (forall t :: t in shipped.named && ShouldMove(before.objects, t, Always) ==>
          Archived(before.objects, after.objects, t))
    && after.scans == before.scans + ScansMoved(before, shipped)
  }

  /** What stops version 1 at the legacy tables: one that cannot be moved or copied. */
  ghost predicate LegacyBlocked(d: Database, shipped: Shipped)
    requires shipped.WellFormed()
  {
    || AnyBlocks(d.objects, shipped.columned, Lacking(Provider), |shipped.columned|)
    || AnyBlocks(d.objects, shipped.RelTables(), IfTable, |shipped.RelTables()|)
    || AnyBlocks(d.objects, shipped.named, Always, |shipped.named|)
    || CopiesBlocked(d.objects, shipped)
  }

  ghost predicate CopiesBlocked(objects: Objects, shipped: Shipped)
    requires shipped.WellFormed()
  {
    || (exists i :: 0 <= i < 2
                    && CannotCopy(objects, shipped.columned[i], Lacking(Provider), shipped.columnedCopies[i]))
    || (exists i :: 0 <= i < |shipped.providers|
                    && CannotCopyEdges(objects, Relationships(shipped.providers[i]), shipped.relCopy))
    || (exists i :: 0 <= i < |shipped.named| && CannotCopy(objects, shipped.named[i], Always, shipped.namedCopies[i]))
  }

  /** What stops an upgrade: a newer database, legacy tables that stop version 1, or the definitions of
      a version that is still to be applied. */
  ghost predicate Blocked(d: Database, shipped: Shipped)
    requires shipped.WellFormed()
  {
    var from := Floor(Version(d.ledger));
    || from > LATEST
    || (from < 1 && LegacyBlocked(d, shipped))
    || exists v: int :: from < v <= LATEST && DdlBlocked(d.objects, shipped, from, v)
  }

  // ---------------------------------------------------------------- the steps of version 1

  /** The canonical names are free, each legacy table that had one is under its archive name, and the
      tables and views of version 1 are there. */
  ghost predicate MadeRoom(before: Objects, now: Objects, shipped: Shipped) {
    && (forall p :: p in shipped.providers && ShouldMove(before, Relationships(p), IfTable) ==>
          Archived(before, now, Relationships(p)))
    && (forall t :: t in shipped.columned && ShouldMove(before, t, Lacking(Provider)) ==> Archived(before, now, t))
    && (forall t :: t in shipped.named ==> SameAt(before, now, t) && SameAt(before, now, Archive(t)))
  }

  ghost predicate MovedTables(before: Objects, moved: seq<bool>, tables: seq<Name>, rule: Rule) {
    && |moved| == |tables|
    && forall i :: 0 <= i < |moved| ==> moved[i] == ShouldMove(before, tables[i], rule)
  }

  /** The first n providers' moved tables are copied; edges of all other providers are as before. */
  ghost predicate CopiedFirst(before: Database, edges: Edges, providers: seq<string>, moved: seq<bool>, n: nat)
    requires n <= |moved| == |providers|
  {
    && (forall i :: 0 <= i < n && moved[i] ==>
          var archive := Archive(Relationships(providers[i]));
          && archive in before.objects && before.objects[archive].Base?
          && RowsMerged(before.edges, edges, before.objects[archive].rows, providers[i]))
    && (forall q: string :: !CopiedFor(q, providers, moved, n) ==> SameFor(before.edges, edges, q))
  }

  ghost predicate CopiedFor(q: string, providers: seq<string>, moved: seq<bool>, n: nat)
    requires n <= |moved| == |providers|
  {
    exists i :: 0 <= i < n && moved[i] && providers[i] == q
  }

  lemma CopiedMore(before: Database, mid: Edges, now: Edges, providers: seq<string>, moved: seq<bool>, n: nat)
    requires n < |moved| == |providers| && Distinct(providers)
    requires CopiedFirst(before, mid, providers, moved, n)
    requires if moved[n] then
        var archive := Archive(Relationships(providers[n]));
        && archive in before.objects && before.objects[archive].Base? && DistinctRows(before.objects[archive].rows)
        && now == CopyRows(mid, before.objects[archive].rows, providers[n])
      else now == mid
    ensures CopiedFirst(before, now, providers, moved, n + 1)
  {
    forall q: string | q != providers[n] || !moved[n] ensures SameFor(mid, now, q) {
      if moved[n] {
        CopyRowsCopies(mid, before.objects[Archive(Relationships(providers[n]))].rows, providers[n], q);
      }
    }
    forall i | 0 <= i < n + 1 && moved[i]
      ensures var archive := Archive(Relationships(providers[i]));
        && archive in before.objects && before.objects[archive].Base?
        && RowsMerged(before.edges, now, before.objects[archive].rows, providers[i])
    {
      var rows := before.objects[Archive(Relationships(providers[i]))].rows;
      if i == n {
        CopyRowsCopies(mid, rows, providers[n], "");
        assert !CopiedFor(providers[n], providers, moved, n);
      }
      MergedStays(before.edges, mid, now, rows, providers[i]);
    }
    forall q: string | !CopiedFor(q, providers, moved, n + 1) ensures SameFor(before.edges, now, q) {
      assert q != providers[n] || !moved[n];
      assert !CopiedFor(q, providers, moved, n);
      assert SameFor(before.edges, mid, q) && SameFor(mid, now, q);
      forall e: Edge | e.provider == q ensures SameEdge(before.edges, now, e) {
        assert SameEdge(before.edges, mid, e) && SameEdge(mid, now, e);
      }
    }
  }

  /** The last steps keep every other archive, add those of the cross-cloud tables, and leave the views. */
  ghost predicate Finished(before: Objects, now: Objects, shipped: Shipped) {
    && (forall t: Name :: t !in shipped.named ==> SameAt(before, now, Archive(t)))
    && (forall name :: Settled(name, shipped) ==> SameAt(before, now, name))
    && (forall t :: t in shipped.named && ShouldMove(before, t, Always) ==> Archived(before, now, t))
    && (forall p :: p in shipped.providers ==> Relationships(p) in now && now[Relationships(p)] == View(p))
  }

  /** An archive that is yet to be copied cannot be. */
  predicate ArchiveUnfit(objects: Objects, table: Name, copy: Copy) {
    Archive(table) in objects && objects[Archive(table)].Base?
    && !copy.Fits(objects[Archive(table)].columns, objects[Archive(table)].rows)
  }

  predicate EdgesUnfit(objects: Objects, table: Name, copy: Copy) {
    Archive(table) in objects && objects[Archive(table)].Base?
    && !(copy.Fits(objects[Archive(table)].columns, objects[Archive(table)].rows)
         && DistinctRows(objects[Archive(table)].rows))
  }

  ghost predicate AnyUnfit(objects: Objects, tables: seq<Name>, moved: seq<bool>, copies: seq<Copy>, n: nat)
    requires n <= |tables| == |moved| == |copies|
  {
    exists i :: 0 <= i < n && moved[i] && ArchiveUnfit(objects, tables[i], copies[i])
  }

  ghost predicate AnyEdgesUnfit(objects: Objects, providers: seq<string>, moved: seq<bool>, copy: Copy, n: nat)
    requires n <= |providers| == |moved|
  {
    exists i :: 0 <= i < n && moved[i] && EdgesUnfit(objects, Relationships(providers[i]), copy)
  }

  // ---------------------------------------------------------------- the store

  class SchemaStore {
    const shipped: Shipped
    var db: Database
    var tx: Database
    var left: nat  // statements that succeed before one fails

    method Exec() returns (ok: bool)
      modifies this`left
      ensures ok <==> old(left) > 0
      ensures !ok ==> left == 0
    {
      ok := left > 0;
      left := if ok then left - 1 else 0;
    }

    /** renameLegacyTable, after the check that the archive name is free. */
    method MoveAside(table: Name) returns (ok: bool)
      requires table in tx.objects && tx.objects[table].Base?
      modifies this`tx, this`left
      ensures ok ==> Archive(table) !in old(tx).objects && tx == old(tx).(objects := Aside(old(tx).objects, table))
      ensures !ok ==> left == 0 || Archive(table) in old(tx).objects
    {
      if Archive(table) in tx.objects {
        return false;
      }
      var indexes := tx.objects[table].indexes;
      ghost var start := tx;
      while indexes != {}
        invariant table in tx.objects && tx.objects[table].Base? && Archive(table) !in tx.objects
        invariant tx.objects[table].indexes == indexes
        invariant tx == start.(objects := start.objects[table := start.objects[table].(indexes := indexes)])
      {
        var index :| index in indexes;
        ok := Exec();
        if !ok {
          return;
        }
        indexes := indexes - {index};
        tx := tx.(objects := tx.objects[table := tx.objects[table].(indexes := indexes)]);
      }
      ok := Exec();
      if ok {
        tx := tx.(objects := tx.objects[Archive(table) := tx.objects[table]] - {table});
      }
    }

    /** Looks at one table: moves it aside, leaves it alone, or fails. */
    method ArchiveOne(table: Name, rule: Rule) returns (ok: bool, moved: bool)
      modifies this`tx, this`left
      ensures ok ==> moved == ShouldMove(old(tx).objects, table, rule) && !Blocks(old(tx).objects, table, rule)
      ensures ok && !moved ==> tx == old(tx)
      ensures ok && moved ==> tx == old(tx).(objects := Aside(old(tx).objects, table))
      ensures !ok ==> left == 0 || Blocks(old(tx).objects, table, rule)
    {
      if table !in tx.objects {
        return true, false;
      }
      if !tx.objects[table].Base? {
        return rule.IfTable?, false;
      }
      if rule.Lacking? && rule.column in tx.objects[table].columns {
        return true, false;
      }
      ok := MoveAside(table);
      moved := true;
    }

    /** Looks at several tables in turn. */
    method ArchiveAll(tables: seq<Name>, rule: Rule) returns (ok: bool, moved: seq<bool>)
      requires Movable(tables)
      modifies this`tx, this`left
      ensures ok ==> tx == old(tx).(objects := tx.objects)
      ensures ok ==> ArchivedFirst(old(tx).objects, tx.objects, tables, rule, |tables|)
      ensures ok ==> MovedTables(old(tx).objects, moved, tables, rule)
      ensures ok ==> !AnyBlocks(old(tx).objects, tables, rule, |tables|)
      ensures !ok ==> left == 0 || AnyBlocks(old(tx).objects, tables, rule, |tables|)
    {
      moved := [];
      for i := 0 to |tables|
        invariant tx == old(tx).(objects := tx.objects) && |moved| == i
        invariant ArchivedFirst(old(tx).objects, tx.objects, tables, rule, i)
        invariant !AnyBlocks(old(tx).objects, tables, rule, i)
        invariant forall j :: 0 <= j < i ==> moved[j] == ShouldMove(old(tx).objects, tables[j], rule)
      {
        ghost var before := tx.objects;
        BlocksAlike(old(tx).objects, before, tables, rule, i);
        var one;
        ok, one := ArchiveOne(tables[i], rule);
        if !ok {
          return;
        }
        ArchivedMore(old(tx).objects, before, tx.objects, tables, rule, i);
        moved := moved + [one];
      }
      ok := true;
    }

    /** The table and view definitions of one version. */
    method Define(v: int) returns (ok: bool)
      modifies this`tx, this`left
      ensures ok ==> DdlFits(old(tx).objects, shipped, v) && tx == old(tx).(objects := Ddl(old(tx).objects, shipped, v))
      ensures !ok ==> left == 0 || !DdlFits(old(tx).objects, shipped, v)
    {
      if !DdlFits(tx.objects, shipped, v) {
        return false;
      }
      ok := Exec();
      if ok {
        tx := tx.(objects := Ddl(tx.objects, shipped, v));
      }
    }

    /** A statement that copies the rows of an archive that was just made. */
    method CopyArchive(table: Name, copy: Copy) returns (ok: bool)
      requires Archive(table) in tx.objects && tx.objects[Archive(table)].Base?
      modifies this`left
      ensures ok ==> !ArchiveUnfit(tx.objects, table, copy)
      ensures !ok ==> left == 0 || ArchiveUnfit(tx.objects, table, copy)
    {
      var archive := tx.objects[Archive(table)];
      if !copy.Fits(archive.columns, archive.rows) {
        return false;
      }
      ok := Exec();
    }

    /** Copies archives whose rows the model does not follow further. */
    method CopyArchives(tables: seq<Name>, moved: seq<bool>, copies: seq<Copy>) returns (ok: bool)
      requires |moved| == |tables| == |copies|
      requires forall i :: 0 <= i < |moved| && moved[i] ==>
        Archive(tables[i]) in tx.objects && tx.objects[Archive(tables[i])].Base?
      modifies this`left
      ensures ok ==> !AnyUnfit(tx.objects, tables, moved, copies, |tables|)
      ensures !ok ==> left == 0 || AnyUnfit(tx.objects, tables, moved, copies, |tables|)
    {
      for i := 0 to |tables|
        invariant !AnyUnfit(tx.objects, tables, moved, copies, i)
      {
        if moved[i] {
          ok := CopyArchive(tables[i], copies[i]);
          if !ok {
            return;
          }
        }
      }
      ok := true;
    }

    /** Copies the rows of the moved relationship tables into cloud_relationships. */
    method CopyRelationships(moved: seq<bool>) returns (ok: bool)
      requires |moved| == |shipped.providers| && Distinct(shipped.providers)
      requires forall i :: 0 <= i < |moved| && moved[i] ==>
        && Archive(Relationships(shipped.providers[i])) in tx.objects
        && tx.objects[Archive(Relationships(shipped.providers[i]))].Base?
      modifies this`tx, this`left
      ensures ok ==> tx == old(tx).(edges := tx.edges)
      ensures ok ==> CopiedFirst(old(tx), tx.edges, shipped.providers, moved, |moved|)
      ensures ok ==> !AnyEdgesUnfit(old(tx).objects, shipped.providers, moved, shipped.relCopy, |moved|)
      ensures !ok ==> left == 0 || AnyEdgesUnfit(old(tx).objects, shipped.providers, moved, shipped.relCopy, |moved|)
    {
      for i := 0 to |moved|
        invariant tx == old(tx).(edges := tx.edges)
        invariant CopiedFirst(old(tx), tx.edges, shipped.providers, moved, i)
        invariant !AnyEdgesUnfit(old(tx).objects, shipped.providers, moved, shipped.relCopy, i)
      {
        ghost var before := tx.edges;
        if moved[i] {
          ok := CopyOne(shipped.providers[i]);
          if !ok {
            return;
          }
        }
        CopiedMore(old(tx), before, tx.edges, shipped.providers, moved, i);
      }
      ok := true;
    }

    /** Copies the rows of one provider's archive. */
    method CopyOne(provider: string) returns (ok: bool)
      requires Archive(Relationships(provider)) in tx.objects && tx.objects[Archive(Relationships(provider))].Base?
      modifies this`tx, this`left
      ensures ok ==> !EdgesUnfit(old(tx).objects, Relationships(provider), shipped.relCopy)
      ensures ok ==> tx == old(tx).(edges :=
        CopyRows(old(tx).edges, old(tx).objects[Archive(Relationships(provider))].rows, provider))
      ensures !ok ==> left == 0 || EdgesUnfit(old(tx).objects, Relationships(provider), shipped.relCopy)
    {
      var archive := tx.objects[Archive(Relationships(provider))];
      if !shipped.relCopy.Fits(archive.columns, archive.rows) || !DistinctRows(archive.rows) {
        return false;
      }
      ok := Exec();
      if ok {
        tx := tx.(edges := CopyRows(tx.edges, archive.rows, provider));
      }
    }

    /** migrateSchemaV1. */
    method MigrateV1() returns (ok: bool)
      requires shipped.WellFormed()
      modifies this`tx, this`left
      ensures ok ==> LegacyMoved(old(tx), tx, shipped)
      ensures ok ==> KindsAt(old(tx).objects, shipped, 0, 1, tx.objects)
      ensures ok ==> Defined(old(tx).objects, tx.objects, shipped, 0, 1)
      ensures ok ==> tx.ledger == old(tx).ledger && tx.macros == old(tx).macros
      ensures ok ==> !LegacyBlocked(old(tx), shipped) && !DdlBlocked(old(tx).objects, shipped, 0, 1)
      ensures !ok ==> left == 0 || LegacyBlocked(old(tx), shipped) || DdlBlocked(old(tx).objects, shipped, 0, 1)
    {
      ghost var start := tx;
      var columned, relationships;
      ok, columned, relationships := MoveLegacy();
      if !ok { return; }
      ghost var created := tx;
      BlockedLater(start, created.objects, columned, relationships, shipped);
      ok := CopyLegacy(columned, relationships);
      if !ok { return; }
      ghost var copied := tx;
      ok := Finish();
      if !ok { return; }
      Concludes(start, created, copied, tx, relationships, shipped);
      DefinedStays(start.objects, copied.objects, tx.objects, shipped, 0, 1);
    }

    /** The canonical names are made free and the canonical tables and views defined. */
    method MoveLegacy() returns (ok: bool, columned: seq<bool>, relationships: seq<bool>)
      requires shipped.WellFormed()
      modifies this`tx, this`left
      ensures ok ==> tx == old(tx).(objects := tx.objects) && MadeRoom(old(tx).objects, tx.objects, shipped)
      ensures ok ==> KindsAt(old(tx).objects, shipped, 0, 1, tx.objects)
      ensures ok ==> Defined(old(tx).objects, tx.objects, shipped, 0, 1)
      ensures ok ==> MovedTables(old(tx).objects, columned, shipped.columned, Lacking(Provider))
      ensures ok ==> MovedTables(old(tx).objects, relationships, shipped.RelTables(), IfTable)
      ensures ok ==> !RoomBlocked(old(tx).objects, shipped)
      ensures !ok ==> left == 0 || RoomBlocked(old(tx).objects, shipped)
    {
      ghost var o0 := tx.objects;
      columned, relationships := [], [];
      RelTablesMovable(shipped);
      ok, columned := ArchiveAll(shipped.columned, Lacking(Provider));
      if !ok { return; }
      ghost var o1 := tx.objects;
      RelTablesUntouched(o0, o1, shipped);
      ok, relationships := ArchiveAll(shipped.RelTables(), IfTable);
      if !ok { return; }
      ghost var o2 := tx.objects;
      KindsBeforeTables(o0, o1, o2, shipped);
      ok := Define(1);
      if !ok { return; }
      AfterArchives(o0, o1, o2, relationships, shipped);
      DefinedFirst(o0, o1, o2, shipped);
    }

    /** Copies the archived scans, API actions and relationships into the canonical tables. */
    method CopyLegacy(columned: seq<bool>, relationships: seq<bool>) returns (ok: bool)
      requires shipped.WellFormed() && |columned| == 2 && |relationships| == |shipped.providers|
      requires forall i :: 0 <= i < 2 && columned[i] ==>
        Archive(shipped.columned[i]) in tx.objects && tx.objects[Archive(shipped.columned[i])].Base?
      requires forall i :: 0 <= i < |relationships| && relationships[i] ==>
        && Archive(Relationships(shipped.providers[i])) in tx.objects
        && tx.objects[Archive(Relationships(shipped.providers[i]))].Base?
      modifies this`tx, this`left
      ensures ok ==> tx == old(tx).(edges := tx.edges, scans := tx.scans)
      ensures ok ==> CopiedFirst(old(tx), tx.edges, shipped.providers, relationships, |relationships|)
      ensures ok ==> tx.scans == old(tx).scans + CopiedIds(tx.objects, columned[0], shipped)
      ensures ok ==> !LegacyUnfit(old(tx).objects, columned, relationships, shipped)
      ensures !ok ==> left == 0 || LegacyUnfit(old(tx).objects, columned, relationships, shipped)
    {
      ok := CopyArchives(shipped.columned, columned, shipped.columnedCopies);
      if !ok { return; }
      if columned[0] {
        tx := tx.(scans := tx.scans + Ids(tx.objects[Archive(shipped.columned[0])].rows));
      }
      ghost var scans := tx;
      ok := CopyRelationships(relationships);
      if ok {
        CopiedFromScans(old(tx), scans, tx.edges, shipped.providers, relationships);
      }
    }

    /** Moves the cross-cloud tables aside, copies them, and puts the compatibility views in place. */
    method Finish() returns (ok: bool)
      requires shipped.WellFormed()
      modifies this`tx, this`left
      ensures ok ==> tx == old(tx).(objects := tx.objects) && Finished(old(tx).objects, tx.objects, shipped)
      ensures ok ==> !NamedBlocked(old(tx).objects, shipped)
      ensures !ok ==> left == 0 || NamedBlocked(old(tx).objects, shipped)
    {
      ghost var o3 := tx.objects;
      var named;
      ok, named := ArchiveAll(shipped.named, Always);
      if !ok { return; }
      ghost var o4 := tx.objects;
      NamedArchives(o3, o4, named, shipped);
      ok := CopyArchives(shipped.named, named, shipped.namedCopies);
      if !ok { return; }
      ok := CreateViews();
      if !ok { return; }
      AllArchived(o3, o4, tx.objects, shipped);
    }

    method CreateViews() returns (ok: bool)
      modifies this`tx, this`left
      ensures ok ==> tx == old(tx).(objects := WithViews(old(tx).objects, shipped.providers, |shipped.providers|))
      ensures !ok ==> left == 0
    {
      for i := 0 to |shipped.providers|
        invariant tx == old(tx).(objects := WithViews(old(tx).objects, shipped.providers, i))
      {
        ok := Exec();
        if !ok {
          return;
        }
        var provider := shipped.providers[i];
        tx := tx.(objects := tx.objects[Relationships(provider) := View(provider)]);
      }
      ok := true;
    }

    /** migrateSchemaV2 to V7. Version 3 defines macros and no tables. */
    method MigrateLater(v: int) returns (ok: bool)
      requires 2 <= v <= LATEST && shipped.WellFormed()
      modifies this`tx, this`left
      ensures ok ==> DdlFits(old(tx).objects, shipped, v)
      ensures ok ==> tx == old(tx).(objects := Ddl(old(tx).objects, shipped, v),
                                    macros := if v == 3 then old(tx).macros + shipped.macros else old(tx).macros)
      ensures !ok ==> left == 0 || !DdlFits(old(tx).objects, shipped, v)
    {
      ok := Define(v);
      if ok && v == 3 {
        tx := tx.(macros := tx.macros + shipped.macros);
      }
    }

    /** Inserts one version into the ledger, whose primary key it cannot hit. */
    method Record(v: int) returns (ok: bool)
      requires forall e :: e in tx.ledger ==> e.0 < v
      modifies this`tx, this`left
      ensures !ok ==> left == 0
      ensures ok ==> tx == old(tx).(ledger := old(tx).ledger + [(v, VersionName(v))])
    {
      ok := Exec();
      if ok {
        tx := tx.(ledger := tx.ledger + [(v, VersionName(v))]);
      }
    }

    /** One version's block of EnsureSchema, run when the ledger is below it. */
    method Upgrade(version: int, v: int, ghost start: Database) returns (ok: bool)
      requires 1 <= v <= LATEST && shipped.WellFormed() && version <= LATEST
      requires version == Version(start.ledger) && Reached(start, tx, v - 1, shipped)
      modifies this`tx, this`left
      ensures !ok ==> left == 0 || Blocked(start, shipped)
      ensures ok ==> Reached(start, tx, v, shipped)
    {
      if version >= v {
        DefinedAtStart(start.objects, shipped, version);
        return true;
      }
      ghost var before := tx;
      if v == 1 {
        ok := MigrateV1();
      } else {
        LaterFits(start, tx, v, shipped);
        ok := MigrateLater(v);
      }
      if !ok {
        return;
      }
      ghost var mid := tx;
      LedgerBelow(start.ledger, v);
      LedgerNext(start.ledger, Floor(version), v);
      ok := Record(v);
      if ok && v == 1 {
        ReachedFirst(start, mid, tx, shipped);
      } else if ok {
        ReachedNext(start, before, mid, tx, v, shipped);
      }
    }

    /** The blocks of versions 1 and 2. */
    method UpgradeToProviders(version: int, ghost start: Database) returns (ok: bool)
      requires shipped.WellFormed() && version <= LATEST
      requires version == Version(start.ledger) && Reached(start, tx, 0, shipped)
      modifies this`tx, this`left
      ensures !ok ==> left == 0 || Blocked(start, shipped)
      ensures ok ==> Reached(start, tx, 2, shipped)
    {
      ok := Upgrade(version, 1, start);
      if ok {
        ok := Upgrade(version, 2, start);
      }
    }

    /** The blocks of versions 3 and 4. */
    method UpgradeToObservations(version: int, ghost start: Database) returns (ok: bool)
      requires shipped.WellFormed() && version <= LATEST
      requires version == Version(start.ledger) && Reached(start, tx, 2, shipped)
      modifies this`tx, this`left
      ensures !ok ==> left == 0 || Blocked(start, shipped)
      ensures ok ==> Reached(start, tx, 4, shipped)
    {
      ok := Upgrade(version, 3, start);
      if ok {
        ok := Upgrade(version, 4, start);
      }
    }

    /** The blocks of versions 5 and 6. */
    method UpgradeToFindings(version: int, ghost start: Database) returns (ok: bool)
      requires shipped.WellFormed() && version <= LATEST
      requires version == Version(start.ledger) && Reached(start, tx, 4, shipped)
      modifies this`tx, this`left
      ensures !ok ==> left == 0 || Blocked(start, shipped)
      ensures ok ==> Reached(start, tx, 6, shipped)
    {
      ok := Upgrade(version, 5, start);
      if ok {
        ok := Upgrade(version, 6, start);
      }
    }

    /** Brings the schema to the version of this binary, in one transaction. Apart from statements that
        fail, it succeeds exactly when nothing blocks it; otherwise the database is as it was. */
    method EnsureSchema() returns (ok: bool)
      requires shipped.WellFormed()
      modifies this
      ensures !ok ==> db == old(db)
      ensures ok ==> Ensured(old(db), db, shipped) && !Blocked(old(db), shipped)
      ensures ok ==> forall v: int :: Floor(Version(old(db).ledger)) < v <= 7 ==>
        InPlace(old(db).objects, db.objects, shipped, Floor(Version(old(db).ledger)), v)
      ensures !ok ==> left == 0 || Blocked(old(db), shipped)
    {
      ok := Exec();
      if !ok {
        return;
      }
      tx := db;
      ghost var start := tx;
      var version := Version(tx.ledger);
      if version > LATEST {
        return false;
      }
      ReachedAtStart(start, shipped);
      ok := UpgradeToProviders(version, start);
      if !ok { return; }
      ok := UpgradeToObservations(version, start);
      if !ok { return; }
      ok := UpgradeToFindings(version, start);
      if !ok { return; }
      ok := Upgrade(version, LATEST, start);
      if !ok { return; }
      ok := HelpersAndCommit(start);
      if ok {
        AllInPlace(start, db, shipped);
      }
    }

    /** The query helpers, whatever the version was, and the commit. */
    method HelpersAndCommit(ghost start: Database) returns (ok: bool)
      requires shipped.WellFormed() && Version(start.ledger) <= LATEST && Reached(start, tx, LATEST, shipped)
      modifies this
      ensures !ok ==> db == old(db) && left == 0
      ensures ok ==> Ensured(start, db, shipped) && !Blocked(start, shipped)
    {
      ok := Exec();
      if !ok { return; }
      ghost var migrated := tx;
      tx := tx.(macros := tx.macros + shipped.macros);
      ok := Exec();
      if ok {
        db := tx;
        EnsuredAtEnd(start, migrated, shipped);
      }
    }
  }

  // ---------------------------------------------------------------- what stops the steps of version 1

  /** What stops the first step of version 1. */
  ghost predicate RoomBlocked(objects: Objects, shipped: Shipped) {
    || AnyBlocks(objects, shipped.columned, Lacking(Provider), |shipped.columned|)
    || AnyBlocks(objects, shipped.RelTables(), IfTable, |shipped.RelTables()|)
    || DdlBlocked(objects, shipped, 0, 1)
  }

  ghost predicate LegacyUnfit(objects: Objects, columned: seq<bool>, relationships: seq<bool>, shipped: Shipped)
    requires shipped.WellFormed() && |columned| == 2 && |relationships| == |shipped.providers|
  {
    || AnyUnfit(objects, shipped.columned, columned, shipped.columnedCopies, 2)
    || AnyEdgesUnfit(objects, shipped.providers, relationships, shipped.relCopy, |relationships|)
  }

  ghost predicate NamedBlocked(objects: Objects, shipped: Shipped)
    requires |shipped.named| == |shipped.namedCopies|
  {
    || AnyBlocks(objects, shipped.named, Always, |shipped.named|)
    || exists i :: 0 <= i < |shipped.named| && CannotCopy(objects, shipped.named[i], Always, shipped.namedCopies[i])
  }

  function CopiedIds(objects: Objects, moved: bool, shipped: Shipped): set<string>
    requires |shipped.columned| == 2
    requires moved ==> Archive(shipped.columned[0]) in objects && objects[Archive(shipped.columned[0])].Base?
  {
    if moved then Ids(objects[Archive(shipped.columned[0])].rows) else {}
  }

  lemma RelTablesMovable(shipped: Shipped)
    requires shipped.WellFormed()
    ensures Movable(shipped.columned) && Movable(shipped.RelTables()) && Movable(shipped.named)
  {
    var tables := shipped.RelTables();
    forall i, j | 0 <= i < j < |tables| ensures tables[i] != tables[j] {
      assert shipped.providers[i] != shipped.providers[j];
    }
  }

  lemma RelTablesUntouched(o0: Objects, o1: Objects, shipped: Shipped)
    requires shipped.WellFormed() && ArchivedFirst(o0, o1, shipped.columned, Lacking(Provider), |shipped.columned|)
    ensures forall p: string :: SameAt(o0, o1, Relationships(p))
    ensures AnyBlocks(o0, shipped.RelTables(), IfTable, |shipped.RelTables()|)
       <==> AnyBlocks(o1, shipped.RelTables(), IfTable, |shipped.RelTables()|)
  {
    forall p: string ensures SameAt(o0, o1, Relationships(p)) && SameAt(o0, o1, Archive(Relationships(p))) {
      assert Relationships(p) !in shipped.columned && Archive(Relationships(p)) !in shipped.columned;
      NotInvolved(Relationships(p), shipped.columned);
      NotInvolved(Archive(Relationships(p)), shipped.columned);
    }
    forall t | t in shipped.RelTables() ensures SameAt(o0, o1, t) && SameAt(o0, o1, Archive(t)) {
      assert t == Relationships(t.provider);
    }
    SameBlocks(o0, o1, shipped.RelTables(), IfTable);
  }

  /** Moving tables aside changes no kind but those of tables that version 1 creates again. */
  lemma KindsBeforeTables(o0: Objects, o1: Objects, o2: Objects, shipped: Shipped)
    requires shipped.WellFormed()
    requires ArchivedFirst(o0, o1, shipped.columned, Lacking(Provider), |shipped.columned|)
    requires ArchivedFirst(o1, o2, shipped.RelTables(), IfTable, |shipped.providers|)
    ensures forall t :: Settled(t, shipped) ==>
      KindOf(o2, t) == KindOf(o0, t) || (KindOf(o2, t).Absent? && KindOf(o0, t).Table? && t in shipped.Created(1))
    ensures DdlFits(o2, shipped, 1) <==> !DdlBlocked(o0, shipped, 0, 1)
    ensures DdlFits(o2, shipped, 1) ==> KindsAt(o0, shipped, 0, 1, Ddl(o2, shipped, 1))
  {
    forall t | Settled(t, shipped)
      ensures KindOf(o2, t) == KindOf(o0, t)
              || (KindOf(o2, t).Absent? && KindOf(o0, t).Table? && t in shipped.Created(1))
    {
      NotInvolved(t, shipped.RelTables());
      assert SameAt(o1, o2, t);
      if t in shipped.columned {
        var i :| 0 <= i < |shipped.columned| && shipped.columned[i] == t;
        assert ShouldMove(o0, shipped.columned[i], Lacking(Provider)) || SameAt(o0, o1, shipped.columned[i]);
      } else {
        NotInvolved(t, shipped.columned);
        assert SameAt(o0, o1, t);
      }
    }
    assert shipped.Handled(1);
    FitsAfterMoves(o0, o2, shipped);
    if DdlFits(o2, shipped, 1) {
      KindsAfterMoves(o0, o2, shipped);
    }
  }

  /** What version 1 defines: a table that was moved aside is made anew, every other one is extended. */
  lemma DefinedFirst(o0: Objects, o1: Objects, o2: Objects, shipped: Shipped)
    requires shipped.WellFormed() && DdlFits(o2, shipped, 1)
    requires ArchivedFirst(o0, o1, shipped.columned, Lacking(Provider), |shipped.columned|)
    requires ArchivedFirst(o1, o2, shipped.RelTables(), IfTable, |shipped.providers|)
    ensures Defined(o0, Ddl(o2, shipped, 1), shipped, 0, 1)
  {
    forall t | Settled(t, shipped) ensures DefinedAt(o0, o2, shipped, 0, 0, t) {
      NotInvolved(t, shipped.RelTables());
      assert SameAt(o1, o2, t);
      if t in shipped.columned {
        var i :| 0 <= i < |shipped.columned| && shipped.columned[i] == t;
        assert if ShouldMove(o0, shipped.columned[i], Lacking(Provider)) then shipped.columned[i] !in o1
               else SameAt(o0, o1, shipped.columned[i]);
      } else {
        NotInvolved(t, shipped.columned);
        assert SameAt(o0, o1, t);
      }
    }
    assert shipped.Handled(1);
    DdlDefines(o0, o2, shipped, 0, 1);
  }

  lemma FitsAfterMoves(o0: Objects, o2: Objects, shipped: Shipped)
    requires shipped.Handled(1)
    requires forall t :: Settled(t, shipped) ==>
      KindOf(o2, t) == KindOf(o0, t) || (KindOf(o2, t).Absent? && KindOf(o0, t).Table? && t in shipped.Created(1))
    ensures DdlFits(o2, shipped, 1) <==> !DdlBlocked(o0, shipped, 0, 1)
  {
    forall t | t in shipped.Created(1) || t in shipped.Added(1) || t in shipped.Views(1)
      ensures Settled(t, shipped) && KindAt(o0, shipped, 0, 0, t) == KindOf(o0, t)
      ensures t in shipped.Views(1) ==> t !in shipped.Created(1) && t !in shipped.Added(1)
    {
      assert t in shipped.Created(1) ==> shipped.IsTable(t);
      assert t in shipped.Added(1) ==> shipped.IsTable(t);
    }
    if t: Name :| Misfit(o0, shipped, 0, 1, t) {
      assert !DdlFits(o2, shipped, 1);
    }
    if !DdlBlocked(o0, shipped, 0, 1) {
      forall t | t in shipped.Created(1) || t in shipped.Added(1) || t in shipped.Views(1)
        ensures !Misfit(o0, shipped, 0, 1, t)
      {
      }
      assert DdlFits(o2, shipped, 1);
    }
  }

  lemma KindsAfterMoves(o0: Objects, o2: Objects, shipped: Shipped)
    requires shipped.Handled(1) && DdlFits(o2, shipped, 1)
    requires forall t :: Settled(t, shipped) ==>
      KindOf(o2, t) == KindOf(o0, t) || (KindOf(o2, t).Absent? && KindOf(o0, t).Table? && t in shipped.Created(1))
    ensures KindsAt(o0, shipped, 0, 1, Ddl(o2, shipped, 1))
  {
    forall t | Settled(t, shipped) ensures KindOf(Ddl(o2, shipped, 1), t) == KindAt(o0, shipped, 0, 1, t) {
      assert KindAt(o0, shipped, 0, 1 - 1, t) == KindOf(o0, t);
      assert t in shipped.Created(1) ==> shipped.IsTable(t);
    }
  }

  /** After the first two rounds of moves every moved table's archive has its rows. */
  lemma AfterArchives(o0: Objects, o1: Objects, o2: Objects, moved: seq<bool>, shipped: Shipped)
    requires shipped.WellFormed() && DdlFits(o2, shipped, 1)
    requires ArchivedFirst(o0, o1, shipped.columned, Lacking(Provider), |shipped.columned|)
    requires ArchivedFirst(o1, o2, shipped.RelTables(), IfTable, |shipped.providers|)
    requires MovedTables(o1, moved, shipped.RelTables(), IfTable)
    ensures MadeRoom(o0, Ddl(o2, shipped, 1), shipped)
    ensures MovedTables(o0, moved, shipped.RelTables(), IfTable)
  {
    var columned, tables, o3 := shipped.columned, shipped.RelTables(), Ddl(o2, shipped, 1);
    RelTablesUntouched(o0, o1, shipped);
    DdlKeeps(o2, shipped, 1);
    forall i | 0 <= i < |moved| ensures moved[i] == ShouldMove(o0, tables[i], IfTable) {
      assert tables[i] == Relationships(shipped.providers[i]);
    }
    forall p | p in shipped.providers && ShouldMove(o0, Relationships(p), IfTable)
      ensures Archived(o0, o3, Relationships(p))
    {
      var i :| 0 <= i < |shipped.providers| && shipped.providers[i] == p;
      assert tables[i] == Relationships(p);
      assert ShouldMove(o1, tables[i], IfTable);
      assert SameAt(o2, o3, Archive(Relationships(p)));
    }
    forall t | t in columned && ShouldMove(o0, t, Lacking(Provider)) ensures Archived(o0, o3, t) {
      var i :| 0 <= i < |columned| && columned[i] == t;
      NotInvolved(Archive(t), tables);
      assert SameAt(o1, o2, Archive(t)) && SameAt(o2, o3, Archive(t));
    }
    forall t | t in shipped.named ensures SameAt(o0, o3, t) && SameAt(o0, o3, Archive(t)) {
      NotInvolved(t, columned);
      NotInvolved(t, tables);
      NotInvolved(Archive(t), columned);
      NotInvolved(Archive(t), tables);
      assert SameAt(o0, o1, t) && SameAt(o0, o1, Archive(t));
      assert SameAt(o1, o2, t) && SameAt(o1, o2, Archive(t));
    }
  }

  /** What is in the way of the later steps of version 1 was so from the start. */
  lemma BlockedLater(start: Database, now: Objects, columned: seq<bool>, relationships: seq<bool>, shipped: Shipped)
    requires shipped.WellFormed() && MadeRoom(start.objects, now, shipped)
    requires MovedTables(start.objects, columned, shipped.columned, Lacking(Provider))
    requires MovedTables(start.objects, relationships, shipped.RelTables(), IfTable)
    requires !RoomBlocked(start.objects, shipped)
    ensures LegacyBlocked(start, shipped) <==>
      LegacyUnfit(now, columned, relationships, shipped) || NamedBlocked(now, shipped)
  {
    var before := start.objects;
    SameBlocks(before, now, shipped.named, Always);
    forall i | 0 <= i < 2
      ensures (columned[i] && ArchiveUnfit(now, shipped.columned[i], shipped.columnedCopies[i]))
         <==> CannotCopy(before, shipped.columned[i], Lacking(Provider), shipped.columnedCopies[i])
    {
      assert shipped.columned[i] in shipped.columned;
    }
    forall i | 0 <= i < |relationships|
      ensures (relationships[i] && EdgesUnfit(now, Relationships(shipped.providers[i]), shipped.relCopy))
         <==> CannotCopyEdges(before, Relationships(shipped.providers[i]), shipped.relCopy)
    {
      assert shipped.RelTables()[i] == Relationships(shipped.providers[i]) && shipped.providers[i] in shipped.providers;
    }
    forall i | 0 <= i < |shipped.named|
      ensures CannotCopy(now, shipped.named[i], Always, shipped.namedCopies[i])
         <==> CannotCopy(before, shipped.named[i], Always, shipped.namedCopies[i])
    {
      assert SameAt(before, now, shipped.named[i]);
    }
  }

  lemma CopiedFromScans(before: Database, mid: Database, edges: Edges, providers: seq<string>, moved: seq<bool>)
    requires |moved| == |providers| && mid.objects == before.objects && mid.edges == before.edges
    requires CopiedFirst(mid, edges, providers, moved, |moved|)
    ensures CopiedFirst(before, edges, providers, moved, |moved|)
  {
  }

  /** The archives that Finish makes hold what the cross-cloud tables held. */
  lemma NamedArchives(o3: Objects, o4: Objects, moved: seq<bool>, shipped: Shipped)
    requires shipped.WellFormed()
    requires ArchivedFirst(o3, o4, shipped.named, Always, |shipped.named|)
    requires MovedTables(o3, moved, shipped.named, Always)
    ensures forall i :: 0 <= i < |moved| && moved[i] ==>
      Archive(shipped.named[i]) in o4 && o4[Archive(shipped.named[i])].Base?
    ensures AnyUnfit(o4, shipped.named, moved, shipped.namedCopies, |shipped.named|) <==>
      exists i :: 0 <= i < |shipped.named| && CannotCopy(o3, shipped.named[i], Always, shipped.namedCopies[i])
  {
    forall i | 0 <= i < |shipped.named|
      ensures moved[i] ==> Archived(o3, o4, shipped.named[i])
      ensures (moved[i] && ArchiveUnfit(o4, shipped.named[i], shipped.namedCopies[i]))
         <==> CannotCopy(o3, shipped.named[i], Always, shipped.namedCopies[i])
    {
    }
  }

  lemma AllArchived(o3: Objects, o4: Objects, o5: Objects, shipped: Shipped)
    requires shipped.WellFormed()
    requires ArchivedFirst(o3, o4, shipped.named, Always, |shipped.named|)
    requires o5 == WithViews(o4, shipped.providers, |shipped.providers|)
    ensures Finished(o3, o5, shipped)
  {
    WithViewsHas(o4, shipped.providers, |shipped.providers|);
    forall name: Name | !name.Relationships? ensures SameAt(o4, o5, name) {
      assert !IsRelTable(name, shipped.providers, |shipped.providers|);
    }
    forall t: Name | t !in shipped.named ensures SameAt(o3, o5, Archive(t)) {
      assert Archive(t) !in shipped.named;
      NotInvolved(Archive(t), shipped.named);
      assert SameAt(o3, o4, Archive(t)) && SameAt(o4, o5, Archive(t));
    }
    forall name | Settled(name, shipped) ensures SameAt(o3, o5, name) {
      NotInvolved(name, shipped.named);
      assert SameAt(o3, o4, name) && SameAt(o4, o5, name);
    }
    forall t | t in shipped.named && ShouldMove(o3, t, Always) ensures Archived(o3, o5, t) {
      var i :| 0 <= i < |shipped.named| && shipped.named[i] == t;
      assert SameAt(o4, o5, Archive(t));
    }
    forall p | p in shipped.providers ensures Relationships(p) in o5 && o5[Relationships(p)] == View(p) {
      var i :| 0 <= i < |shipped.providers| && shipped.providers[i] == p;
    }
  }

  lemma Concludes(start: Database, created: Database, copied: Database, end: Database, moved: seq<bool>,
      shipped: Shipped)
    requires shipped.WellFormed()
    requires MadeRoom(start.objects, created.objects, shipped) && KindsAt(start.objects, shipped, 0, 1, created.objects)
    requires MovedTables(start.objects, moved, shipped.RelTables(), IfTable)
    requires created.edges == start.edges && created.scans == start.scans
    requires copied.objects == created.objects && CopiedFirst(created, copied.edges, shipped.providers, moved, |moved|)
    requires copied.scans == start.scans + ScansMoved(start, shipped)
    requires Finished(copied.objects, end.objects, shipped) && end.edges == copied.edges && end.scans == copied.scans
    ensures LegacyMoved(start, end, shipped) && KindsAt(start.objects, shipped, 0, 1, end.objects)
  {
    forall p | p in shipped.providers && IsLegacy(start, p)
      ensures Archived(start.objects, end.objects, Relationships(p))
      ensures RowsMerged(start.edges, end.edges, start.objects[Relationships(p)].rows, p)
    {
      var i :| 0 <= i < |shipped.providers| && shipped.providers[i] == p;
      assert shipped.RelTables()[i] == Relationships(p);
      assert Archived(start.objects, created.objects, Relationships(p));
      assert Relationships(p) !in shipped.named;
      assert SameAt(copied.objects, end.objects, Archive(Relationships(p)));
    }
    forall p | p !in shipped.providers || !IsLegacy(start, p) ensures SameFor(start.edges, end.edges, p) {
      assert forall i :: 0 <= i < |moved| ==> shipped.RelTables()[i] == Relationships(shipped.providers[i]);
      assert !CopiedFor(p, shipped.providers, moved, |moved|);
    }
    forall t | t in shipped.columned && ShouldMove(start.objects, t, Lacking(Provider))
      ensures Archived(start.objects, end.objects, t)
    {
      assert SameAt(copied.objects, end.objects, Archive(t));
    }
    forall t | t in shipped.named && ShouldMove(start.objects, t, Always)
      ensures Archived(start.objects, end.objects, t)
    {
      assert SameAt(start.objects, copied.objects, t);
    }
    forall name | Settled(name, shipped)
      ensures KindOf(end.objects, name) == KindAt(start.objects, shipped, 0, 1, name)
    {
      assert SameAt(copied.objects, end.objects, name);
    }
  }

  // ---------------------------------------------------------------- all versions

  /** Where the transaction stands once the block of version v is passed. */
  ghost predicate Reached(start: Database, now: Database, v: int, shipped: Shipped)
    requires shipped.WellFormed()
  {
    var from := Floor(Version(start.ledger));
    && now.ledger == start.ledger + Recorded(from, v)
    && (v <= from ==> now == start)
    && (now.macros == start.macros || now.macros == start.macros + shipped.macros)
    && (from >= 1 ==> now.edges == start.edges && now.scans == start.scans && Kept(start.objects, now.objects))
    && (from < 1 <= v ==> !LegacyBlocked(start, shipped) && LegacyMoved(start, now, shipped))
    && (v >= from ==> KindsAt(start.objects, shipped, from, v, now.objects))
    && (v >= from && v >= 1 ==> Defined(start.objects, now.objects, shipped, from, v))
    && (forall w: int :: from < w <= v ==> !DdlBlocked(start.objects, shipped, from, w))
  }

  /** What a successful EnsureSchema does: the missing versions are recorded in order and what they
      define is there, the macros are the shipped ones, a database from before version 1 has its
      legacy data moved, and any other keeps every table with its rows. */
  ghost predicate Ensured(before: Database, after: Database, shipped: Shipped)
    requires |shipped.columned| == 2
  {
    var version := Version(before.ledger);
    && version <= LATEST
    && after.ledger == before.ledger + Recorded(Floor(version), LATEST)
    && after.macros == before.macros + shipped.macros
    && Defined(before.objects, after.objects, shipped, Floor(version), LATEST)
    && (version < 1 ==> LegacyMoved(before, after, shipped))
    && (version >= 1 ==>
          after.edges == before.edges && after.scans == before.scans && Kept(before.objects, after.objects))
    && (version == LATEST ==> after == before.(macros := before.macros + shipped.macros))
  }

  /** Nothing is pending, and nothing has changed. */
  lemma DefinedAtStart(start: Objects, shipped: Shipped, from: int)
    requires from >= 1
    ensures Defined(start, start, shipped, from, from)
  {
    forall t | Settled(t, shipped) ensures DefinedAt(start, start, shipped, from, from, t) {
    }
  }

  lemma ReachedAtStart(start: Database, shipped: Shipped)
    requires shipped.WellFormed() && Version(start.ledger) <= LATEST
    ensures Reached(start, start, 0, shipped)
  {
    assert start.ledger + [] == start.ledger;
  }

  /** Whether a later version's definitions fit is known from the start. */
  lemma LaterFits(start: Database, now: Database, v: int, shipped: Shipped)
    requires shipped.WellFormed() && 1 < v <= LATEST && Version(start.ledger) < v
    requires Reached(start, now, v - 1, shipped)
    ensures var from := Floor(Version(start.ledger));
      && (DdlFits(now.objects, shipped, v) <==> !DdlBlocked(start.objects, shipped, from, v))
      && (!DdlFits(now.objects, shipped, v) ==> Blocked(start, shipped))
  {
    var from := Floor(Version(start.ledger));
    assert shipped.Handled(v);
    DdlFitsExactly(start.objects, shipped, from, v, now.objects);
  }

  /** What was said of the moved data holds on, as later versions touch only plain tables. */
  lemma LegacyStays(start: Database, before: Database, now: Database, shipped: Shipped)
    requires shipped.WellFormed() && LegacyMoved(start, before, shipped)
    requires now.edges == before.edges && now.scans == before.scans
    requires forall name: Name :: !name.Plain? ==> SameAt(before.objects, now.objects, name)
    ensures LegacyMoved(start, now, shipped)
  {
    forall t: Name ensures SameAt(before.objects, now.objects, Archive(t)) {
    }
    forall p: string ensures SameAt(before.objects, now.objects, Relationships(p)) {
    }
  }

  lemma MacrosTwice(a: map<string, string>, b: map<string, string>)
    ensures a + b + b == a + b
  {
  }

  /** Version 1 moves the legacy data. */
  lemma ReachedFirst(start: Database, mid: Database, now: Database, shipped: Shipped)
    requires shipped.WellFormed() && Version(start.ledger) < 1
    requires now == mid.(ledger := now.ledger) && mid.macros == start.macros
    requires now.ledger == start.ledger + Recorded(Floor(Version(start.ledger)), 1)
    requires !LegacyBlocked(start, shipped) && !DdlBlocked(start.objects, shipped, 0, 1)
    requires LegacyMoved(start, mid, shipped) && KindsAt(start.objects, shipped, 0, 1, mid.objects)
    requires Defined(start.objects, mid.objects, shipped, 0, 1)
    ensures Reached(start, now, 1, shipped)
  {
    assert LegacyMoved(start, now, shipped);
  }

  /** Each later version's block keeps what the earlier ones established. */
  lemma ReachedNext(start: Database, before: Database, mid: Database, now: Database, v: int, shipped: Shipped)
    requires shipped.WellFormed() && 1 < v <= LATEST && Version(start.ledger) < v
    requires Reached(start, before, v - 1, shipped) && DdlFits(before.objects, shipped, v)
    requires now == mid.(ledger := now.ledger) && mid.edges == before.edges && mid.scans == before.scans
    requires now.ledger == start.ledger + Recorded(Floor(Version(start.ledger)), v)
    requires mid.objects == Ddl(before.objects, shipped, v)
    requires mid.macros == before.macros || mid.macros == before.macros + shipped.macros
    ensures Reached(start, now, v, shipped)
  {
    MacrosTwice(start.macros, shipped.macros);
    LaterFits(start, before, v, shipped);
    LaterKinds(start, before, v, shipped);
    LaterDefines(start, before, v, shipped);
    LaterKeeps(start, before, now, v, shipped);
  }

  lemma LaterKinds(start: Database, before: Database, v: int, shipped: Shipped)
    requires shipped.WellFormed() && 1 < v <= LATEST && Version(start.ledger) < v
    requires Reached(start, before, v - 1, shipped) && DdlFits(before.objects, shipped, v)
    ensures KindsAt(start.objects, shipped, Floor(Version(start.ledger)), v, Ddl(before.objects, shipped, v))
  {
    assert shipped.Handled(v);
    DdlKinds(start.objects, shipped, Floor(Version(start.ledger)), v, before.objects);
  }

  lemma LaterDefines(start: Database, before: Database, v: int, shipped: Shipped)
    requires shipped.WellFormed() && 1 < v <= LATEST && Version(start.ledger) < v
    requires Reached(start, before, v - 1, shipped) && DdlFits(before.objects, shipped, v)
    ensures Defined(start.objects, Ddl(before.objects, shipped, v), shipped, Floor(Version(start.ledger)), v)
  {
    assert shipped.Handled(v);
    DdlDefines(start.objects, before.objects, shipped, Floor(Version(start.ledger)), v);
  }

  /** A later version keeps the legacy data in place, or the tables that were there. */
  lemma LaterKeeps(start: Database, before: Database, now: Database, v: int, shipped: Shipped)
    requires shipped.WellFormed() && 1 < v <= LATEST && Version(start.ledger) < v
    requires Reached(start, before, v - 1, shipped) && DdlFits(before.objects, shipped, v)
    requires now.edges == before.edges && now.scans == before.scans && now.objects == Ddl(before.objects, shipped, v)
    ensures Version(start.ledger) >= 1 ==> Kept(start.objects, now.objects)
    ensures Version(start.ledger) < 1 ==> LegacyMoved(start, now, shipped)
  {
    assert shipped.Handled(v);
    DdlKeeps(before.objects, shipped, v);
    if Version(start.ledger) >= 1 {
      KeptTwice(start.objects, before.objects, now.objects);
    } else {
      LegacyStays(start, before, now, shipped);
    }
  }

  lemma EnsuredAtEnd(start: Database, migrated: Database, shipped: Shipped)
    requires shipped.WellFormed() && Version(start.ledger) <= LATEST && Reached(start, migrated, LATEST, shipped)
    ensures Ensured(start, migrated.(macros := migrated.macros + shipped.macros), shipped)
    ensures !Blocked(start, shipped)
  {
    var after := migrated.(macros := migrated.macros + shipped.macros);
    MacrosTwice(start.macros, shipped.macros);
    if Version(start.ledger) < 1 {
      LegacyStays(start, migrated, after, shipped);
    }
  }

  lemma AllInPlace(before: Database, after: Database, shipped: Shipped)
    requires shipped.WellFormed() && Ensured(before, after, shipped)
    ensures forall v: int :: Floor(Version(before.ledger)) < v <= 7 ==>
      InPlace(before.objects, after.objects, shipped, Floor(Version(before.ledger)), v)
  {
    var from := Floor(Version(before.ledger));
    forall v: int | from < v <= 7 ensures InPlace(before.objects, after.objects, shipped, from, v) {
      assert shipped.Handled(v);
      DefinedIsInPlace(before.objects, after.objects, shipped, from, LATEST, v);
    }
  }
}
