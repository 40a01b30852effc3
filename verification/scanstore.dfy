/** Persisting one scan (internal/db/graph_store.go, internal/db/observations.go): everything it
    writes, in one transaction. */
module ScanStore {
  import opened Runes
  import opened Drift
  import opened ScanMeaning
  import opened ScanTables
  import opened SeenMaps
  import opened Wrappers
  import opened WriteLogs

  class GraphStore {
    var tables: Tables  // what is committed
    var tx: Tables      // what the open transaction sees
    var left: nat       // statements that succeed before one fails

    method Exec() returns (ok: bool)
      modifies this`left
      ensures ok <==> old(left) > 0
      ensures !ok ==> left == 0
    {
      ok := left > 0;
      left := if ok then left - 1 else 0;
    }

    method StoreScanRelationships(r: Resource) returns (ok: bool)
      modifies this`tx, this`left
      ensures ok ==> tx == old(tx).(edges :=
        Upsert(old(tx).edges, EdgeRowsOf(r, FirstPerKey({}, RelItems(r.id, r.relationships)))))
      ensures !ok ==> left == 0
    {
      var seen: set<string> := {};
      ghost var start := tx;
      for i := 0 to |r.relationships|
        invariant seen == KeySet(RelItems(r.id, r.relationships[..i]))
        invariant tx == start.(edges := EdgesAfter(start.edges, r, i))
      {
        EdgesStep(start.edges, r, i);
        var rel := r.relationships[i];
        if Named(rel) {
          var key := RelKey(r.id, rel.value);
          if key !in seen {
            seen := seen + {key};
            var done := Exec();
            if !done {
              return false;
            }
            var row := EdgeRow(r, rel.value);
            tx := tx.(edges := tx.edges[row.0 := row.1]);
          }
        }
      }
      assert r.relationships[..|r.relationships|] == r.relationships;
      ok := true;
    }

    method StoreScanResources(resources: seq<Option<Resource>>, options: Options) returns (ok: bool)
      modifies this`tx, this`left
      ensures ok ==> Accepted(resources, options)
      ensures ok ==> tx == AfterStoring(old(tx), Stored(resources, options), options)
      ensures !ok ==> !Accepted(resources, options) || left == 0
    {
      var seen: set<string> := {};
      ghost var start := tx;
      for i := 0 to |resources|
        invariant Accepted(resources[..i], options)
        invariant seen == KeySet(LiveItems(resources[..i], options))
        invariant tx == AfterStoring(start, Stored(resources[..i], options), options)
      {
        ok, seen := StoreNext(resources, i, options, seen, start);
        if !ok {
          return;
        }
      }
      assert resources[..|resources|] == resources;
      ok := true;
    }

    /** One turn of the loop over the resources. */
    method StoreNext(resources: seq<Option<Resource>>, i: nat, options: Options, seen: set<string>, ghost start: Tables)
      returns (ok: bool, after: set<string>)
      requires i < |resources|
      requires seen == KeySet(LiveItems(resources[..i], options))
      requires Accepted(resources[..i], options)
      requires tx == AfterStoring(start, Stored(resources[..i], options), options)
      modifies this`tx, this`left
      ensures ok ==>
        && Accepted(resources[..i + 1], options)
        && after == KeySet(LiveItems(resources[..i + 1], options))
        && tx == AfterStoring(start, Stored(resources[..i + 1], options), options)
      ensures !ok ==> !Accepted(resources, options) || left == 0
    {
      ok, after := true, seen;
      StoredStep(resources, i, options);
      AcceptedStep(resources, i, options);
      if resources[i].Some? {
        var r := resources[i].value;
        if !Selectable(resources[i], options) {
          return false, seen;
        }
        var key := LiveItem(r, options).key;
        if key !in seen {
          after := seen + {key};
          if !Storable(r, options) {
            RejectedStays(resources, i, options);
            return false, after;
          }
          ok := StoreOne(r, options, Stored(resources[..i], options), start, key);
        } else {
          assert seen + {key} == seen;
        }
      }
    }

    /** Stores one resource and its relationships. */
    method StoreOne(r: Resource, options: Options, ghost stored: Subjects, ghost start: Tables, ghost key: string)
      returns (ok: bool)
      requires tx == AfterStoring(start, stored, options)
      modifies this`tx, this`left
      ensures ok ==> tx == AfterStoring(start, stored + [Keyed(key, r)], options)
      ensures !ok ==> left == 0
    {
      ok := Exec();
      if !ok {
        return;
      }
      tx := tx.(live := tx.live[LiveKeyOf(r, options) := r.content]);
      ok := StoreScanRelationships(r);
      StoredMore(start, stored, Keyed(key, r), options);
    }

    /** The relationships of one observed resource. */
    method ObserveRelationships(r: Resource, scan: string, fallback: string, seen: set<string>,
        ghost before: EdgeItems, ghost start: map<ObservedEdge, string>) returns (ok: bool, after: set<string>)
      requires seen == KeySet(before)
      requires tx.observedEdges == ObservedEdges(start, before, scan, fallback)
      modifies this`tx, this`left
      ensures tx == old(tx).(observedEdges := tx.observedEdges)
      ensures ok ==> after == KeySet(FromUpTo(before, r, fallback, |r.relationships|))
      ensures ok ==>
        tx.observedEdges == ObservedEdges(start, FromUpTo(before, r, fallback, |r.relationships|), scan, fallback)
      ensures !ok ==> left == 0
    {
      after := seen;
      assert FromUpTo(before, r, fallback, 0) == before;
      for i := 0 to |r.relationships|
        invariant after == KeySet(FromUpTo(before, r, fallback, i))
        invariant tx
          == old(tx).(observedEdges := ObservedEdges(start, FromUpTo(before, r, fallback, i), scan, fallback))
      {
        FromUpToStep(start, before, r, scan, fallback, i);
        var rel := r.relationships[i];
        if Named(rel) {
          var item := FromItem(r, fallback, rel.value);
          if item.key !in after {
            after := after + {item.key};
            var done := Exec();
            if !done {
              return false, after;
            }
            var row := ObsEdgeRow(item.value, scan, fallback);
            tx := tx.(observedEdges := tx.observedEdges[row.0 := row.1]);
          }
        }
      }
      ok := true;
    }

    method StoreScanObservations(resources: seq<Option<Resource>>, m: Metadata) returns (ok: bool)
      modifies this`tx, this`left
      ensures ok ==> TrimSpace(m.id) != "" && tx == AfterObserving(old(tx), resources, m)
      ensures !ok ==> TrimSpace(m.id) == "" || left == 0
    {
      if TrimSpace(m.id) == "" {
        return false;
      }
      var seenResources: set<string>, seenRelationships: set<string> := {}, {};
      ghost var start := tx;
      for i := 0 to |resources|
        invariant seenResources == KeySet(ObsItems(resources[..i], m.provider))
        invariant seenRelationships == KeySet(ObsEdgeItems(resources[..i], m.provider))
        invariant tx == AfterObserving(start, resources[..i], m)
      {
        assert resources[..i + 1][..i] == resources[..i];
        if Observable(resources[i]) {
          var r := resources[i].value;
          ok, seenResources := ObserveResource(resources[..i], r, m, seenResources, start);
          if !ok {
            return;
          }
          assert r.relationships[..|r.relationships|] == r.relationships;
          ok, seenRelationships := ObserveRelationships(r, m.id, m.provider, seenRelationships,
            ObsEdgeItems(resources[..i], m.provider), start.observedEdges);
          if !ok {
            return;
          }
        }
      }
      assert resources[..|resources|] == resources;
      ok := true;
    }

    method ObserveResource(ghost before: seq<Option<Resource>>, r: Resource, m: Metadata, seen: set<string>,
        ghost start: Tables)
      returns (ok: bool, after: set<string>)
      requires seen == KeySet(ObsItems(before, m.provider))
      requires tx == AfterObserving(start, before, m)
      modifies this`tx, this`left
      ensures ok ==> var items := ObsItems(before, m.provider) + [Keyed(SubjectKey(r, m.provider), r)];
        && after == KeySet(items)
        && tx == old(tx).(observations := Observations(start.observations, items, m.id, m.provider))
      ensures !ok ==> left == 0
    {
      var key := SubjectKey(r, m.provider);
      ObservationsStep(start.observations, ObsItems(before, m.provider), r, m.id, m.provider);
      ok, after := true, seen;
      if key !in seen {
        after := seen + {key};
        ok := Exec();
        if ok {
          tx := tx.(observations := tx.observations[ObsKeyOf(r, m.id, m.provider) := r.hash]);
        }
      } else {
        assert seen + {key} == seen;
      }
    }

    method StoreScanOutcomeMetadata(m: Metadata) returns (ok: bool)
      modifies this`tx, this`left
      ensures ok ==> tx == old(tx).(scans := ScansAfter(old(tx).scans, old(tx).observations, m))
      ensures !ok ==> left == 0
    {
      ok := Exec();
      if !ok {
        return;
      }
      var row := MetadataRow(tx.scans, m);
      var stored := tx.scans[m.id := row];
      tx := tx.(scans := stored);
      if !m.complete {
        return;
      }
      ok := Exec();
      if !ok {
        return;
      }
      var previous := QueryPrevious(stored, row.provider, m.scopeKey, m.id, m.start);
      var prior := if previous.None? then map[] else Snapshot(tx.observations, previous.value);
      var current := Snapshot(tx.observations, m.id);
      tx := tx.(scans := stored[m.id := row.(
        created := |Created(prior, current)|,
        updated := |Updated(prior, current)|,
        deleted := |Deleted(prior, current)|)]);
    }

    /** StoreScanOutcome: all of a scan or none of it. A failure is a scan that cannot be stored, a
        blank scan ID, or a statement or commit that fails; the committed tables then stay as they
        were. */
    method StoreScanOutcome(resources: seq<Option<Resource>>, options: Options, m: Metadata) returns (ok: bool)
      modifies this
      ensures ok ==> Accepted(resources, options) && TrimSpace(m.id) != ""
      ensures ok ==> tables == Persisted(old(tables), resources, options, m)
      ensures ok ==> ScanPersisted(old(tables), tables, resources, options, m)
      ensures !ok ==> tables == old(tables)
      ensures !ok ==> !Accepted(resources, options) || TrimSpace(m.id) == "" || left == 0
    {
      tx := tables;
      ok := StoreScanResources(resources, options);
      if !ok {
        return;
      }
      ok := StoreScanObservations(resources, m);
      if !ok {
        return;
      }
      ok := StoreScanOutcomeMetadata(m);
      if !ok {
        return;
      }
      ok := Exec();  // commit
      if ok {
        tables := tx;
        PersistedMeans(old(tables), resources, options, m);
      }
    }
  }
}
