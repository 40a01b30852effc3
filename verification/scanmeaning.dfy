/** What persisting a scan comes to, told from the resources alone (internal/db/graph_store.go,
    internal/db/observations.go): which entries and relationships are written, to which row, and
    which of several writes to one row counts. */
module ScanMeaning {
  import opened Letters
  import opened Runes
  import opened Drift
  import opened Positions
  import opened ScanTables
  import opened SeenMaps
  import opened Wrappers
  import opened WriteLogs

  type Resources = seq<Option<Resource>>

  // ---------------------------------------------------------------- the table of a resource

  /** An override, if there is one, must be a known table; an official provider has its own table; all
      other providers that are not blank share the custom one. */
  ghost predicate Destined(provider: string, options: Options, table: string) {
    var forced, name := TrimSpace(options.tableOverride), Lower(TrimSpace(provider));
    || (forced != "" && table == forced
        && (table == options.catalog.custom
            || exists p :: p in options.catalog.official && options.catalog.official[p] == table))
    || (forced == "" && name in options.catalog.official && table == options.catalog.official[name])
    || (forced == "" && name !in options.catalog.official && name != "" && table == options.catalog.custom)
  }

  /** Each resource goes to the one table it is destined for, or there is none. */
  lemma ResourceTableExactly(r: Resource, options: Options, table: string)
    ensures ResourceTable(r.provider, options) == Some(table) <==> Destined(r.provider, options, table)
    ensures ResourceTable(r.provider, options).None? <==> forall t :: !Destined(r.provider, options, t)
    ensures Destined(r.provider, options, table) ==> TableName(r, options) == table
  {
    var chosen := ResourceTable(r.provider, options);
    if chosen.Some? {
      assert Destined(r.provider, options, chosen.value);
    }
  }

  // ---------------------------------------------------------------- live resources

  /** What the loop over the resources remembers of entry n. */
  function LiveText(resources: Resources, options: Options, n: nat): Option<string>
    requires n < |resources|
  {
    if resources[n].None? then None
    else var r := resources[n].value; Some(TableName(r, options) + "|" + r.provider + "|" + r.id)
  }

  /** Entry n is stored: no earlier entry is remembered by the same text. */
  ghost predicate IsStored(resources: Resources, options: Options, n: nat) {
    && n < |resources| && resources[n].Some?
    && forall i :: 0 <= i < n ==> LiveText(resources, options, i) != LiveText(resources, options, n)
  }

  /** The loop writes this live row: that of a stored entry, in its table, under its ID, and in the
      custom table under its provider too. */
  ghost predicate LiveWrite(resources: Resources, options: Options, w: Write<LiveKey, string>) {
    && w.at.inner == 0 && IsStored(resources, options, w.at.outer)
    && var r := resources[w.at.outer].value;
       && w.key.table == TableName(r, options) && w.key.id == r.id
       && w.key.provider == (if TableName(r, options) == options.catalog.custom then r.provider else "")
       && w.value == r.content
  }

  ghost predicate LiveSeen(resources: Resources, options: Options, n: nat, text: string)
    requires n <= |resources|
  {
    exists i :: 0 <= i < n && LiveText(resources, options, i) == Some(text)
  }

  lemma LiveSeenHere(resources: Resources, options: Options, n: nat, text: string)
    requires n < |resources|
    ensures LiveSeen(resources, options, n + 1, text) <==>
      LiveSeen(resources, options, n, text) || LiveText(resources, options, n) == Some(text)
  {
  }

  lemma {:induction false} LiveTexts(resources: Resources, options: Options, n: nat, text: string)
    requires n <= |resources|
    ensures text in KeySet(LiveItems(resources[..n], options)) <==> LiveSeen(resources, options, n, text)
  {
    if n > 0 {
      LiveTexts(resources, options, n - 1, text);
      LiveTextHere(resources, options, n - 1, text);
      LiveSeenHere(resources, options, n - 1, text);
    }
  }

  lemma LiveTextHere(resources: Resources, options: Options, n: nat, text: string)
    requires n < |resources|
    ensures text in KeySet(LiveItems(resources[..n + 1], options)) <==>
      text in KeySet(LiveItems(resources[..n], options)) || LiveText(resources, options, n) == Some(text)
  {
    StoredStep(resources, n, options);
    assert resources[n].Some? ==>
      LiveText(resources, options, n) == Some(LiveItem(resources[n].value, options).key);
  }

  /** The live rows grow by those of stored entries. */
  lemma LiveRowsStep(resources: Resources, options: Options, n: nat)
    requires n < |resources|
    ensures var rows := LiveRows(Stored(resources[..n], options), options);
      LiveRows(Stored(resources[..n + 1], options), options)
      == if IsStored(resources, options, n) then
           rows + [(LiveKeyOf(resources[n].value, options), resources[n].value.content)]
         else rows
  {
    StoredStep(resources, n, options);
    if resources[n].Some? {
      LiveTexts(resources, options, n, LiveItem(resources[n].value, options).key);
      assert LiveText(resources, options, n) == Some(LiveItem(resources[n].value, options).key);
    }
  }

  /** These are the writes made before entry n. */
  ghost predicate LiveLog(resources: Resources, options: Options, n: nat, log: seq<Write<LiveKey, string>>) {
    InOrder(log) && forall w :: w in log <==> LiveWrite(resources, options, w) && w.at.outer < n
  }

  lemma {:induction false} LiveLogOf(resources: Resources, options: Options, n: nat)
    returns (log: seq<Write<LiveKey, string>>)
    requires n <= |resources|
    ensures LiveLog(resources, options, n, log)
    ensures RowsOfLog(log) == LiveRows(Stored(resources[..n], options), options)
  {
    if n == 0 {
      log := [];
    } else {
      log := LiveLogOf(resources, options, n - 1);
      LiveRowsStep(resources, options, n - 1);
      if IsStored(resources, options, n - 1) {
        log := LiveLogGrows(resources, options, n - 1, log);
      } else {
        LiveLogStays(resources, options, n - 1, log);
      }
    }
  }

  lemma LiveLogStays(resources: Resources, options: Options, n: nat, log: seq<Write<LiveKey, string>>)
    requires !IsStored(resources, options, n) && LiveLog(resources, options, n, log)
    ensures LiveLog(resources, options, n + 1, log)
  {
  }

  lemma LiveLogGrows(resources: Resources, options: Options, n: nat, log: seq<Write<LiveKey, string>>)
    returns (more: seq<Write<LiveKey, string>>)
    requires IsStored(resources, options, n) && LiveLog(resources, options, n, log)
    ensures LiveLog(resources, options, n + 1, more)
    ensures var r := resources[n].value; RowsOfLog(more) == RowsOfLog(log) + [(LiveKeyOf(r, options), r.content)]
  {
    var r := resources[n].value;
    var w := Write(Place(n, 0), LiveKeyOf(r, options), r.content);
    assert LiveWrite(resources, options, w);
    more := log + [w];
    forall i | 0 <= i < |log| ensures log[i].at.Before(w.at) {
      assert log[i] in log;
    }
    forall v | LiveWrite(resources, options, v) && v.at.outer == n ensures v == w {
      assert v.at == w.at && v.key == w.key;
    }
  }

  // ---------------------------------------------------------------- live relationships

  /** What the loop over a resource's relationships remembers of number k. */
  function RelText(key: string, rels: seq<Option<Relationship>>, k: nat): Option<string>
    requires k < |rels|
  {
    if rels[k].None? || rels[k].value.targetId == "" || rels[k].value.typ == "" then None
    else Some(key + "|" + rels[k].value.targetId + "|" + rels[k].value.typ)
  }

  ghost predicate IsFirstRel(key: string, rels: seq<Option<Relationship>>, k: nat) {
    && k < |rels| && RelText(key, rels, k).Some?
    && forall j :: 0 <= j < k ==> RelText(key, rels, j) != RelText(key, rels, k)
  }

  /** Relationship k of entry n, written as an edge of the resource in that entry. */
  ghost predicate EdgeOf(r: Resource, n: nat, w: Write<Edge, string>) {
    && w.at.outer == n && IsFirstRel(r.id, r.relationships, w.at.inner)
    && var rel := r.relationships[w.at.inner].value;
       && w.key.fromId == r.id && w.key.toId == rel.targetId && w.key.typ == rel.typ
       && w.key.provider == Lower(r.provider) && w.value == rel.properties
  }

  /** The loops write this edge: that of a stored resource's relationship with a target and a type, of
      several with the same text the first. */
  ghost predicate EdgeWrite(resources: Resources, options: Options, w: Write<Edge, string>) {
    IsStored(resources, options, w.at.outer) && EdgeOf(resources[w.at.outer].value, w.at.outer, w)
  }

  ghost predicate RelLog(r: Resource, n: nat, k: nat, log: seq<Write<Edge, string>>) {
    InOrder(log) && forall w :: w in log <==> EdgeOf(r, n, w) && w.at.inner < k
  }

  lemma {:induction false} RelTexts(key: string, rels: seq<Option<Relationship>>, k: nat, text: string)
    requires k <= |rels|
    ensures text in KeySet(RelItems(key, rels[..k])) <==> exists j :: 0 <= j < k && RelText(key, rels, j) == Some(text)
  {
    if k > 0 {
      RelTexts(key, rels, k - 1, text);
      RelTextHere(key, rels, k - 1, text);
    }
  }

  lemma RelTextHere(key: string, rels: seq<Option<Relationship>>, k: nat, text: string)
    requires k < |rels|
    ensures text in KeySet(RelItems(key, rels[..k + 1])) <==>
      text in KeySet(RelItems(key, rels[..k])) || RelText(key, rels, k) == Some(text)
  {
    RelItemsStep(key, rels, k);
    if Named(rels[k]) {
      KeySetAppend(RelItems(key, rels[..k]), Keyed(RelKey(key, rels[k].value), rels[k].value));
      assert RelText(key, rels, k) == Some(RelKey(key, rels[k].value));
    }
  }

  lemma {:induction false} RelLogOf(r: Resource, n: nat, k: nat) returns (log: seq<Write<Edge, string>>)
    requires k <= |r.relationships|
    ensures RelLog(r, n, k, log)
    ensures RowsOfLog(log) == EdgeRowsOf(r, FirstPerKey({}, RelItems(r.id, r.relationships[..k])))
  {
    if k == 0 {
      log := [];
    } else {
      log := RelLogOf(r, n, k - 1);
      RelRowsStep(r, k - 1);
      if IsFirstRel(r.id, r.relationships, k - 1) {
        log := RelLogGrows(r, n, k - 1, log);
      } else {
        RelLogStays(r, n, k - 1, log);
      }
    }
  }

  lemma RelLogStays(r: Resource, n: nat, k: nat, log: seq<Write<Edge, string>>)
    requires !IsFirstRel(r.id, r.relationships, k) && RelLog(r, n, k, log)
    ensures RelLog(r, n, k + 1, log)
  {
  }

  /** The rows of one resource grow by those of its first relationships. */
  lemma RelRowsStep(r: Resource, k: nat)
    requires k < |r.relationships|
    ensures var rows := EdgeRowsOf(r, FirstPerKey({}, RelItems(r.id, r.relationships[..k])));
      EdgeRowsOf(r, FirstPerKey({}, RelItems(r.id, r.relationships[..k + 1])))
      == if IsFirstRel(r.id, r.relationships, k) then rows + [EdgeRow(r, r.relationships[k].value)] else rows
  {
    var rels := r.relationships;
    RelItemsStep(r.id, rels, k);
    if Named(rels[k]) {
      var items, item := RelItems(r.id, rels[..k]), Keyed(RelKey(r.id, rels[k].value), rels[k].value);
      FirstPerKeyStep(items, item);
      RelTexts(r.id, rels, k, item.key);
      EdgeRowsGrow(r, FirstPerKey({}, items), item);
    }
  }

  lemma EdgeRowsGrow(r: Resource, kept: RelItemList, item: Keyed<string, Relationship>)
    ensures EdgeRowsOf(r, kept + [item]) == EdgeRowsOf(r, kept) + [EdgeRow(r, item.value)]
  {
  }

  lemma RelLogGrows(r: Resource, n: nat, k: nat, log: seq<Write<Edge, string>>)
    returns (more: seq<Write<Edge, string>>)
    requires IsFirstRel(r.id, r.relationships, k) && RelLog(r, n, k, log)
    ensures RelLog(r, n, k + 1, more)
    ensures RowsOfLog(more) == RowsOfLog(log) + [EdgeRow(r, r.relationships[k].value)]
  {
    var row := EdgeRow(r, r.relationships[k].value);
    var w := Write(Place(n, k), row.0, row.1);
    assert EdgeOf(r, n, w);
    more := log + [w];
    forall i | 0 <= i < |log| ensures log[i].at.Before(w.at) {
      assert log[i] in log;
    }
    forall v | EdgeOf(r, n, v) && v.at.inner == k ensures v == w {
      assert v.at == w.at && v.key == w.key;
    }
  }

  /** These are the edges written for the entries before n. */
  ghost predicate EdgeLog(resources: Resources, options: Options, n: nat, log: seq<Write<Edge, string>>) {
    InOrder(log) && forall w :: w in log <==> EdgeWrite(resources, options, w) && w.at.outer < n
  }

  lemma {:induction false} EdgeLogOf(resources: Resources, options: Options, n: nat)
    returns (log: seq<Write<Edge, string>>)
    requires n <= |resources|
    ensures EdgeLog(resources, options, n, log)
    ensures RowsOfLog(log) == EdgeRows(Stored(resources[..n], options))
  {
    if n == 0 {
      log := [];
    } else {
      log := EdgeLogOf(resources, options, n - 1);
      EdgeRowsStep(resources, options, n - 1);
      if IsStored(resources, options, n - 1) {
        var r := resources[n - 1].value;
        var one := RelLogOf(r, n - 1, |r.relationships|);
        EdgeLogGrows(resources, options, n - 1, log, one);
        assert r.relationships[..|r.relationships|] == r.relationships;
        RowsOfBoth(log, one);
        log := log + one;
      } else {
        EdgeLogStays(resources, options, n - 1, log);
      }
    }
  }

  lemma EdgeLogStays(resources: Resources, options: Options, n: nat, log: seq<Write<Edge, string>>)
    requires !IsStored(resources, options, n) && EdgeLog(resources, options, n, log)
    ensures EdgeLog(resources, options, n + 1, log)
  {
  }

  /** The edge rows grow by those of stored entries. */
  lemma EdgeRowsStep(resources: Resources, options: Options, n: nat)
    requires n < |resources|
    ensures var rows := EdgeRows(Stored(resources[..n], options));
      EdgeRows(Stored(resources[..n + 1], options))
      == if IsStored(resources, options, n) then
           var r := resources[n].value;
           rows + EdgeRowsOf(r, FirstPerKey({}, RelItems(r.id, r.relationships)))
         else rows
  {
    StoredStep(resources, n, options);
    if resources[n].Some? {
      var item := LiveItem(resources[n].value, options);
      LiveTexts(resources, options, n, item.key);
      assert LiveText(resources, options, n) == Some(item.key);
      MoreEdgeRows(Stored(resources[..n], options), item);
    }
  }

  lemma MoreEdgeRows(stored: Subjects, item: Keyed<string, Resource>)
    ensures var r := item.value;
      EdgeRows(stored + [item]) == EdgeRows(stored) + EdgeRowsOf(r, FirstPerKey({}, RelItems(r.id, r.relationships)))
  {
    assert (stored + [item])[..|stored|] == stored;
  }

  lemma EdgeLogGrows(resources: Resources, options: Options, n: nat, log: seq<Write<Edge, string>>,
      one: seq<Write<Edge, string>>)
    requires IsStored(resources, options, n) && EdgeLog(resources, options, n, log)
    requires var r := resources[n].value; RelLog(r, n, |r.relationships|, one)
    ensures EdgeLog(resources, options, n + 1, log + one)
  {
    var more := log + one;
    forall i, j | 0 <= i < j < |more| ensures more[i].at.Before(more[j].at) {
      if i < |log| <= j {
        assert more[i] == log[i] && log[i] in log && more[j] == one[j - |log|] && one[j - |log|] in one;
      } else if i >= |log| {
        assert more[i] == one[i - |log|] && more[j] == one[j - |log|];
      }
    }
    forall w ensures w in more <==> EdgeWrite(resources, options, w) && w.at.outer < n + 1 {
      assert w in more <==> w in log || w in one;
    }
  }

  // ---------------------------------------------------------------- observations

  /** What the loop over observable resources remembers of entry n. */
  function ObsText(resources: Resources, fallback: string, n: nat): Option<string>
    requires n < |resources|
  {
    if resources[n].None? || TrimSpace(resources[n].value.id) == "" then None
    else Some(ObservedProvider(resources[n].value, fallback) + "|" + resources[n].value.id)
  }

  ghost predicate IsObserved(resources: Resources, fallback: string, n: nat) {
    && n < |resources| && ObsText(resources, fallback, n).Some?
    && forall i :: 0 <= i < n ==> ObsText(resources, fallback, i) != ObsText(resources, fallback, n)
  }

  /** The loop writes this observation: of the entries remembered by one text the first. */
  ghost predicate ObsWrite(resources: Resources, scan: string, fallback: string, w: Write<ObsKey, string>) {
    && w.at.inner == 0 && IsObserved(resources, fallback, w.at.outer)
    && var r := resources[w.at.outer].value;
       && w.key.scan == scan && w.key.provider == ObservedProvider(r, fallback) && w.key.id == r.id
       && w.value == r.hash
  }

  ghost predicate ObsLog(resources: Resources, scan: string, fallback: string, n: nat,
      log: seq<Write<ObsKey, string>>)
  {
    InOrder(log) && forall w :: w in log <==> ObsWrite(resources, scan, fallback, w) && w.at.outer < n
  }

  lemma ObsItemsStep(resources: Resources, fallback: string, n: nat)
    requires n < |resources|
    ensures ObsItems(resources[..n + 1], fallback)
         == if ObsText(resources, fallback, n).None? then ObsItems(resources[..n], fallback)
            else ObsItems(resources[..n], fallback)
                 + [Keyed(ObsText(resources, fallback, n).value, resources[n].value)]
  {
    assert resources[..n + 1][..n] == resources[..n];
  }

  lemma {:induction false} ObsTexts(resources: Resources, fallback: string, n: nat, text: string)
    requires n <= |resources|
    ensures text in KeySet(ObsItems(resources[..n], fallback)) <==>
      exists i :: 0 <= i < n && ObsText(resources, fallback, i) == Some(text)
  {
    if n > 0 {
      ObsTexts(resources, fallback, n - 1, text);
      ObsTextHere(resources, fallback, n - 1, text);
    }
  }

  lemma ObsTextHere(resources: Resources, fallback: string, n: nat, text: string)
    requires n < |resources|
    ensures text in KeySet(ObsItems(resources[..n + 1], fallback)) <==>
      text in KeySet(ObsItems(resources[..n], fallback)) || ObsText(resources, fallback, n) == Some(text)
  {
    ObsItemsStep(resources, fallback, n);
    var last := ObsText(resources, fallback, n);
    if last.Some? {
      KeySetAppend(ObsItems(resources[..n], fallback), Keyed(last.value, resources[n].value));
    }
  }

  lemma {:induction false} ObsLogOf(resources: Resources, scan: string, fallback: string, n: nat)
    returns (log: seq<Write<ObsKey, string>>)
    requires n <= |resources|
    ensures ObsLog(resources, scan, fallback, n, log)
    ensures RowsOfLog(log) == ObsRows(FirstPerKey({}, ObsItems(resources[..n], fallback)), scan, fallback)
  {
    if n == 0 {
      log := [];
    } else {
      log := ObsLogOf(resources, scan, fallback, n - 1);
      ObsRowsStep(resources, scan, fallback, n - 1);
      if IsObserved(resources, fallback, n - 1) {
        log := ObsLogGrows(resources, scan, fallback, n - 1, log);
      } else {
        ObsLogStays(resources, scan, fallback, n - 1, log);
      }
    }
  }

  lemma ObsLogStays(resources: Resources, scan: string, fallback: string, n: nat, log: seq<Write<ObsKey, string>>)
    requires !IsObserved(resources, fallback, n) && ObsLog(resources, scan, fallback, n, log)
    ensures ObsLog(resources, scan, fallback, n + 1, log)
  {
  }

  lemma ObsRowsStep(resources: Resources, scan: string, fallback: string, n: nat)
    requires n < |resources|
    ensures var rows := ObsRows(FirstPerKey({}, ObsItems(resources[..n], fallback)), scan, fallback);
      ObsRows(FirstPerKey({}, ObsItems(resources[..n + 1], fallback)), scan, fallback)
      == if IsObserved(resources, fallback, n) then
           rows + [(ObsKeyOf(resources[n].value, scan, fallback), resources[n].value.hash)]
         else rows
  {
    ObsItemsStep(resources, fallback, n);
    var last := ObsText(resources, fallback, n);
    if last.Some? {
      var items, item := ObsItems(resources[..n], fallback), Keyed(last.value, resources[n].value);
      FirstPerKeyStep(items, item);
      ObsTexts(resources, fallback, n, last.value);
      ObsRowsGrow(FirstPerKey({}, items), item, scan, fallback);
    }
  }

  lemma ObsRowsGrow(kept: Subjects, item: Keyed<string, Resource>, scan: string, fallback: string)
    ensures ObsRows(kept + [item], scan, fallback)
         == ObsRows(kept, scan, fallback) + [(ObsKeyOf(item.value, scan, fallback), item.value.hash)]
  {
  }

  lemma ObsLogGrows(resources: Resources, scan: string, fallback: string, n: nat, log: seq<Write<ObsKey, string>>)
    returns (more: seq<Write<ObsKey, string>>)
    requires IsObserved(resources, fallback, n) && ObsLog(resources, scan, fallback, n, log)
    ensures ObsLog(resources, scan, fallback, n + 1, more)
    ensures var r := resources[n].value; RowsOfLog(more) == RowsOfLog(log) + [(ObsKeyOf(r, scan, fallback), r.hash)]
  {
    var r := resources[n].value;
    var w := Write(Place(n, 0), ObsKeyOf(r, scan, fallback), r.hash);
    assert ObsWrite(resources, scan, fallback, w);
    more := log + [w];
    forall i | 0 <= i < |log| ensures log[i].at.Before(w.at) {
      assert log[i] in log;
    }
    forall v | ObsWrite(resources, scan, fallback, v) && v.at.outer == n ensures v == w {
      assert v.at == w.at && v.key == w.key;
    }
  }

  // ---------------------------------------------------------------- observed relationships

  /** What the loop over observed relationships remembers of the one at a place. */
  function FromText(resources: Resources, fallback: string, p: Place): Option<string> {
    if p.outer >= |resources| || !Observable(resources[p.outer]) then None
    else
      var r := resources[p.outer].value;
      if p.inner >= |r.relationships| then None
      else RelText(ObservedProvider(r, fallback) + "|" + r.id, r.relationships, p.inner)
  }

  ghost predicate IsObservedEdge(resources: Resources, fallback: string, p: Place) {
    && FromText(resources, fallback, p).Some?
    && forall q: Place :: q.Before(p) ==> FromText(resources, fallback, q) != FromText(resources, fallback, p)
  }

  /** The loop writes this observed edge: of all relationships of the scan that are remembered by one
      text the first. */
  ghost predicate FromWrite(resources: Resources, scan: string, fallback: string, w: Write<ObservedEdge, string>) {
    && IsObservedEdge(resources, fallback, w.at)
    && var r := resources[w.at.outer].value;
       var rel := r.relationships[w.at.inner].value;
       && w.key.scan == scan && w.key.provider == ObservedProvider(r, fallback) && w.key.fromId == r.id
       && w.key.toId == rel.targetId && w.key.typ == rel.typ && w.value == rel.properties
  }

  /** A place between two relationships, or between two entries. */
  predicate IsPlace(resources: Resources, p: Place) {
    && p.outer <= |resources|
    && (p.inner > 0 ==>
          p.outer < |resources| && Observable(resources[p.outer])
          && p.inner <= |resources[p.outer].value.relationships|)
  }

  /** The place after everything of the entry before. */
  function EndOf(resources: Resources, n: nat): (p: Place)
    requires n < |resources|
    ensures IsPlace(resources, p)
  {
    Place(n, if Observable(resources[n]) then |resources[n].value.relationships| else 0)
  }

  function ItemsUpTo(resources: Resources, fallback: string, p: Place): EdgeItems
    requires IsPlace(resources, p)
  {
    ObsEdgeItems(resources[..p.outer], fallback)
    + if p.inner == 0 then []
      else
        var r := resources[p.outer].value;
        FromItems(r, fallback, r.relationships[..p.inner])
  }

  lemma NextEntry(resources: Resources, fallback: string, n: nat)
    requires n < |resources|
    ensures ItemsUpTo(resources, fallback, Place(n + 1, 0)) == ItemsUpTo(resources, fallback, EndOf(resources, n))
    ensures forall q: Place :: FromText(resources, fallback, q).Some? ==>
      (q.Before(Place(n + 1, 0)) <==> q.Before(EndOf(resources, n)))
  {
    assert resources[..n + 1][..n] == resources[..n];
    if Observable(resources[n]) {
      var rels := resources[n].value.relationships;
      assert rels[..|rels|] == rels;
    }
  }

  lemma NextPart(resources: Resources, fallback: string, p: Place)
    requires IsPlace(resources, p) && IsPlace(resources, p.(inner := p.inner + 1))
    ensures var r, items := resources[p.outer].value, ItemsUpTo(resources, fallback, p);
      ItemsUpTo(resources, fallback, p.(inner := p.inner + 1))
      == if FromText(resources, fallback, p).None? then items
         else items + [Keyed(FromText(resources, fallback, p).value, From(r, r.relationships[p.inner].value))]
  {
    var r := resources[p.outer].value;
    FromItemsStep(r, fallback, p.inner);
    assert FromItems(r, fallback, r.relationships[..0]) == [];
    TextOfItem(r, fallback, p.inner);
  }

  lemma TextOfItem(r: Resource, fallback: string, k: nat)
    requires k < |r.relationships|
    ensures var text := RelText(ObservedProvider(r, fallback) + "|" + r.id, r.relationships, k);
      if Named(r.relationships[k]) then text == Some(FromItem(r, fallback, r.relationships[k].value).key)
      else text.None?
  {
  }

  /** A text is remembered when some place before has it. */
  ghost predicate Remembered(resources: Resources, fallback: string, p: Place, text: string) {
    exists q: Place :: q.Before(p) && FromText(resources, fallback, q) == Some(text)
  }

  lemma {:induction false} FromTexts(resources: Resources, fallback: string, p: Place, text: string)
    requires IsPlace(resources, p)
    ensures text in KeySet(ItemsUpTo(resources, fallback, p)) <==> Remembered(resources, fallback, p, text)
    decreases p.outer, p.inner
  {
    if p.inner > 0 {
      var last := p.(inner := p.inner - 1);
      FromTexts(resources, fallback, last, text);
      TextHere(resources, fallback, last, text);
      RememberedHere(resources, fallback, last, text);
      assert last.(inner := last.inner + 1) == p;
    } else if p.outer > 0 {
      NextEntry(resources, fallback, p.outer - 1);
      FromTexts(resources, fallback, EndOf(resources, p.outer - 1), text);
      RememberedEntry(resources, fallback, p.outer - 1, text);
      assert Place(p.outer - 1 + 1, 0) == p;
    } else {
      assert ItemsUpTo(resources, fallback, p) == [];
    }
  }

  lemma RememberedEntry(resources: Resources, fallback: string, n: nat, text: string)
    requires n < |resources|
    ensures Remembered(resources, fallback, Place(n + 1, 0), text)
       <==> Remembered(resources, fallback, EndOf(resources, n), text)
  {
    NextEntry(resources, fallback, n);
  }

  lemma RememberedHere(resources: Resources, fallback: string, p: Place, text: string)
    ensures Remembered(resources, fallback, p.(inner := p.inner + 1), text) <==>
      Remembered(resources, fallback, p, text) || FromText(resources, fallback, p) == Some(text)
  {
    JustBefore(p);
  }

  lemma TextHere(resources: Resources, fallback: string, p: Place, text: string)
    requires IsPlace(resources, p) && IsPlace(resources, p.(inner := p.inner + 1))
    ensures text in KeySet(ItemsUpTo(resources, fallback, p.(inner := p.inner + 1))) <==>
      text in KeySet(ItemsUpTo(resources, fallback, p)) || FromText(resources, fallback, p) == Some(text)
  {
    NextPart(resources, fallback, p);
    if FromText(resources, fallback, p).Some? {
      var r := resources[p.outer].value;
      KeySetAppend(ItemsUpTo(resources, fallback, p),
                   Keyed(FromText(resources, fallback, p).value, From(r, r.relationships[p.inner].value)));
    }
  }

  ghost predicate FromLog(resources: Resources, scan: string, fallback: string, p: Place,
      log: seq<Write<ObservedEdge, string>>)
  {
    InOrder(log) && forall w :: w in log <==> FromWrite(resources, scan, fallback, w) && w.at.Before(p)
  }

  /** The log, and that its rows are those of the loop. */
  ghost predicate FromDone(resources: Resources, scan: string, fallback: string, p: Place,
      log: seq<Write<ObservedEdge, string>>)
    requires IsPlace(resources, p)
  {
    && FromLog(resources, scan, fallback, p, log)
    && RowsOfLog(log) == ObsEdgeRows(FirstPerKey({}, ItemsUpTo(resources, fallback, p)), scan, fallback)
  }

  lemma {:induction false} FromLogOf(resources: Resources, scan: string, fallback: string, p: Place)
    returns (log: seq<Write<ObservedEdge, string>>)
    requires IsPlace(resources, p)
    ensures FromDone(resources, scan, fallback, p, log)
    decreases p.outer, p.inner
  {
    if p.inner > 0 {
      log := FromLogOf(resources, scan, fallback, p.(inner := p.inner - 1));
      log := FromLogPart(resources, scan, fallback, p, log);
    } else if p.outer > 0 {
      log := FromLogOf(resources, scan, fallback, EndOf(resources, p.outer - 1));
      FromLogEntry(resources, scan, fallback, p, log);
    } else {
      log := [];
      FromLogStart(resources, scan, fallback, p);
    }
  }

  lemma FromLogStart(resources: Resources, scan: string, fallback: string, p: Place)
    requires p.outer == p.inner == 0
    ensures FromDone(resources, scan, fallback, p, [])
  {
  }

  lemma FromLogPart(resources: Resources, scan: string, fallback: string, p: Place,
      log: seq<Write<ObservedEdge, string>>) returns (more: seq<Write<ObservedEdge, string>>)
    requires IsPlace(resources, p) && p.inner > 0
    requires FromDone(resources, scan, fallback, p.(inner := p.inner - 1), log)
    ensures FromDone(resources, scan, fallback, p, more)
  {
    var last := p.(inner := p.inner - 1);
    FromRowsStep(resources, scan, fallback, last);
    if IsObservedEdge(resources, fallback, last) {
      more := FromLogGrows(resources, scan, fallback, last, log);
    } else {
      FromLogStays(resources, scan, fallback, last, log);
      more := log;
    }
    assert last.(inner := last.inner + 1) == p;
  }

  lemma FromLogEntry(resources: Resources, scan: string, fallback: string, p: Place,
      log: seq<Write<ObservedEdge, string>>)
    requires IsPlace(resources, p) && p.outer > 0 && p.inner == 0
    requires FromDone(resources, scan, fallback, EndOf(resources, p.outer - 1), log)
    ensures FromDone(resources, scan, fallback, p, log)
  {
    NextEntry(resources, fallback, p.outer - 1);
    assert Place(p.outer - 1 + 1, 0) == p;
  }

  lemma FromLogStays(resources: Resources, scan: string, fallback: string, p: Place,
      log: seq<Write<ObservedEdge, string>>)
    requires !IsObservedEdge(resources, fallback, p) && FromLog(resources, scan, fallback, p, log)
    ensures FromLog(resources, scan, fallback, p.(inner := p.inner + 1), log)
  {
    JustBefore(p);
  }

  lemma FromRowsStep(resources: Resources, scan: string, fallback: string, p: Place)
    requires IsPlace(resources, p) && IsPlace(resources, p.(inner := p.inner + 1))
    ensures var rows := ObsEdgeRows(FirstPerKey({}, ItemsUpTo(resources, fallback, p)), scan, fallback);
      var r := resources[p.outer].value;
      ObsEdgeRows(FirstPerKey({}, ItemsUpTo(resources, fallback, p.(inner := p.inner + 1))), scan, fallback)
      == if IsObservedEdge(resources, fallback, p) then
           rows + [ObsEdgeRow(From(r, r.relationships[p.inner].value), scan, fallback)]
         else rows
  {
    NextPart(resources, fallback, p);
    var text := FromText(resources, fallback, p);
    if text.Some? {
      var r, items := resources[p.outer].value, ItemsUpTo(resources, fallback, p);
      var item := Keyed(text.value, From(r, r.relationships[p.inner].value));
      FirstPerKeyStep(items, item);
      FromTexts(resources, fallback, p, text.value);
      FromRowsGrow(FirstPerKey({}, items), item, scan, fallback);
    }
  }

  lemma FromRowsGrow(kept: EdgeItems, item: Keyed<string, From>, scan: string, fallback: string)
    ensures ObsEdgeRows(kept + [item], scan, fallback)
         == ObsEdgeRows(kept, scan, fallback) + [ObsEdgeRow(item.value, scan, fallback)]
  {
  }

  lemma FromLogGrows(resources: Resources, scan: string, fallback: string, p: Place,
      log: seq<Write<ObservedEdge, string>>) returns (more: seq<Write<ObservedEdge, string>>)
    requires IsObservedEdge(resources, fallback, p) && FromLog(resources, scan, fallback, p, log)
    ensures FromLog(resources, scan, fallback, p.(inner := p.inner + 1), more)
    ensures var r := resources[p.outer].value;
      RowsOfLog(more) == RowsOfLog(log) + [ObsEdgeRow(From(r, r.relationships[p.inner].value), scan, fallback)]
  {
    var r := resources[p.outer].value;
    var row := ObsEdgeRow(From(r, r.relationships[p.inner].value), scan, fallback);
    var w := Write(p, row.0, row.1);
    assert FromWrite(resources, scan, fallback, w);
    more := log + [w];
    forall i | 0 <= i < |log| ensures log[i].at.Before(w.at) {
      assert log[i] in log;
    }
    JustBefore(p);
    forall v | FromWrite(resources, scan, fallback, v) && v.at == p ensures v == w {
      assert v.key == w.key;
    }
  }

  // ---------------------------------------------------------------- the whole scan

  /** Each table but the scan table is what the writes above make of it, the last write of a row
      counting; the scan table has the row of the scan, and of a complete scan the counters against
      its previous scan. */
  ghost predicate ScanPersisted(before: Tables, after: Tables, resources: Resources, options: Options, m: Metadata) {
    var n := |resources|;
    && (exists log :: LiveLog(resources, options, n, log) && LastWins(before.live, after.live, log))
    && (exists log :: EdgeLog(resources, options, n, log) && LastWins(before.edges, after.edges, log))
    && (exists log ::
          ObsLog(resources, m.id, m.provider, n, log) && LastWins(before.observations, after.observations, log))
    && (exists log ::
          FromLog(resources, m.id, m.provider, Place(n, 0), log)
          && LastWins(before.observedEdges, after.observedEdges, log))
    && ScanRecorded(before, after, m)
  }

  ghost predicate ScanRecorded(before: Tables, after: Tables, m: Metadata) {
    && RowRecorded(before.scans, after.scans, m)
    && (m.complete ==>
          Counts(after.scans[m.id], after.observations, m.id, PreviousOf(after.scans, m.id)))
  }

  /** The scan's row has its metadata, with defaults for an empty provider and status; the counters of an
      incomplete scan are those the row had, or 0; no other row has changed. */
  ghost predicate RowRecorded(before: Scans, after: Scans, m: Metadata) {
    && m.id in after
    && (forall id :: id != m.id ==> (id in before <==> id in after) && (id in before ==> after[id] == before[id]))
    && var row := after[m.id];
       && row.provider == (if m.provider == "" then "unknown" else m.provider)
       && row.status == (if m.status == "" then "completed" else m.status)
       && row.scopeKey == m.scopeKey && row.complete == m.complete && row.start == m.start && row.total == m.total
       && (!m.complete && m.id in before ==>
             row.created == before[m.id].created && row.updated == before[m.id].updated
             && row.deleted == before[m.id].deleted)
       && (!m.complete && m.id !in before ==> row.created == row.updated == row.deleted == 0)
  }

  lemma ScansAfterRecords(scans: Scans, observations: map<ObsKey, string>, m: Metadata)
    ensures RowRecorded(scans, ScansAfter(scans, observations, m), m)
  {
  }

  /** The previous scan does not depend on the row of the scan itself. */
  lemma SamePrevious(scans: Scans, after: Scans, provider: string, scopeKey: string, id: string, start: int)
    requires forall i :: i != id ==> (i in scans <==> i in after) && (i in scans ==> scans[i] == after[i])
    ensures Previous(scans, provider, scopeKey, id, start) == Previous(after, provider, scopeKey, id, start)
  {
    var ids := Candidates(scans, provider, scopeKey, id, start);
    assert Candidates(after, provider, scopeKey, id, start) == ids;
    if ids != {} {
      var m := LatestOf(scans, ids);
      forall i | i in ids ensures NotAfter(after, i, m) {
        assert NotAfter(scans, i, m);
      }
      assert IsLatest(after, ids, m);
      LatestIsUnique(after, ids, m, LatestOf(after, ids));
    }
  }

  /** For every complete scan, whatever the tables held before: its counters are the numbers of its rows
      that its previous scan lacks, of those it has with another hash, and of the rows of the previous
      scan that are gone. */
  lemma CountersAreExact(t: Tables, resources: Resources, options: Options, m: Metadata)
    requires m.complete
    ensures var after := Persisted(t, resources, options, m);
      m.id in after.scans && Counts(after.scans[m.id], after.observations, m.id, PreviousOf(after.scans, m.id))
  {
    var after := Persisted(t, resources, options, m);
    var row := MetadataRow(t.scans, m);
    SamePrevious(t.scans[m.id := row], after.scans, row.provider, m.scopeKey, m.id, m.start);
    SizesCount(after.scans[m.id], after.observations, m.id, PreviousOf(after.scans, m.id));
  }

  lemma PersistedRecords(t: Tables, resources: Resources, options: Options, m: Metadata)
    ensures ScanRecorded(t, Persisted(t, resources, options, m), m)
  {
    ScansAfterRecords(t.scans, Persisted(t, resources, options, m).observations, m);
    if m.complete {
      CountersAreExact(t, resources, options, m);
    }
  }

  lemma LiveMeans(t: Tables, resources: Resources, options: Options)
    returns (live: seq<Write<LiveKey, string>>, edges: seq<Write<Edge, string>>)
    ensures LiveLog(resources, options, |resources|, live) && EdgeLog(resources, options, |resources|, edges)
    ensures LastWins(t.live, AfterStoring(t, Stored(resources, options), options).live, live)
    ensures LastWins(t.edges, AfterStoring(t, Stored(resources, options), options).edges, edges)
  {
    assert resources[..|resources|] == resources;
    live := LiveLogOf(resources, options, |resources|);
    edges := EdgeLogOf(resources, options, |resources|);
    LogWins(t.live, live);
    LogWins(t.edges, edges);
    assert Replayed(t.live, live) && Replayed(t.edges, edges);
  }

  lemma ObservedMeans(t: Tables, resources: Resources, m: Metadata)
    returns (rows: seq<Write<ObsKey, string>>, edges: seq<Write<ObservedEdge, string>>)
    ensures ObsLog(resources, m.id, m.provider, |resources|, rows)
    ensures FromLog(resources, m.id, m.provider, Place(|resources|, 0), edges)
    ensures LastWins(t.observations, AfterObserving(t, resources, m).observations, rows)
    ensures LastWins(t.observedEdges, AfterObserving(t, resources, m).observedEdges, edges)
  {
    assert resources[..|resources|] == resources;
    rows := ObsLogOf(resources, m.id, m.provider, |resources|);
    edges := FromLogOf(resources, m.id, m.provider, Place(|resources|, 0));
    assert ItemsUpTo(resources, m.provider, Place(|resources|, 0)) == ObsEdgeItems(resources, m.provider);
    LogWins(t.observations, rows);
    LogWins(t.observedEdges, edges);
    assert Replayed(t.observations, rows) && Replayed(t.observedEdges, edges);
  }

  lemma PersistedMeans(t: Tables, resources: Resources, options: Options, m: Metadata)
    ensures ScanPersisted(t, Persisted(t, resources, options, m), resources, options, m)
  {
    var live, edges := LiveMeans(t, resources, options);
    var rows, observedEdges := ObservedMeans(t, resources, m);
    PersistedRecords(t, resources, options, m);
    var after := Persisted(t, resources, options, m);
    assert after.live == AfterStoring(t, Stored(resources, options), options).live;
    assert after.edges == AfterStoring(t, Stored(resources, options), options).edges;
    assert after.observations == AfterObserving(t, resources, m).observations;
    assert after.observedEdges == AfterObserving(t, resources, m).observedEdges;
  }

  /** Exactly these scans are accepted: every resource has a table, and no stored one goes to the custom
      table without a provider. */
  lemma AcceptedExactly(resources: Resources, options: Options)
    ensures Accepted(resources, options) <==>
      && (forall i :: 0 <= i < |resources| && resources[i].Some? ==>
            exists table :: Destined(resources[i].value.provider, options, table))
      && (forall i: nat ::
            (IsStored(resources, options, i)
             && Destined(resources[i].value.provider, options, options.catalog.custom)) ==>
              TrimSpace(resources[i].value.provider) != "")
  {
    var n := |resources|;
    assert resources[..n] == resources;
    forall i | 0 <= i < n
      ensures Selectable(resources[i], options) <==>
        resources[i].Some? ==> exists table :: Destined(resources[i].value.provider, options, table)
      ensures resources[i].Some? ==>
        (Storable(resources[i].value, options) <==>
          (Destined(resources[i].value.provider, options, options.catalog.custom) ==>
             TrimSpace(resources[i].value.provider) != ""))
    {
      if resources[i].Some? {
        ResourceTableExactly(resources[i].value, options, options.catalog.custom);
      }
    }
    StoredAreFirst(resources, options, n);
  }

  lemma {:induction false} StoredAreFirst(resources: Resources, options: Options, n: nat)
    requires n <= |resources|
    ensures AllStorable(Stored(resources[..n], options), options) <==>
      forall i: nat :: i < n && IsStored(resources, options, i) ==> Storable(resources[i].value, options)
  {
    if n > 0 {
      StoredAreFirst(resources, options, n - 1);
      StorableSoFar(resources, options, n - 1);
    }
  }

  lemma StorableSoFar(resources: Resources, options: Options, n: nat)
    requires n < |resources|
    ensures AllStorable(Stored(resources[..n + 1], options), options) <==>
      && AllStorable(Stored(resources[..n], options), options)
      && (IsStored(resources, options, n) ==> Storable(resources[n].value, options))
  {
    StoredStep(resources, n, options);
    if resources[n].Some? {
      var item := LiveItem(resources[n].value, options);
      LiveTexts(resources, options, n, item.key);
      StorableStep(Stored(resources[..n], options), item, options);
      assert LiveText(resources, options, n) == Some(item.key);
    }
  }
}
