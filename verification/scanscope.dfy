/** One scope's scan (internal/scanexec/executor.go) and the split of a provider's error entries
    into errors and notices (internal/shared/scan_errors.go). */
module ScanScope {
  import opened Wrappers

  type int32 = x: int | -0x8000_0000 <= x < 0x8000_0000

  datatype Resource = Resource(provider: string, accountId: string, typ: string, id: string, payload: string)

  datatype Stats = Stats(failedResources: int32, serviceCounts: map<string, int32>)

  datatype Response = Response(resources: seq<Option<Resource>>, stats: Option<Stats>, errors: seq<string>)

  /** What BatchScan returns for a scope: an error, no response, or a response. */
  datatype Reply = TransportError(message: string) | NoResponse | Replied(response: Response)

  datatype ScopeResult = ScopeResult(
    scope: string,
    resources: seq<Option<Resource>>,
    stats: Option<Stats>,
    errors: seq<string>,
    notices: seq<string>,
    unreachable: bool)

  const ZERO := ScopeResult("", [], None, [], [], false)

  predicate IsCoverageNotice(entry: string) {
    "access_denied:" <= entry || "not_enabled:" <= entry
  }

  predicate IsScanNotice(entry: string) {
    "unsupported_type:" <= entry || IsCoverageNotice(entry)
  }

  predicate Begins(entry: string, prefix: string) {
    |prefix| <= |entry| && forall i :: 0 <= i < |prefix| ==> entry[i] == prefix[i]
  }

  /** Notices are the entries that begin with one of three prefixes. */
  lemma NoticesExactly(entry: string)
    ensures IsScanNotice(entry) <==>
      Begins(entry, "unsupported_type:") || Begins(entry, "access_denied:") || Begins(entry, "not_enabled:")
  {
    PrefixExactly(entry, "unsupported_type:");
    PrefixExactly(entry, "access_denied:");
    PrefixExactly(entry, "not_enabled:");
  }

  lemma PrefixExactly(entry: string, prefix: string)
    ensures prefix <= entry <==> Begins(entry, prefix)
  {
  }

  /** The entries of one kind, in order. */
  function Entries(entries: seq<string>, notices: bool): seq<string> {
    if entries == [] then []
    else
      var last := |entries| - 1;
      Entries(entries[..last], notices) + if IsScanNotice(entries[last]) == notices then [entries[last]] else []
  }

  method SplitScanErrors(entries: seq<string>) returns (errs: seq<string>, notices: seq<string>)
    ensures errs == Entries(entries, false)
    ensures notices == Entries(entries, true)
  {
    errs, notices := [], [];
    for i := 0 to |entries|
      invariant errs == Entries(entries[..i], false)
      invariant notices == Entries(entries[..i], true)
    {
      assert entries[..i + 1][..i] == entries[..i];
      if IsScanNotice(entries[i]) {
        notices := notices + [entries[i]];
      } else {
        errs := errs + [entries[i]];
      }
    }
    assert entries[..|entries|] == entries;
  }

  /** No entry is lost, doubled or put on the wrong side by the split. */
  lemma {:induction false} EntriesPartition(entries: seq<string>)
    ensures multiset(Entries(entries, false)) + multiset(Entries(entries, true)) == multiset(entries)
    ensures forall e :: e in Entries(entries, false) ==> !IsScanNotice(e)
    ensures forall e :: e in Entries(entries, true) ==> IsScanNotice(e)
  {
    if entries != [] {
      var last := |entries| - 1;
      EntriesPartition(entries[..last]);
      assert entries == entries[..last] + [entries[last]];
    }
  }

  /** These are exactly the entries of one kind, at increasing places. */
  ghost predicate Picked(entries: seq<string>, notices: bool, picked: seq<string>, at: seq<nat>) {
    && |at| == |picked|
    && (forall k :: 0 <= k < |at| ==> at[k] < |entries| && picked[k] == entries[at[k]])
    && (forall j, k :: 0 <= j < k < |at| ==> at[j] < at[k])
    && (forall i :: 0 <= i < |entries| ==> (i in at <==> IsScanNotice(entries[i]) == notices))
  }

  /** The places before n that are marked. */
  function Marked(marks: seq<bool>, n: nat): seq<nat>
    requires n <= |marks|
  {
    if n == 0 then [] else Marked(marks, n - 1) + if marks[n - 1] then [n - 1] else []
  }

  lemma {:induction false} MarkedExactly(marks: seq<bool>, n: nat)
    requires n <= |marks|
    ensures var at := Marked(marks, n);
      && (forall k :: 0 <= k < |at| ==> at[k] < n && marks[at[k]])
      && (forall j, k :: 0 <= j < k < |at| ==> at[j] < at[k])
      && (forall i :: 0 <= i < n ==> (i in at <==> marks[i]))
  {
    if n > 0 {
      MarkedExactly(marks, n - 1);
    }
  }

  lemma {:induction false} EntriesAreMarked(entries: seq<string>, notices: bool, marks: seq<bool>, n: nat)
    requires n <= |entries| == |marks|
    requires forall i :: 0 <= i < |entries| ==> marks[i] == (IsScanNotice(entries[i]) == notices)
    ensures var at, picked := Marked(marks, n), Entries(entries[..n], notices);
      |at| == |picked| && forall k :: 0 <= k < |at| ==> at[k] < n && picked[k] == entries[at[k]]
  {
    if n > 0 {
      EntriesAreMarked(entries, notices, marks, n - 1);
      assert entries[..n][..n - 1] == entries[..n - 1];
    }
  }

  /** The split keeps the order. */
  lemma EntriesInOrder(entries: seq<string>, notices: bool) returns (at: seq<nat>)
    ensures Picked(entries, notices, Entries(entries, notices), at)
  {
    var marks := seq(|entries|, i requires 0 <= i < |entries| => IsScanNotice(entries[i]) == notices);
    at := Marked(marks, |entries|);
    MarkedExactly(marks, |entries|);
    EntriesAreMarked(entries, notices, marks, |entries|);
    assert entries[..|entries|] == entries;
  }

  /** scanScope. */
  function ScanOne(scope: string, reply: Reply): ScopeResult {
    match reply
    case TransportError(message) => ScopeResult(scope, [], None, [message], [], true)
    case NoResponse => ScopeResult(scope, [], None, ["provider returned an empty scan response"], [], true)
    case Replied(r) =>
      ScopeResult(scope, r.resources, r.stats, Entries(r.errors, false), Entries(r.errors, true), false)
  }
}
