/** The byte budget of an extraction (internal/archive/archive.go) and the walks over tar and zip
    entries that charge it (internal/archive/walk.go). */
module Extraction {
  const MAX64: int := 0x7FFF_FFFF_FFFF_FFFF

  type int64 = x: int | -MAX64 - 1 <= x <= MAX64

  function Wrap64(x: int): int64 {
    (x + MAX64 + 1) % 0x1_0000_0000_0000_0000 - MAX64 - 1
  }

  datatype Limits = Limits(bytesMax: int64, entryCountMax: int, entryBytesMax: int64) {
    predicate Positive() { bytesMax > 0 && entryCountMax > 0 && entryBytesMax > 0 }

    /** limit+1 in copy is an int64. */
    predicate Bounded() { bytesMax < MAX64 || entryBytesMax < MAX64 }
  }

  datatype Error =
    | None
    | NegativeSize | EntryTooBig | TotalTooBig      // limit failures
    | BadLimits | TooManyEntries | Unsupported | SizeOverflow
    | OpenFailed | CloseFailed | ReadFailed | CopyFailed | VisitFailed | SkipRefused

  /** The bytes an entry really holds; reading them may fail after some of them. */
  datatype Body = Whole(bytes: string) | Broken(bytes: string)

  function Min(a: int, b: int): int {
    if a < b then a else b
  }

  class Budget {
    const bytesMax: int64
    const entryMax: int64
    var remaining: int64
    var written: int64
    var skipped: int64
    var charged: bool
    ghost var emitted: nat  // bytes that reached a file, charged or not

    ghost predicate Valid()
      reads this
    {
      && 0 <= remaining && 0 <= written && 0 <= skipped && 0 < entryMax
      && written + skipped + remaining == bytesMax
    }

    constructor (limits: Limits)
      requires limits.Positive()
      ensures Valid() && written == 0 && skipped == 0 && emitted == 0
      ensures bytesMax == limits.bytesMax && entryMax == limits.entryBytesMax
    {
      bytesMax, remaining, entryMax := limits.bytesMax, limits.bytesMax, limits.entryBytesMax;
      written, skipped, charged, emitted := 0, 0, false, 0;
    }

    function Admit(size: int): Error
      reads this
    {
      if size < 0 then NegativeSize
      else if size > entryMax then EntryTooBig
      else if size > remaining then TotalTooBig
      else None
    }

    method Skip(size: int) returns (err: Error)
      requires Valid()
      modifies this`remaining, this`skipped
      ensures Valid()
      ensures err == old(Admit(size))
      ensures skipped == old(skipped) + (if err.None? then size else 0)
      ensures err.None? || remaining == old(remaining)
    {
      err := Admit(size);
      if err.None? {
        remaining := remaining - size;
        skipped := skipped + size;
        assert remaining >= 0;
      }
    }

    /** The tighter of the two limits. */
    function Limit(): int64
      reads this
    {
      Min(entryMax, remaining)
    }

    predicate Bounded() {
      bytesMax < MAX64 || entryMax < MAX64
    }

    predicate Within(limits: Limits) {
      bytesMax == limits.bytesMax && entryMax == limits.entryBytesMax && limits.Positive()
    }

    /** io.Copy through a LimitReader of limit+1 bytes. The copy succeeds exactly when the body can
        be read and fits both limits, and then all of it is written; at most one byte past the
        limit reaches the file. When both limits are the largest int64, limit+1 overflows,
        LimitReader reads nothing, and the copy reports success without having copied. */
    method Copy(body: Body) returns (sent: string, err: Error)
      requires Valid()
      modifies this`remaining, this`written, this`charged, this`emitted
      ensures Valid() && charged
      ensures old(Limit()) < MAX64 ==> (err.None? <==> body.Whole? && |body.bytes| <= old(Limit()))
      ensures old(Limit()) < MAX64 && err.None? ==> sent == body.bytes
      ensures old(Limit()) == MAX64 ==> err.None? && sent == ""
      ensures err.None? ==> written == old(written) + |sent| && remaining == old(remaining) - |sent|
      ensures !err.None? ==> written == old(written) && remaining == old(remaining)
      ensures sent <= body.bytes && |sent| <= old(Limit()) + 1
      ensures emitted == old(emitted) + |sent|
      ensures err in {None, CopyFailed, EntryTooBig, TotalTooBig}
    {
      var limit: int := Limit();
      var window := Wrap64(limit + 1);
      var n := if window <= 0 then 0 else Min(window, |body.bytes|);
      sent := body.bytes[..n];
      charged := true;
      emitted := emitted + n;
      if body.Broken? && n < window {
        return sent, CopyFailed;
      }
      if n > entryMax {
        return sent, EntryTooBig;
      }
      if n > remaining {
        return sent, TotalTooBig;
      }
      remaining := remaining - n;
      written := written + n;
      assert remaining >= 0;
      err := None;
    }
  }

  // ---------------------------------------------------------------- visiting an entry

  class Disk {
    var files: map<string, string>
  }

  /** What a visitor does with an entry. Write opens the entry and creates the file, which may
      fail, copies the body, and closes both, which may fail. Install writes a temporary sibling
      that way, renames it to the path, and stops the walk; the rename and the removal of the
      sibling after a failure may themselves fail. */
  datatype Visit =
    | Ignore
    | Fail
    | Write(path: string, body: Body, opens: bool, closes: bool)
    | Install(path: string, body: Body, opens: bool, closes: bool, renames: bool, removes: bool)
  {
    predicate Copies() { Write? || Install? }

    /** The visit succeeds when this much may still be copied of an entry. */
    predicate Fits(limit: int) {
      match this
      case Ignore => true
      case Fail => false
      case Write(_, body, opens, closes) => opens && closes && body.Whole? && |body.bytes| <= limit
      case Install(_, body, opens, closes, renames, _) =>
        opens && closes && renames && body.Whole? && |body.bytes| <= limit
    }

    function Touches(): set<string> {
      match this
      case Write(path, _, _, _) => {path}
      case Install(path, _, _, _, _, _) => {path, path + ".partial"}
      case _ => {}
    }

    /** The files after a visit that succeeds. */
    function Effect(files: map<string, string>): map<string, string> {
      match this
      case Write(path, body, _, _) => files[path := body.bytes]
      case Install(path, body, _, _, _, _) => files[path := body.bytes] - {path + ".partial"}
      case _ => files
    }
  }

  /** The files of a disk are as before, except perhaps some. */
  ghost predicate OnlyAt(before: map<string, string>, after: map<string, string>, paths: set<string>) {
    forall p :: p !in paths ==> (p in before <==> p in after) && (p in before ==> after[p] == before[p])
  }

  /** writeEntry. */
  method WriteEntry(path: string, body: Body, opens: bool, closes: bool, b: Budget, disk: Disk) returns (err: Error)
    requires b.Valid()
    modifies b`remaining, b`written, b`charged, b`emitted, disk
    ensures b.Valid()
    ensures OnlyAt(old(disk.files), disk.files, {path})
    ensures err.None? ==>
      && b.charged && path in disk.files
      && disk.files == old(disk.files)[path := disk.files[path]]
      && b.written == old(b.written) + |disk.files[path]|
      && b.emitted == old(b.emitted) + |disk.files[path]|
      && (old(b.Limit()) < MAX64 ==> body == Whole(disk.files[path]))
    ensures old(b.Limit()) < MAX64 ==>
      (err.None? <==> opens && closes && body.Whole? && |body.bytes| <= old(b.Limit()))
    ensures b.emitted <= old(b.emitted) + old(b.remaining) + 1
    ensures err != SkipRefused && err != CloseFailed
  {
    if !opens {
      return VisitFailed;
    }
    var sent;
    sent, err := b.Copy(body);
    disk.files := disk.files[path := sent];
    if err.None? && !closes {
      err := VisitFailed;
    }
  }

  method RunVisit(visit: Visit, b: Budget, disk: Disk) returns (done: bool, err: Error)
    requires b.Valid()
    modifies b`remaining, b`written, b`charged, b`emitted, disk
    ensures b.Valid()
    ensures OnlyAt(old(disk.files), disk.files, visit.Touches())
    ensures !visit.Copies() ==> b.written == old(b.written) && b.remaining == old(b.remaining)
                                && b.emitted == old(b.emitted) && b.charged == old(b.charged)
    ensures err.None? ==> done == visit.Install? && !visit.Fail?
    ensures err.None? && visit.Copies() ==> b.charged && b.written - old(b.written) == b.emitted - old(b.emitted)
    ensures err.None? && visit.Copies() && old(b.Limit()) < MAX64 ==>
      visit.body.Whole? && b.written == old(b.written) + |visit.body.bytes|
    ensures err.None? && old(b.Limit()) < MAX64 ==> disk.files == visit.Effect(old(disk.files))
    // A failed install leaves the file it was to replace as it was.
    ensures !err.None? && visit.Install? ==>
      (visit.path in disk.files <==> visit.path in old(disk.files))
      && (visit.path in disk.files ==> disk.files[visit.path] == old(disk.files[visit.path]))
    ensures old(b.Limit()) < MAX64 ==> (err.None? <==> visit.Fits(old(b.Limit())))
    ensures b.emitted <= old(b.emitted) + old(b.remaining) + 1
    ensures err != SkipRefused && err != CloseFailed
  {
    match visit
    case Ignore => done, err := false, None;
    case Fail => done, err := false, VisitFailed;
    case Write(path, body, opens, closes) =>
      done := false;
      err := WriteEntry(path, body, opens, closes, b, disk);
    case Install(path, body, opens, closes, renames, removes) =>
      done := true;
      var temporary := path + ".partial";
      err := WriteEntry(temporary, body, opens, closes, b, disk);
      if err.None? && renames {
        disk.files := disk.files[path := disk.files[temporary]] - {temporary};
      } else {
        err := if err.None? then VisitFailed else err;
        if removes {
          disk.files := disk.files - {temporary};
        }
      }
  }

  // ---------------------------------------------------------------- entries and what a walk makes of them

  datatype Format = Tar | Zip

  datatype Kind = File | Dir | GlobalHeader | Other

  /** A header with its declared size, or the place where reading the archive fails. */
  datatype Item = Header(kind: Kind, name: string, size: int) | Unreadable {
    predicate IsEntry() { Header? && (kind.File? || kind.Dir?) }

    /** The walk knows what to do with it: a tar stream may also hold PAX global headers. */
    predicate Supported(format: Format) { IsEntry() || (format.Tar? && Header? && kind.GlobalHeader?) }
  }

  function Entries(items: seq<Item>): seq<bool> {
    seq(|items|, i requires 0 <= i < |items| => items[i].IsEntry())
  }

  /** Bytes written for the first n entries when all of them succeed. */
  function WrittenBy(visits: seq<Visit>, entry: seq<bool>, n: nat): nat
    requires n <= |visits| == |entry|
  {
    if n == 0 then 0
    else
      var last := if entry[n - 1] && visits[n - 1].Copies() then |visits[n - 1].body.bytes| else 0;
      WrittenBy(visits, entry, n - 1) + last
  }

  /** Bytes charged as skipped: in a tar stream the declared sizes of the entries that were not
      copied. Unread zip members are never decompressed, so they cost nothing. */
  function SkippedBy(format: Format, items: seq<Item>, visits: seq<Visit>, n: nat): int
    requires n <= |items| == |visits|
  {
    if n == 0 then 0
    else
      var last := if format.Tar? && items[n - 1].IsEntry() && !visits[n - 1].Copies() then items[n - 1].size else 0;
      SkippedBy(format, items, visits, n - 1) + last
  }

  /** The files after the first n entries when all of them succeed: of entries with the same path
      the last one wins. */
  function FilesAfter(before: map<string, string>, visits: seq<Visit>, entry: seq<bool>, n: nat): map<string, string>
    requires n <= |visits| == |entry|
  {
    if n == 0 then before
    else
      var sofar := FilesAfter(before, visits, entry, n - 1);
      if entry[n - 1] then visits[n - 1].Effect(sofar) else sofar
  }

  /** How many items a walk looks at when none fails: it stops after the first install. */
  function End(entry: seq<bool>, visits: seq<Visit>, from: nat): (end: nat)
    requires from <= |visits| == |entry|
    ensures from <= end <= |visits| && (from < |visits| ==> from < end)
    ensures forall i :: from <= i < end - 1 ==> !(entry[i] && visits[i].Install?)
    ensures end == |visits| || (end > 0 && entry[end - 1] && visits[end - 1].Install?)
    decreases |visits| - from
  {
    if from == |visits| then from
    else if entry[from] && visits[from].Install? then from + 1
    else End(entry, visits, from + 1)
  }

  /** What remains of the budget when item i is reached. */
  function RemainingAt(format: Format, items: seq<Item>, visits: seq<Visit>, i: nat, bytesMax: int): int
    requires i <= |items| == |visits|
  {
    bytesMax - WrittenBy(visits, Entries(items), i) - SkippedBy(format, items, visits, i)
  }

  /** Item i is got past: a supported kind, a declared size within both limits, and a visit that
      succeeds within them. */
  predicate Passes(format: Format, items: seq<Item>, visits: seq<Visit>, i: nat, limits: Limits)
    requires i < |items| == |visits|
  {
    var remaining := RemainingAt(format, items, visits, i, limits.bytesMax);
    && items[i].Supported(format)
    && (items[i].IsEntry() ==>
          && 0 <= items[i].size <= limits.entryBytesMax && items[i].size <= remaining
          && visits[i].Fits(Min(limits.entryBytesMax, remaining)))
  }

  /** Exactly these walks succeed. A zip archive is refused for its number of members at once, a tar
      stream when one too many is reached. */
  predicate Succeeds(format: Format, items: seq<Item>, visits: seq<Visit>, limits: Limits)
    requires |items| == |visits|
  {
    var end := End(Entries(items), visits, 0);
    && (if format.Zip? then |items| else end) <= limits.entryCountMax
    && forall i :: 0 <= i < end ==> Passes(format, items, visits, i, limits)
  }

  /** Files are as before except those the first n visits touch. */
  ghost predicate OnlyTouched(before: map<string, string>, after: map<string, string>, visits: seq<Visit>, n: nat)
    requires n <= |visits|
  {
    forall p :: (forall i :: 0 <= i < n ==> p !in visits[i].Touches()) ==>
      (p in before <==> p in after) && (p in before ==> after[p] == before[p])
  }

  lemma OnlyTouchedMore(before: map<string, string>, mid: map<string, string>, after: map<string, string>,
      visits: seq<Visit>, n: nat)
    requires n < |visits| && OnlyTouched(before, mid, visits, n)
    requires OnlyAt(mid, after, visits[n].Touches())
    ensures OnlyTouched(before, after, visits, n + 1)
  {
  }

  /** Every path to install is as before, unless a plain write or another install's temporary
      file goes there. */
  ghost predicate InstallsUndone(before: map<string, string>, after: map<string, string>, visits: seq<Visit>) {
    forall p ::
      (forall i :: 0 <= i < |visits| && p in visits[i].Touches() ==> visits[i].Install? && visits[i].path == p) ==>
      (p in before <==> p in after) && (p in before ==> after[p] == before[p])
  }

  // ---------------------------------------------------------------- the tar walk

  /** The part of walkTar's loop body that handles a file or directory: admit the declared size,
      visit, and charge the size as skipped unless the visit charged its own bytes. */
  method VisitTarEntry(item: Item, visit: Visit, b: Budget, disk: Disk) returns (done: bool, err: Error)
    requires item.IsEntry() && b.Valid() && b.emitted == b.written
    modifies b, disk
    ensures b.Valid()
    ensures b.emitted <= b.bytesMax + 1
    ensures err != SkipRefused && err != CloseFailed
    ensures OnlyAt(old(disk.files), disk.files, visit.Touches())
    ensures err.None? ==>
      && done == visit.Install? && !visit.Fail?
      && b.emitted == b.written
      && b.skipped == old(b.skipped) + (if visit.Copies() then 0 else item.size)
    ensures err.None? && b.Bounded() ==>
      && b.written == old(b.written) + (if visit.Copies() then |visit.body.bytes| else 0)
      && disk.files == visit.Effect(old(disk.files))
    ensures b.Bounded() ==> (err.None? <==> old(b.Admit(item.size)).None? && visit.Fits(old(b.Limit())))
    ensures !err.None? && visit.Install? ==>
      (visit.path in disk.files <==> visit.path in old(disk.files))
      && (visit.path in disk.files ==> disk.files[visit.path] == old(disk.files[visit.path]))
  {
    done, err := false, b.Admit(item.size);
    if !err.None? {
      return;
    }
    b.charged := false;
    done, err := RunVisit(visit, b, disk);
    if err.None? && !done && !b.charged {
      err := b.Skip(item.size);
      if !err.None? {
        err := SkipRefused;
      }
    }
  }

  /** A walk that succeeds has seen only readable items, and no visit that always fails. */
  predicate Seen(item: Item, visit: Visit) {
    item.Header? && !item.kind.Other? && (item.IsEntry() ==> !visit.Fail?)
  }

  /** Where a walk stands that has got past the first n items: its books, and the files on the disk. */
  ghost predicate Upto(format: Format, items: seq<Item>, visits: seq<Visit>, limits: Limits, n: nat,
      before: map<string, string>, files: map<string, string>, written: int, skipped: int)
    requires n <= |items| == |visits|
  {
    && skipped == SkippedBy(format, items, visits, n)
    && OnlyTouched(before, files, visits, n)
    && (forall i :: 0 <= i < n ==> Seen(items[i], visits[i]))
    && (limits.Bounded() ==>
          && written == WrittenBy(visits, Entries(items), n)
          && files == FilesAfter(before, visits, Entries(items), n)
          && forall i :: 0 <= i < n ==> Passes(format, items, visits, i, limits))
  }

  lemma UptoMore(format: Format, items: seq<Item>, visits: seq<Visit>, limits: Limits, n: nat,
      before: map<string, string>, mid: map<string, string>, files: map<string, string>,
      written: int, skipped: int, copied: int, charged: int)
    requires n < |items| == |visits| && Upto(format, items, visits, limits, n, before, mid, written, skipped)
    requires Seen(items[n], visits[n]) && OnlyAt(mid, files, visits[n].Touches())
    requires charged == if format.Tar? && items[n].IsEntry() && !visits[n].Copies() then items[n].size else 0
    requires limits.Bounded() ==>
      && Passes(format, items, visits, n, limits)
      && copied == (if items[n].IsEntry() && visits[n].Copies() then |visits[n].body.bytes| else 0)
      && files == if items[n].IsEntry() then visits[n].Effect(mid) else mid
    ensures Upto(format, items, visits, limits, n + 1, before, files, written + copied, skipped + charged)
  {
    OnlyTouchedMore(before, mid, files, visits, n);
  }

  /** A visit whose install fails leaves the paths to install as they were. */
  lemma UndoneMore(before: map<string, string>, mid: map<string, string>, files: map<string, string>,
      visits: seq<Visit>, n: nat)
    requires n < |visits| && InstallsUndone(before, mid, visits) && OnlyAt(mid, files, visits[n].Touches())
    requires visits[n].Install? ==>
      (visits[n].path in files <==> visits[n].path in mid)
      && (visits[n].path in files ==> files[visits[n].path] == mid[visits[n].path])
    ensures InstallsUndone(before, files, visits)
  {
  }

  /** Whether a walk stops at item n. */
  predicate StopsAt(items: seq<Item>, visits: seq<Visit>, n: nat)
    requires n < |items| == |visits|
  {
    items[n].IsEntry() && visits[n].Install?
  }

  lemma EndStep(items: seq<Item>, visits: seq<Visit>, n: nat)
    requires n < |items| == |visits|
    ensures End(Entries(items), visits, n)
         == if StopsAt(items, visits, n) then n + 1 else End(Entries(items), visits, n + 1)
  {
  }

  /** An item before the end that does not pass fails the walk. */
  lemma FailsAt(format: Format, items: seq<Item>, visits: seq<Visit>, n: nat, limits: Limits)
    requires n < |items| == |visits| && End(Entries(items), visits, 0) == End(Entries(items), visits, n)
    requires !Passes(format, items, visits, n, limits) || (format.Tar? && n >= limits.entryCountMax)
    ensures !Succeeds(format, items, visits, limits)
  {
    assert n < End(Entries(items), visits, 0);
  }

  /** A walk that got to its end has succeeded. */
  lemma SucceedsAt(format: Format, items: seq<Item>, visits: seq<Visit>, limits: Limits, n: nat,
      before: map<string, string>, files: map<string, string>, written: int, skipped: int)
    requires n <= |items| == |visits| && n == End(Entries(items), visits, 0) && limits.Bounded()
    requires (if format.Zip? then |items| else n) <= limits.entryCountMax
    requires Upto(format, items, visits, limits, n, before, files, written, skipped)
    ensures Succeeds(format, items, visits, limits)
  {
  }

  /** The state of a walk after n items, none of which failed. */
  ghost predicate At(format: Format, items: seq<Item>, visits: seq<Visit>, limits: Limits, n: nat,
      before: map<string, string>, files: map<string, string>, b: Budget, stopped: bool)
    requires n <= |items| == |visits|
    reads b
  {
    && b.emitted == b.written
    && Upto(format, items, visits, limits, n, before, files, b.written, b.skipped)
    && End(Entries(items), visits, 0) == (if stopped then n else End(Entries(items), visits, n))
    && (stopped <==> n > 0 && StopsAt(items, visits, n - 1))
  }

  /** One turn of walkTar's loop, after the header has been read and counted. */
  method TarTurn(items: seq<Item>, visits: seq<Visit>, limits: Limits, n: nat, b: Budget, disk: Disk,
      ghost before: map<string, string>) returns (err: Error, stopped: bool)
    requires n < |items| == |visits| && items[n].Header? && b.Valid() && b.Within(limits) && b.emitted == b.written
    requires Upto(Tar, items, visits, limits, n, before, disk.files, b.written, b.skipped)
    requires InstallsUndone(before, disk.files, visits)
    modifies b, disk
    ensures b.Valid() && b.emitted <= b.bytesMax + 1 && err != SkipRefused && err != CloseFailed
    ensures OnlyTouched(before, disk.files, visits, n + 1)
    ensures err.None? ==>
      && b.emitted == b.written
      && Upto(Tar, items, visits, limits, n + 1, before, disk.files, b.written, b.skipped)
      && stopped == StopsAt(items, visits, n)
    ensures limits.Bounded() ==> (err.None? <==> Passes(Tar, items, visits, n, limits))
    ensures !stopped ==> InstallsUndone(before, disk.files, visits)
    ensures !err.None? ==> !stopped
  {
    var item := items[n];
    ghost var mid, written, skipped := disk.files, b.written, b.skipped;
    assert limits.Bounded() ==> b.remaining == RemainingAt(Tar, items, visits, n, limits.bytesMax);
    stopped, err := false, None;
    if item.kind.Other? {
      err := Unsupported;
    } else if !item.kind.GlobalHeader? {
      stopped, err := VisitTarEntry(item, visits[n], b, disk);
    }
    OnlyTouchedMore(before, mid, disk.files, visits, n);
    if err.None? {
      UptoMore(Tar, items, visits, limits, n, before, mid, disk.files, written, skipped,
               b.written - written, b.skipped - skipped);
    }
    stopped := stopped && err.None?;
    if !stopped {
      UndoneMore(before, mid, disk.files, visits, n);
    }
  }

  /** The loop body of walkTar. */
  method TarStep(items: seq<Item>, visits: seq<Visit>, limits: Limits, n: nat, b: Budget, disk: Disk,
      ghost before: map<string, string>) returns (err: Error, count: nat, stopped: bool)
    requires n < |items| == |visits| && n <= limits.entryCountMax && b.Valid() && b.Within(limits)
    requires At(Tar, items, visits, limits, n, before, disk.files, b, false)
    requires InstallsUndone(before, disk.files, visits)
    modifies b, disk
    ensures b.Valid() && b.emitted <= b.bytesMax + 1 && err != SkipRefused && err != CloseFailed
    ensures n <= count <= n + 1 && count <= limits.entryCountMax && (err.None? ==> count == n + 1)
    ensures OnlyTouched(before, disk.files, visits, count)
    ensures err.None? ==> At(Tar, items, visits, limits, count, before, disk.files, b, stopped)
    ensures !err.None? ==> !stopped
    ensures !err.None? && limits.Bounded() ==> !Succeeds(Tar, items, visits, limits)
    ensures !stopped ==> InstallsUndone(before, disk.files, visits)
  {
    EndStep(items, visits, n);
    if items[n].Unreadable? {
      FailsAt(Tar, items, visits, n, limits);
      return ReadFailed, n, false;
    }
    if n >= limits.entryCountMax {
      FailsAt(Tar, items, visits, n, limits);
      return TooManyEntries, n, false;
    }
    err, stopped := TarTurn(items, visits, limits, n, b, disk, before);
    count := n + 1;
    if !err.None? && limits.Bounded() {
      FailsAt(Tar, items, visits, n, limits);
    }
  }

  /** walkTar, for any items and any visitor: on every path, limit failures included, every byte
      is written, skipped or remaining; no more than bytesMax + 1 bytes reach files; no more than
      entryCountMax items are looked at; skipping an entry after its visit never fails; and it is
      said exactly when the walk succeeds, with which files and books. */
  method WalkTar(items: seq<Item>, visits: seq<Visit>, limits: Limits, b: Budget, disk: Disk)
    returns (err: Error, count: nat, stopped: bool)
    requires |visits| == |items| && b.Valid() && b.Within(limits)
    requires b.written == b.skipped == b.emitted == 0
    modifies b, disk
    ensures b.Valid()
    ensures count <= |items| && count <= limits.entryCountMax
    ensures b.emitted <= b.bytesMax + 1
    ensures err != SkipRefused && err != CloseFailed
    ensures OnlyTouched(old(disk.files), disk.files, visits, count)
    ensures err.None? ==>
      && count == End(Entries(items), visits, 0)
      && At(Tar, items, visits, limits, count, old(disk.files), disk.files, b, stopped)
    ensures !err.None? ==> !stopped
    ensures limits.Bounded() ==> (err.None? <==> Succeeds(Tar, items, visits, limits))
    ensures !err.None? ==> InstallsUndone(old(disk.files), disk.files, visits)
  {
    count, stopped, err := 0, false, None;
    while count < |items| && !stopped && err.None?
      invariant count <= |items| && count <= limits.entryCountMax
      invariant b.Valid() && b.emitted <= b.bytesMax + 1
      invariant OnlyTouched(old(disk.files), disk.files, visits, count)
      invariant err.None? ==> At(Tar, items, visits, limits, count, old(disk.files), disk.files, b, stopped)
      invariant !err.None? ==> !stopped && err != SkipRefused && err != CloseFailed
      invariant !err.None? && limits.Bounded() ==> !Succeeds(Tar, items, visits, limits)
      invariant !stopped ==> InstallsUndone(old(disk.files), disk.files, visits)
      decreases |items| - count, if err.None? then 1 else 0
    {
      err, count, stopped := TarStep(items, visits, limits, count, b, disk, old(disk.files));
    }
    if err.None? && limits.Bounded() {
      SucceedsAt(Tar, items, visits, limits, count, old(disk.files), disk.files, b.written, b.skipped);
    }
  }

  // ---------------------------------------------------------------- the zip walk

  /** One turn of walkZipFiles' loop. */
  method ZipTurn(items: seq<Item>, visits: seq<Visit>, limits: Limits, n: nat, b: Budget, disk: Disk,
      ghost before: map<string, string>) returns (err: Error, stopped: bool)
    requires n < |items| == |visits| && b.Valid() && b.Within(limits) && b.emitted == b.written
    requires Upto(Zip, items, visits, limits, n, before, disk.files, b.written, b.skipped)
    requires InstallsUndone(before, disk.files, visits)
    modifies b, disk
    ensures b.Valid() && b.emitted <= b.bytesMax + 1 && err != SkipRefused && err != CloseFailed
    ensures b.skipped == old(b.skipped)
    ensures OnlyTouched(before, disk.files, visits, n + 1)
    ensures err.None? ==>
      && b.emitted == b.written
      && Upto(Zip, items, visits, limits, n + 1, before, disk.files, b.written, b.skipped)
      && stopped == StopsAt(items, visits, n)
    ensures limits.Bounded() ==> (err.None? <==> Passes(Zip, items, visits, n, limits))
    ensures !stopped ==> InstallsUndone(before, disk.files, visits)
    ensures !err.None? ==> !stopped
  {
    var item := items[n];
    ghost var mid, written, skipped := disk.files, b.written, b.skipped;
    ZipSkipsNothing(items, visits, n);
    assert limits.Bounded() ==> b.remaining == RemainingAt(Zip, items, visits, n, limits.bytesMax);
    OnlyTouchedMore(before, mid, mid, visits, n);
    if !item.IsEntry() {
      return Unsupported, false;
    }
    if item.size > MAX64 {
      return SizeOverflow, false;
    }
    err := b.Admit(item.size);
    if !err.None? {
      return err, false;
    }
    stopped, err := RunVisit(visits[n], b, disk);
    OnlyTouchedMore(before, mid, disk.files, visits, n);
    if err.None? {
      UptoMore(Zip, items, visits, limits, n, before, mid, disk.files, written, skipped, b.written - written, 0);
    }
    stopped := stopped && err.None?;
    if !stopped {
      UndoneMore(before, mid, disk.files, visits, n);
    }
  }

  lemma {:induction false} ZipSkipsNothing(items: seq<Item>, visits: seq<Visit>, n: nat)
    requires n <= |items| == |visits|
    ensures SkippedBy(Zip, items, visits, n) == 0
  {
    if n > 0 {
      ZipSkipsNothing(items, visits, n - 1);
    }
  }

  /** The loop body of walkZipFiles. */
  method ZipStep(items: seq<Item>, visits: seq<Visit>, limits: Limits, n: nat, b: Budget, disk: Disk,
      ghost before: map<string, string>) returns (err: Error, stopped: bool)
    requires n < |items| == |visits| && b.Valid() && b.Within(limits)
    requires At(Zip, items, visits, limits, n, before, disk.files, b, false)
    requires InstallsUndone(before, disk.files, visits)
    modifies b, disk
    ensures b.Valid() && b.emitted <= b.bytesMax + 1 && err != SkipRefused && err != CloseFailed
    ensures b.skipped == old(b.skipped)
    ensures OnlyTouched(before, disk.files, visits, n + 1)
    ensures err.None? ==> At(Zip, items, visits, limits, n + 1, before, disk.files, b, stopped)
    ensures !err.None? ==> !stopped
    ensures !err.None? && limits.Bounded() ==> !Succeeds(Zip, items, visits, limits)
    ensures !stopped ==> InstallsUndone(before, disk.files, visits)
  {
    EndStep(items, visits, n);
    err, stopped := ZipTurn(items, visits, limits, n, b, disk, before);
    if !err.None? && limits.Bounded() {
      FailsAt(Zip, items, visits, n, limits);
    }
  }

  /** walkZipFiles: the same for zip members, of which those that are not copied cost nothing,
      whatever size they declare. */
  method WalkZip(items: seq<Item>, visits: seq<Visit>, limits: Limits, b: Budget, disk: Disk)
    returns (err: Error, count: nat, stopped: bool)
    requires |visits| == |items| && b.Valid() && b.Within(limits)
    requires b.written == b.skipped == b.emitted == 0
    modifies b, disk
    ensures b.Valid() && b.skipped == 0
    ensures count <= |items| && count <= limits.entryCountMax
    ensures |items| > limits.entryCountMax ==> err == TooManyEntries && disk.files == old(disk.files)
    ensures b.emitted <= b.bytesMax + 1
    ensures err != SkipRefused && err != CloseFailed
    ensures OnlyTouched(old(disk.files), disk.files, visits, count)
    ensures err.None? ==>
      && count == End(Entries(items), visits, 0)
      && At(Zip, items, visits, limits, count, old(disk.files), disk.files, b, stopped)
    ensures !err.None? ==> !stopped
    ensures limits.Bounded() ==> (err.None? <==> Succeeds(Zip, items, visits, limits))
    ensures !err.None? ==> InstallsUndone(old(disk.files), disk.files, visits)
  {
    count, stopped := 0, false;
    err := if |items| > limits.entryCountMax then TooManyEntries else None;
    while count < |items| && !stopped && err.None?
      invariant count <= |items| && count <= limits.entryCountMax
      invariant |items| > limits.entryCountMax ==> err.TooManyEntries? && disk.files == old(disk.files)
      invariant b.Valid() && b.skipped == 0 && b.emitted <= b.bytesMax + 1
      invariant OnlyTouched(old(disk.files), disk.files, visits, count)
      invariant err.None? ==> At(Zip, items, visits, limits, count, old(disk.files), disk.files, b, stopped)
      invariant !err.None? ==> !stopped && err != SkipRefused && err != CloseFailed
      invariant !err.None? && limits.Bounded() ==> !Succeeds(Zip, items, visits, limits)
      invariant !stopped ==> InstallsUndone(old(disk.files), disk.files, visits)
      decreases |items| - count
    {
      err, stopped := ZipStep(items, visits, limits, count, b, disk, old(disk.files));
      count := count + 1;
    }
    if err.None? && limits.Bounded() {
      SucceedsAt(Zip, items, visits, limits, count, old(disk.files), disk.files, b.written, b.skipped);
    }
  }

  // ---------------------------------------------------------------- walk

  /** An archive file: what it holds, and whether it can be opened and closed. */
  datatype Archive = Archive(format: Format, items: seq<Item>, opens: bool, closes: bool)

  /** Opening, walking and closing the archive succeeds. */
  predicate WalkSucceeds(archive: Archive, visits: seq<Visit>, limits: Limits)
    requires |visits| == |archive.items|
  {
    limits.Positive() && archive.opens && archive.closes && Succeeds(archive.format, archive.items, visits, limits)
  }

  /** walk. When only closing fails, the files are those of a success. */
  method Walk(archive: Archive, visits: seq<Visit>, limits: Limits, disk: Disk)
    returns (err: Error, count: nat, stopped: bool)
    requires |visits| == |archive.items|
    modifies disk
    ensures count <= |visits| && OnlyTouched(old(disk.files), disk.files, visits, count)
    ensures limits.Bounded() ==> (err.None? <==> WalkSucceeds(archive, visits, limits))
    ensures stopped ==> err.None? || err.CloseFailed?
    ensures err.None? || err.CloseFailed? ==>
      && count == End(Entries(archive.items), visits, 0)
      && (stopped <==> count > 0 && StopsAt(archive.items, visits, count - 1))
      && (forall i :: 0 <= i < count ==> Seen(archive.items[i], visits[i]))
      && (limits.Bounded() ==>
            && Succeeds(archive.format, archive.items, visits, limits)
            && disk.files == FilesAfter(old(disk.files), visits, Entries(archive.items), count))
    ensures !err.None? && !err.CloseFailed? ==> InstallsUndone(old(disk.files), disk.files, visits)
  {
    count, stopped := 0, false;
    if !limits.Positive() {
      return BadLimits, 0, false;
    }
    if !archive.opens {
      return OpenFailed, 0, false;
    }
    var b := new Budget(limits);
    match archive.format {
      case Tar => err, count, stopped := WalkTar(archive.items, visits, limits, b, disk);
      case Zip => err, count, stopped := WalkZip(archive.items, visits, limits, b, disk);
    }
    if err.None? && !archive.closes {
      err := CloseFailed;
    }
  }
}
