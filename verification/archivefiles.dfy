/** Extracting all of an archive, or one binary of it (internal/archive/archive.go): when it succeeds and
    what is on the disk afterwards. */
module ArchiveFiles {
  import opened BaseNames
  import opened Extraction
  import opened Paths

  /** What the world does with an entry: its body, and whether its file can be opened and closed. */
  datatype Env = Env(body: Body, opens: bool, closes: bool)

  function TreeVisit(dest: string, strip: nat, item: Item, env: Env): Visit
    requires IsClean(dest)
  {
    if !item.IsEntry() then Ignore
    else
      match Confine(dest, item.name, strip)
      case Skipped => Ignore
      case Target(path) => if item.kind.Dir? then Ignore else Write(path, env.body, env.opens, env.closes)
      case _ => Fail
  }

  /** Where each item is written: a regular file at its target, everything else nowhere. */
  function Landings(dest: string, strip: nat, items: seq<Item>): seq<set<string>>
    requires IsClean(dest)
  {
    seq(|items|, i requires 0 <= i < |items| =>
      if !(items[i].Header? && items[i].kind.File?) then {}
      else match Confine(dest, items[i].name, strip) case Target(path) => {path} case _ => {})
  }

  /** Every path on which one of the first n entries lands holds the whole body of the last that does,
      and all other paths are as before. */
  ghost predicate Written(landings: seq<set<string>>, envs: seq<Env>, n: nat,
      before: map<string, string>, after: map<string, string>)
    requires n <= |landings| == |envs|
  {
    && (forall i: nat, p :: i < n && LandsLast(landings, n, i, p) ==> p in after && envs[i].body == Whole(after[p]))
    && (forall p :: (forall i :: 0 <= i < n ==> p !in landings[i]) ==>
          (p in before <==> p in after) && (p in before ==> after[p] == before[p]))
  }

  predicate LandsLast(landings: seq<set<string>>, n: nat, i: nat, p: string)
    requires i < n <= |landings|
  {
    p in landings[i] && forall j :: i < j < n ==> p !in landings[j]
  }

  /** Which items' bodies are written. */
  function TreeWrites(dest: string, strip: nat, items: seq<Item>): seq<bool>
    requires IsClean(dest)
  {
    seq(|items|, i requires 0 <= i < |items| =>
      items[i].Header? && items[i].kind.File? && Confine(dest, items[i].name, strip).Target?)
  }

  /** What the first n items cost when some of them are written: those cost their bodies, the other
      entries of a tar stream their declared sizes. */
  function Spent(format: Format, items: seq<Item>, envs: seq<Env>, writes: seq<bool>, n: nat): int
    requires n <= |items| == |envs| == |writes|
  {
    if n == 0 then 0
    else
      var item := items[n - 1];
      var cost := if writes[n - 1] then |envs[n - 1].body.bytes|
                  else if format.Tar? && item.Header? && (item.kind.File? || item.kind.Dir?) then item.size
                  else 0;
      Spent(format, items, envs, writes, n - 1) + cost
  }

  /** Item n is readable and of a kind the format knows; an entry declares a size within what is allowed
      and left, and if it is written, its whole body can be and fits too. */
  predicate Affordable(format: Format, items: seq<Item>, envs: seq<Env>, writes: seq<bool>, limits: Limits, n: nat)
    requires n < |items| == |envs| == |writes|
  {
    var item, left := items[n], limits.bytesMax - Spent(format, items, envs, writes, n);
    && item.Header?
    && (item.kind.File? || item.kind.Dir? || (item.kind.GlobalHeader? && format.Tar?))
    && (!item.kind.GlobalHeader? ==> 0 <= item.size <= limits.entryBytesMax && item.size <= left)
    && (writes[n] ==>
          && envs[n].opens && envs[n].closes && envs[n].body.Whole?
          && |envs[n].body.bytes| <= limits.entryBytesMax && |envs[n].body.bytes| <= left)
  }

  /** Exactly these extractions of a tree succeed. */
  ghost predicate TreeSucceeds(dest: string, strip: nat, archive: Archive, envs: seq<Env>, limits: Limits)
    requires IsClean(dest) && |envs| == |archive.items|
  {
    && limits.bytesMax > 0 && limits.entryCountMax > 0 && limits.entryBytesMax > 0
    && archive.opens && archive.closes && |archive.items| <= limits.entryCountMax
    && (forall i :: 0 <= i < |archive.items| ==>
          Affordable(archive.format, archive.items, envs, TreeWrites(dest, strip, archive.items), limits, i))
    && (forall i :: 0 <= i < |archive.items| && archive.items[i].Header? && !archive.items[i].kind.GlobalHeader? ==>
          var confined := Confine(dest, archive.items[i].name, strip);
          confined.Target? || confined.Skipped?)
  }

  function TreeVisits(dest: string, strip: nat, items: seq<Item>, envs: seq<Env>): seq<Visit>
    requires IsClean(dest) && |envs| == |items|
  {
    seq(|items|, i requires 0 <= i < |items| => TreeVisit(dest, strip, items[i], envs[i]))
  }

  /** The visit copies the body of an entry exactly when it is written. */
  predicate Tallies(item: Item, visit: Visit, env: Env, write: bool) {
    (item.IsEntry() && visit.Copies() <==> write) && (write ==> visit.body == env.body)
  }

  /** The books of a walk are then what its items cost. */
  lemma {:induction false} SpentByVisits(format: Format, items: seq<Item>, visits: seq<Visit>, envs: seq<Env>,
      writes: seq<bool>, n: nat)
    requires n <= |items| == |visits| == |envs| == |writes|
    requires forall i :: 0 <= i < n ==> Tallies(items[i], visits[i], envs[i], writes[i])
    ensures WrittenBy(visits, Entries(items), n) + SkippedBy(format, items, visits, n)
         == Spent(format, items, envs, writes, n)
  {
    if n > 0 {
      SpentByVisits(format, items, visits, envs, writes, n - 1);
      assert Tallies(items[n - 1], visits[n - 1], envs[n - 1], writes[n - 1]);
    }
  }

  lemma TreeSpent(dest: string, strip: nat, format: Format, items: seq<Item>, envs: seq<Env>, n: nat)
    requires IsClean(dest) && n <= |items| == |envs|
    ensures var visits := TreeVisits(dest, strip, items, envs);
      WrittenBy(visits, Entries(items), n) + SkippedBy(format, items, visits, n)
      == Spent(format, items, envs, TreeWrites(dest, strip, items), n)
  {
    SpentByVisits(format, items, TreeVisits(dest, strip, items, envs), envs, TreeWrites(dest, strip, items), n);
  }

  lemma TreePasses(dest: string, strip: nat, format: Format, items: seq<Item>, envs: seq<Env>, limits: Limits, n: nat)
    requires IsClean(dest) && n < |items| == |envs|
    ensures Passes(format, items, TreeVisits(dest, strip, items, envs), n, limits) <==>
      && Affordable(format, items, envs, TreeWrites(dest, strip, items), limits, n)
      && (items[n].Header? && !items[n].kind.GlobalHeader? ==>
            var confined := Confine(dest, items[n].name, strip); confined.Target? || confined.Skipped?)
  {
    TreeSpent(dest, strip, format, items, envs, n);
  }

  lemma TreeSucceedsExactly(dest: string, strip: nat, archive: Archive, envs: seq<Env>, limits: Limits)
    requires IsClean(dest) && |envs| == |archive.items|
    ensures WalkSucceeds(archive, TreeVisits(dest, strip, archive.items, envs), limits)
       <==> TreeSucceeds(dest, strip, archive, envs, limits)
  {
    var items, visits := archive.items, TreeVisits(dest, strip, archive.items, envs);
    forall i | 0 <= i < |items| ensures !visits[i].Install? {
    }
    assert End(Entries(items), visits, 0) == |items|;
    forall i | 0 <= i < |items|
      ensures Passes(archive.format, items, visits, i, limits) <==>
        && Affordable(archive.format, items, envs, TreeWrites(dest, strip, items), limits, i)
        && (items[i].Header? && !items[i].kind.GlobalHeader? ==>
              var confined := Confine(dest, items[i].name, strip); confined.Target? || confined.Skipped?)
    {
      TreePasses(dest, strip, archive.format, items, envs, limits, i);
    }
  }

  /** The visit writes the whole body of an entry wherever it lands, and nothing else. */
  predicate LandsBy(item: Item, visit: Visit, landing: set<string>, env: Env) {
    if item.IsEntry() && visit.Write? then landing == {visit.path} && env.body == Whole(visit.body.bytes)
    else landing == {} && !(item.IsEntry() && visit.Install?)
  }

  lemma {:induction false} FilesWritten(items: seq<Item>, visits: seq<Visit>, landings: seq<set<string>>,
      envs: seq<Env>, before: map<string, string>, n: nat)
    requires n <= |items| == |visits| == |landings| == |envs|
    requires forall i :: 0 <= i < n ==> LandsBy(items[i], visits[i], landings[i], envs[i])
    ensures Written(landings, envs, n, before, FilesAfter(before, visits, Entries(items), n))
  {
    if n > 0 {
      FilesWritten(items, visits, landings, envs, before, n - 1);
      assert LandsBy(items[n - 1], visits[n - 1], landings[n - 1], envs[n - 1]);
      WrittenMore(landings, envs, n - 1, before, FilesAfter(before, visits, Entries(items), n - 1),
                  FilesAfter(before, visits, Entries(items), n));
    }
  }

  lemma TreeFiles(dest: string, strip: nat, items: seq<Item>, envs: seq<Env>, before: map<string, string>, n: nat)
    requires IsClean(dest) && n <= |items| == |envs|
    requires forall i :: 0 <= i < n && Landings(dest, strip, items)[i] != {} ==> envs[i].body.Whole?
    ensures var visits := TreeVisits(dest, strip, items, envs);
      Written(Landings(dest, strip, items), envs, n, before, FilesAfter(before, visits, Entries(items), n))
  {
    var visits, landings := TreeVisits(dest, strip, items, envs), Landings(dest, strip, items);
    forall i | 0 <= i < n ensures LandsBy(items[i], visits[i], landings[i], envs[i]) {
      assert landings[i] != {} ==> envs[i].body.Whole?;
    }
    FilesWritten(items, visits, landings, envs, before, n);
  }

  lemma WrittenMore(landings: seq<set<string>>, envs: seq<Env>, n: nat,
      before: map<string, string>, mid: map<string, string>, after: map<string, string>)
    requires n < |landings| == |envs| && Written(landings, envs, n, before, mid)
    requires forall p :: p in landings[n] ==> p in after && envs[n].body == Whole(after[p])
    requires OnlyAt(mid, after, landings[n])
    ensures Written(landings, envs, n + 1, before, after)
  {
    var m := n + 1;
    forall i: nat, p | i < m && LandsLast(landings, m, i, p) ensures p in after && envs[i].body == Whole(after[p]) {
      if i < n {
        assert p !in landings[n] && LandsLast(landings, n, i, p);
      }
    }
    forall p | forall i :: 0 <= i < n + 1 ==> p !in landings[i]
      ensures (p in before <==> p in after) && (p in before ==> after[p] == before[p])
    {
      assert p !in landings[n];
    }
  }

  /** ExtractTree. Whether it succeeds or fails, no file outside the destination changes. It succeeds
      exactly when the destination can be made and every entry is inside, within the limits and
      can be written; every target then holds the whole body of its last entry, and nothing else
      has changed. */
  method ExtractTree(dest: string, makes: bool, archive: Archive, envs: seq<Env>, strip: int, limits: Limits,
      disk: Disk)
    returns (err: Error)
    requires IsClean(dest) && |envs| == |archive.items|
    modifies disk
    ensures forall p :: !Below(dest, p) ==>
      (p in disk.files <==> p in old(disk.files)) && (p in disk.files ==> disk.files[p] == old(disk.files[p]))
    ensures limits.bytesMax < MAX64 || limits.entryBytesMax < MAX64 ==>
      (err.None? <==> strip >= 0 && makes && TreeSucceeds(dest, strip, archive, envs, limits))
    ensures err.None? ==> strip >= 0 && forall i :: 0 <= i < |archive.items| && archive.items[i].IsEntry() ==>
      Confine(dest, archive.items[i].name, strip).Target? || Confine(dest, archive.items[i].name, strip).Skipped?
    ensures err.None? && (limits.bytesMax < MAX64 || limits.entryBytesMax < MAX64) ==>
      Written(Landings(dest, strip, archive.items), envs, |archive.items|, old(disk.files), disk.files)
  {
    if strip < 0 || !makes {
      return VisitFailed;
    }
    var items := archive.items;
    var visits := TreeVisits(dest, strip, items, envs);
    var count, stopped;
    err, count, stopped := Walk(archive, visits, limits, disk);
    TreeOnly(dest, strip, items, envs, old(disk.files), disk.files, count);
    assert err.None? ==> count == |items|;
    TreeSucceedsExactly(dest, strip, archive, envs, limits);
    if err.None? && limits.Bounded() {
      TreeBodies(dest, strip, archive, envs, limits);
      TreeFiles(dest, strip, items, envs, old(disk.files), |items|);
    }
  }

  lemma TreeBodies(dest: string, strip: nat, archive: Archive, envs: seq<Env>, limits: Limits)
    requires IsClean(dest) && |envs| == |archive.items| && TreeSucceeds(dest, strip, archive, envs, limits)
    ensures forall i :: 0 <= i < |archive.items| && Landings(dest, strip, archive.items)[i] != {} ==>
      envs[i].body.Whole?
  {
    forall i | 0 <= i < |archive.items| && Landings(dest, strip, archive.items)[i] != {} ensures envs[i].body.Whole? {
      assert Affordable(archive.format, archive.items, envs, TreeWrites(dest, strip, archive.items), limits, i);
    }
  }

  lemma TreeOnly(dest: string, strip: nat, items: seq<Item>, envs: seq<Env>,
      before: map<string, string>, after: map<string, string>, count: nat)
    requires IsClean(dest) && |envs| == |items| && count <= |items|
    requires OnlyTouched(before, after, TreeVisits(dest, strip, items, envs), count)
    ensures forall p :: !Below(dest, p) ==> (p in after <==> p in before) && (p in after ==> after[p] == before[p])
  {
    var visits := TreeVisits(dest, strip, items, envs);
    forall p | !Below(dest, p) ensures (p in after <==> p in before) && (p in after ==> after[p] == before[p]) {
      forall i | 0 <= i < count ensures p !in visits[i].Touches() {
        if visits[i].Write? {
          TargetsAreConfined(dest, items[i].name, strip);
        }
      }
    }
  }

  /** Of these items the body of one is written. */
  function Only(size: nat, n: nat): seq<bool> {
    seq(size, i => i == n)
  }

  ghost predicate IsNamed(item: Item, name: string) {
    item.Header? && item.kind.File? && (HasBase(item.name, name) || HasBase(item.name, name + ".exe"))
  }

  lemma IsBinaryExactly(item: Item, name: string)
    requires name != "" && '/' !in name
    ensures IsBinary(item, name) <==> IsNamed(item, name)
  {
    if item.Header? {
      BaseExactly(item.name, name);
      BaseExactly(item.name, name + ".exe");
    }
  }

  predicate IsBinary(item: Item, name: string) {
    item.Header? && item.kind.File? && (Base(item.name) == name || Base(item.name) == name + ".exe")
  }

  /** The only entry looked for is the binary, which is installed at the destination. */
  datatype Search = Search(name: string, dest: string, envs: seq<Env>, renames: bool, removes: bool) {
    predicate Named() { name != "" && '/' !in name && '\\' !in name }

    function Visits(items: seq<Item>): seq<Visit>
      requires |envs| == |items|
    {
      seq(|items|, i requires 0 <= i < |items| =>
        if IsBinary(items[i], name) then Install(dest, envs[i].body, envs[i].opens, envs[i].closes, renames, removes)
        else Ignore)
    }

    predicate Finds(items: seq<Item>) {
      exists i :: 0 <= i < |items| && IsBinary(items[i], name)
    }

    /** Item n is the first regular file with the binary's name, or that with .exe added, as its base name. */
    ghost predicate IsFirst(items: seq<Item>, n: int) {
      0 <= n < |items| && IsNamed(items[n], name) && forall j :: 0 <= j < n ==> !IsNamed(items[j], name)
    }

    /** The destination holds the whole body of the first binary. */
    ghost predicate Installed(items: seq<Item>, files: map<string, string>)
      requires |envs| == |items|
    {
      exists n :: IsFirst(items, n) && dest in files && envs[n].body == Whole(files[dest])
    }

    /** Exactly these searches succeed: there is a first binary, and everything up to it can be passed
        and it can be written and renamed. */
    ghost predicate Succeeds(archive: Archive, limits: Limits)
      requires |envs| == |archive.items|
    {
      && name != "" && '/' !in name && '\\' !in name
      && limits.bytesMax > 0 && limits.entryCountMax > 0 && limits.entryBytesMax > 0
      && archive.opens && archive.closes && renames
      && exists n :: IsFirst(archive.items, n) && Reaches(archive, limits, n)
    }

    ghost predicate Reaches(archive: Archive, limits: Limits, n: nat)
      requires n < |envs| == |archive.items|
    {
      && (if archive.format.Zip? then |archive.items| else n + 1) <= limits.entryCountMax
      && forall i :: 0 <= i <= n ==> Affordable(archive.format, archive.items, envs, Only(|envs|, n), limits, i)
    }
  }

  lemma FileTouches(dest: string, before: map<string, string>, after: map<string, string>, visits: seq<Visit>, n: nat)
    requires n <= |visits| && OnlyTouched(before, after, visits, n)
    requires forall i :: 0 <= i < n ==> visits[i].Ignore? || (visits[i].Install? && visits[i].path == dest)
    ensures OnlyAt(before, after, {dest, dest + ".partial"})
  {
    forall p | p !in {dest, dest + ".partial"}
      ensures (p in before <==> p in after) && (p in before ==> after[p] == before[p])
    {
      assert forall i :: 0 <= i < n ==> p !in visits[i].Touches();
    }
  }

  lemma FileUndone(dest: string, before: map<string, string>, after: map<string, string>, visits: seq<Visit>)
    requires InstallsUndone(before, after, visits)
    requires forall i :: 0 <= i < |visits| ==> visits[i].Ignore? || (visits[i].Install? && visits[i].path == dest)
    ensures (dest in before <==> dest in after) && (dest in before ==> after[dest] == before[dest])
  {
    assert forall i :: 0 <= i < |visits| && dest in visits[i].Touches() ==> visits[i].path == dest;
  }

  /** A walk without a binary changes nothing, and one that stops has installed the first. */
  lemma {:induction false} NothingInstalled(before: map<string, string>, visits: seq<Visit>, entry: seq<bool>, n: nat)
    requires n <= |visits| == |entry| && forall i :: 0 <= i < n ==> visits[i].Ignore? || !entry[i]
    ensures FilesAfter(before, visits, entry, n) == before
  {
    if n > 0 {
      NothingInstalled(before, visits, entry, n - 1);
    }
  }

  /** A search stops at the first binary, if there is one. */
  lemma SearchEnds(search: Search, items: seq<Item>)
    requires |search.envs| == |items|
    ensures var visits := search.Visits(items);
      var end := End(Entries(items), visits, 0);
      if search.Finds(items) then
        && end > 0 && StopsAt(items, visits, end - 1) && IsBinary(items[end - 1], search.name)
        && forall j :: 0 <= j < end - 1 ==> !IsBinary(items[j], search.name)
      else end == |items| && forall i :: 0 <= i < |items| ==> visits[i].Ignore?
  {
    var visits := search.Visits(items);
    forall i | 0 <= i < |items| ensures StopsAt(items, visits, i) <==> IsBinary(items[i], search.name) {
    }
    EndIsFirstStop(items, visits);
  }

  /** A walk ends after the first item that stops it, or with the last item. */
  lemma EndIsFirstStop(items: seq<Item>, visits: seq<Visit>)
    requires |items| == |visits|
    ensures var end := End(Entries(items), visits, 0);
      && (forall j :: 0 <= j < end - 1 ==> !StopsAt(items, visits, j))
      && (if exists i :: 0 <= i < |items| && StopsAt(items, visits, i) then end > 0 && StopsAt(items, visits, end - 1)
          else end == |items|)
  {
    var end := End(Entries(items), visits, 0);
    forall j: nat | j + 1 < end ensures !StopsAt(items, visits, j) {
      assert !(Entries(items)[j] && visits[j].Install?);
    }
    assert end == |items| || StopsAt(items, visits, end - 1);
    if i :| 0 <= i < |items| && StopsAt(items, visits, i) {
      assert i >= end - 1;
    }
  }

  /** After a walk that succeeds, the first binary is installed, or nothing has changed. */
  lemma FirstIsInstalled(search: Search, items: seq<Item>, limits: Limits, format: Format, before: map<string, string>)
    requires |search.envs| == |items| && search.Named() && Succeeds(format, items, search.Visits(items), limits)
    ensures var visits := search.Visits(items);
      var files := FilesAfter(before, visits, Entries(items), End(Entries(items), visits, 0));
      if search.Finds(items) then search.Installed(items, files) else files == before
  {
    var visits := search.Visits(items);
    var end := End(Entries(items), visits, 0);
    SearchEnds(search, items);
    if search.Finds(items) {
      assert Passes(format, items, visits, end - 1, limits);
      InstallLast(search, items, before, end - 1);
    } else {
      NothingInstalled(before, visits, Entries(items), end);
    }
  }

  lemma InstallLast(search: Search, items: seq<Item>, before: map<string, string>, n: nat)
    requires n < |items| == |search.envs| && search.Named()
    requires IsBinary(items[n], search.name) && search.envs[n].body.Whole?
    requires forall j :: 0 <= j < n ==> !IsBinary(items[j], search.name)
    ensures search.Installed(items, FilesAfter(before, search.Visits(items), Entries(items), n + 1))
  {
    assert search.dest != search.dest + ".partial";
    var files := FilesAfter(before, search.Visits(items), Entries(items), n + 1);
    assert search.dest in files && search.envs[n].body == Whole(files[search.dest]);
    forall i | 0 <= i <= n ensures IsBinary(items[i], search.name) <==> IsNamed(items[i], search.name) {
      IsBinaryExactly(items[i], search.name);
    }
    assert search.IsFirst(items, n);
  }

  /** Up to the first binary nothing is written. */
  lemma SearchSpent(search: Search, format: Format, items: seq<Item>, n: nat, i: nat)
    requires i <= n < |items| == |search.envs| && forall j :: 0 <= j < n ==> !IsBinary(items[j], search.name)
    ensures var visits := search.Visits(items);
      WrittenBy(visits, Entries(items), i) + SkippedBy(format, items, visits, i)
      == Spent(format, items, search.envs, Only(|items|, n), i)
  {
    SpentByVisits(format, items, search.Visits(items), search.envs, Only(|items|, n), i);
  }

  lemma SearchPasses(search: Search, archive: Archive, limits: Limits, n: nat, i: nat)
    requires i <= n < |archive.items| == |search.envs| && IsBinary(archive.items[n], search.name)
    requires forall j :: 0 <= j < n ==> !IsBinary(archive.items[j], search.name)
    ensures Passes(archive.format, archive.items, search.Visits(archive.items), i, limits) <==>
      && Affordable(archive.format, archive.items, search.envs, Only(|search.envs|, n), limits, i)
      && (i == n ==> search.renames)
  {
    SearchSpent(search, archive.format, archive.items, n, i);
  }

  lemma SearchSucceedsExactly(search: Search, archive: Archive, limits: Limits)
    requires |search.envs| == |archive.items|
    ensures search.Named() && search.Finds(archive.items) && WalkSucceeds(archive, search.Visits(archive.items), limits)
       <==> search.Succeeds(archive, limits)
  {
    var items, visits := archive.items, search.Visits(archive.items);
    if search.Named() {
      forall i | 0 <= i < |items| ensures IsBinary(items[i], search.name) <==> IsNamed(items[i], search.name) {
        IsBinaryExactly(items[i], search.name);
      }
      SearchEnds(search, items);
      if search.Finds(items) {
        var n := End(Entries(items), visits, 0) - 1;
        assert search.IsFirst(items, n);
        assert forall k :: search.IsFirst(items, k) ==> k == n;
        ReachesExactly(search, archive, limits, n);
      }
    }
  }

  lemma ReachesExactly(search: Search, archive: Archive, limits: Limits, n: nat)
    requires n < |archive.items| == |search.envs| && IsBinary(archive.items[n], search.name)
    requires forall j :: 0 <= j < n ==> !IsBinary(archive.items[j], search.name)
    requires End(Entries(archive.items), search.Visits(archive.items), 0) == n + 1
    ensures Succeeds(archive.format, archive.items, search.Visits(archive.items), limits)
       <==> search.renames && search.Reaches(archive, limits, n)
  {
    var items, visits := archive.items, search.Visits(archive.items);
    forall i | 0 <= i <= n
      ensures Passes(archive.format, items, visits, i, limits) <==>
        && Affordable(archive.format, items, search.envs, Only(|search.envs|, n), limits, i)
        && (i == n ==> search.renames)
    {
      SearchPasses(search, archive, limits, n, i);
    }
    if Succeeds(archive.format, items, visits, limits) {
      assert Passes(archive.format, items, visits, n, limits);
    }
  }

  /** The walk of ExtractFile: what it installs, and what it leaves alone. */
  method WalkSearch(search: Search, archive: Archive, limits: Limits, disk: Disk) returns (err: Error, found: bool)
    requires |search.envs| == |archive.items| && search.Named()
    modifies disk
    ensures OnlyAt(old(disk.files), disk.files, {search.dest, search.dest + ".partial"})
    ensures !err.None? && !err.CloseFailed? ==> OnlyAt(old(disk.files), disk.files, {search.dest + ".partial"})
    ensures err.None? || err.CloseFailed? ==> (found <==> search.Finds(archive.items))
    ensures (err.None? || err.CloseFailed?) && !found ==> disk.files == old(disk.files)
    ensures limits.Bounded() ==> (err.None? <==> WalkSucceeds(archive, search.Visits(archive.items), limits))
    ensures limits.Bounded() && (err.None? || err.CloseFailed?) && found ==>
      search.Installed(archive.items, disk.files)
  {
    var visits := search.Visits(archive.items);
    var count;
    err, count, found := Walk(archive, visits, limits, disk);
    FileTouches(search.dest, old(disk.files), disk.files, visits, count);
    SearchEnds(search, archive.items);
    if err.None? || err.CloseFailed? {
      if limits.Bounded() {
        FirstIsInstalled(search, archive.items, limits, archive.format, old(disk.files));
      }
      if !found {
        NothingTouched(old(disk.files), disk.files, visits, archive.items, count);
      }
    } else {
      FileUndone(search.dest, old(disk.files), disk.files, visits);
    }
  }

  /** ExtractFile: it succeeds exactly when there is a first binary and everything up to it can be passed
      and it can be written and renamed; the destination then holds its whole body. On any other failure
      than closing the archive after that, the destination is as it was. Nothing but the destination
      and its temporary sibling changes. */
  method ExtractFile(search: Search, archive: Archive, limits: Limits, disk: Disk) returns (err: Error)
    requires |search.envs| == |archive.items|
    modifies disk
    ensures OnlyAt(old(disk.files), disk.files, {search.dest, search.dest + ".partial"})
    ensures !err.None? && !err.CloseFailed? ==> OnlyAt(old(disk.files), disk.files, {search.dest + ".partial"})
    ensures limits.bytesMax < MAX64 || limits.entryBytesMax < MAX64 ==>
      (err.None? <==> search.Succeeds(archive, limits))
    ensures
      (limits.bytesMax < MAX64 || limits.entryBytesMax < MAX64)
      && (err.None? || (err.CloseFailed? && exists n :: search.IsFirst(archive.items, n))) ==>
      search.Installed(archive.items, disk.files)
  {
    SearchSucceedsExactly(search, archive, limits);
    if !search.Named() {
      return VisitFailed;
    }
    FindsFirst(search, archive.items);
    var found;
    err, found := WalkSearch(search, archive, limits, disk);
    if err.None? && !found {
      err := VisitFailed;
    }
  }

  lemma FindsFirst(search: Search, items: seq<Item>)
    requires search.Named()
    ensures (exists n :: search.IsFirst(items, n)) ==> search.Finds(items)
  {
    if n :| search.IsFirst(items, n) {
      IsBinaryExactly(items[n], search.name);
    }
  }

  /** When no item looked at was installed, all visits were to ignored entries. */
  lemma NothingTouched(before: map<string, string>, after: map<string, string>, visits: seq<Visit>, items: seq<Item>,
      count: nat)
    requires |visits| == |items| && count == End(Entries(items), visits, 0) && OnlyTouched(before, after, visits, count)
    requires forall i :: 0 <= i < |visits| ==> visits[i].Ignore? || (visits[i].Install? && items[i].IsEntry())
    requires !(count > 0 && StopsAt(items, visits, count - 1))
    ensures after == before
  {
    forall i | 0 <= i < count ensures visits[i].Ignore? {
      assert i < count - 1 ==> !(Entries(items)[i] && visits[i].Install?);
    }
    assert forall p, i :: 0 <= i < count ==> p !in visits[i].Touches();
  }
}
