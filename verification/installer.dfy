/** installManaged (internal/provider/install.go): installing or replacing a provider package by renames,
    with every file operation allowed to fail. */
module Installer {

  /** A path holds a directory with files, or something that is not a directory. */
  datatype Node = Dir(files: map<string, string>) | Other

  const MANIFEST := "plugin.json"

  type Tree = map<string, Node>

  datatype Package = Package(executable: string, program: string, manifest: string) {
    /** The directory of a completely copied package. */
    function Installed(): Node {
      WithManifest(manifest)
    }

    function WithManifest(text: string): Node {
      Dir(map[executable := program][MANIFEST := text])
    }
  }

  /** A directory that holds the manifest, the program under its own name, and nothing else. */
  ghost predicate IsPackage(node: Node, package: Package) {
    && node.Dir? && node.files.Keys == {package.executable, "plugin.json"}
    && node.files["plugin.json"] == package.manifest
    && (package.executable != "plugin.json" ==> node.files[package.executable] == package.program)
  }

  /** Which operations fail, and what a failing one leaves behind. */
  datatype Faults = Faults(
    makeRoot: bool, inspect: bool, makeTemporary: bool,
    openProgram: bool, createProgram: bool, copyProgram: bool, partial: string, closeProgram: bool,
    encode: bool, writeManifest: bool, partialManifest: string,
    makeBackup: bool, removeBackupDir: bool, deactivate: bool, activate: bool, restore: bool,
    removeBackup: bool, leftover: Node, removeTemporary: bool, load: bool)
  {
    predicate Copies() { !openProgram && !createProgram && !copyProgram && !closeProgram }

    predicate Prepares() { Copies() && !encode && !writeManifest }

    predicate SetsAside() { !makeBackup && !removeBackupDir && !deactivate }
  }

  datatype Outcome =
    | Installed                // activated and loaded
    | NotLoaded                // activated, but reading it back failed
    | Failed                   // failed before the new package was active
    | NotRestored              // failed, and the old package could not be put back

  /** Where the installation happens: the package's path and two temporary names beside it. */
  datatype Paths = Paths(destination: string, temporary: string, backup: string) {
    predicate Distinct() {
      destination != temporary && destination != backup && temporary != backup
    }
  }

  /** At every moment the destination holds nothing, the old package, or the whole new one; and
      while the new one is not there, the old one, if there was one, is whole at the destination or
      at the backup path. Nothing else outside the temporary names changes. */
  ghost predicate Safe(before: Tree, now: Tree, paths: Paths, package: Package) {
    && (paths.destination in now ==>
          now[paths.destination] == package.Installed()
          || (paths.destination in before && now[paths.destination] == before[paths.destination]))
    && (paths.destination in before && !Active(now, paths, package) ==>
          (paths.destination in now && now[paths.destination] == before[paths.destination])
          || (paths.backup in now && now[paths.backup] == before[paths.destination]))
    && (paths.destination !in before && !Active(now, paths, package) ==> paths.destination !in now)
    && Elsewhere(before, now, paths)
  }

  ghost predicate Active(now: Tree, paths: Paths, package: Package) {
    paths.destination in now && now[paths.destination] == package.Installed()
  }

  ghost predicate Elsewhere(before: Tree, now: Tree, paths: Paths) {
    forall p :: p !in {paths.destination, paths.temporary, paths.backup} ==>
      (p in now <==> p in before) && (p in now ==> now[p] == before[p])
  }

  ghost predicate OnlyTemporary(before: Tree, now: Tree, paths: Paths) {
    forall p :: p != paths.temporary ==> (p in now <==> p in before) && (p in now ==> now[p] == before[p])
  }

  class FileSystem {
    var tree: Tree
    ghost var history: seq<Tree>  // every state the tree went through

    ghost predicate Recorded()
      reads this
    {
      history != [] && history[|history| - 1] == tree
    }

    method Put(path: string, node: Node)
      requires Recorded()
      modifies this
      ensures Recorded() && tree == old(tree)[path := node] && history == old(history) + [tree]
    {
      tree := tree[path := node];
      history := history + [tree];
    }

    method Remove(path: string)
      requires Recorded()
      modifies this
      ensures Recorded() && tree == old(tree) - {path} && history == old(history) + [tree]
    {
      tree := tree - {path};
      history := history + [tree];
    }

    /** os.Rename of a directory to a free path: one atomic step. */
    method Rename(from: string, to: string)
      requires Recorded() && from in tree && from != to
      modifies this
      ensures Recorded() && tree == old(tree)[to := old(tree)[from]] - {from} && history == old(history) + [tree]
    {
      tree := tree[to := tree[from]] - {from};
      history := history + [tree];
    }
  }

  /** Every state recorded since the start is safe. */
  ghost predicate SafeThroughout(before: Tree, history: seq<Tree>, paths: Paths, package: Package) {
    forall i :: 0 <= i < |history| ==> Safe(before, history[i], paths, package)
  }

  /** Changes in the temporary directory alone are safe. */
  lemma TemporaryIsSafe(before: Tree, now: Tree, paths: Paths, package: Package)
    requires paths.Distinct() && OnlyTemporary(before, now, paths)
    ensures Safe(before, now, paths, package)
  {
  }

  /** Writes in the temporary directory, which then has the given content. */
  method PutTemporary(fs: FileSystem, paths: Paths, package: Package, node: Node, ghost before: Tree)
    requires paths.Distinct() && fs.Recorded() && SafeThroughout(before, fs.history, paths, package)
    requires OnlyTemporary(before, fs.tree, paths)
    modifies fs
    ensures fs.Recorded() && SafeThroughout(before, fs.history, paths, package)
    ensures OnlyTemporary(before, fs.tree, paths) && fs.tree == before[paths.temporary := node]
  {
    fs.Put(paths.temporary, node);
    assert fs.tree == before[paths.temporary := node];
    TemporaryIsSafe(before, fs.tree, paths, package);
  }

  /** copyExecutable, into the temporary directory. */
  method CopyExecutable(fs: FileSystem, paths: Paths, package: Package, faults: Faults, ghost before: Tree)
    returns (ok: bool)
    requires paths.Distinct() && fs.Recorded() && SafeThroughout(before, fs.history, paths, package)
    requires OnlyTemporary(before, fs.tree, paths)
    modifies fs
    ensures fs.Recorded() && SafeThroughout(before, fs.history, paths, package)
    ensures OnlyTemporary(before, fs.tree, paths)
    ensures ok <==> faults.Copies()
    ensures ok ==> fs.tree == before[paths.temporary := Dir(map[package.executable := package.program])]
  {
    if faults.openProgram || faults.createProgram {
      return false;
    }
    PutTemporary(fs, paths, package, Dir(map[package.executable := ""]), before);
    if faults.copyProgram {
      PutTemporary(fs, paths, package, Dir(map[package.executable := faults.partial]), before);
      return false;
    }
    PutTemporary(fs, paths, package, Dir(map[package.executable := package.program]), before);
    ok := !faults.closeProgram;
  }

  /** The deferred os.RemoveAll of the temporary directory. */
  method Cleanup(fs: FileSystem, paths: Paths, package: Package, faults: Faults, ghost before: Tree)
    requires paths.Distinct() && fs.Recorded() && SafeThroughout(before, fs.history, paths, package)
    modifies fs
    ensures fs.Recorded() && SafeThroughout(before, fs.history, paths, package)
    ensures OnlyTemporary(old(fs.tree), fs.tree, paths)
  {
    if !faults.removeTemporary {
      fs.Remove(paths.temporary);
    }
  }

  /** Everything up to the complete package in the temporary directory. */
  method Prepare(fs: FileSystem, paths: Paths, package: Package, faults: Faults, ghost before: Tree) returns (ok: bool)
    requires paths.Distinct() && fs.Recorded() && SafeThroughout(before, fs.history, paths, package)
    requires fs.tree == before && paths.temporary !in before
    modifies fs
    ensures fs.Recorded() && SafeThroughout(before, fs.history, paths, package)
    ensures OnlyTemporary(before, fs.tree, paths)
    ensures ok <==> faults.Prepares()
    ensures ok ==> fs.tree == before[paths.temporary := package.Installed()]
  {
    PutTemporary(fs, paths, package, Dir(map[]), before);
    ok := CopyExecutable(fs, paths, package, faults, before);
    if !ok {
      return;
    }
    if faults.encode {
      return false;
    }
    if faults.writeManifest {
      PutTemporary(fs, paths, package, package.WithManifest(faults.partialManifest), before);
      return false;
    }
    PutTemporary(fs, paths, package, package.Installed(), before);
  }

  /** installManaged. Whatever fails, the tree is safe at every moment. Afterwards: once activated the
      destination holds the whole new package; on a failure before that it is as it was, unless the
      restore failed too, and then the old package is at the backup path. */
  method InstallManaged(fs: FileSystem, paths: Paths, package: Package, faults: Faults) returns (r: Outcome)
    requires paths.Distinct() && fs.history == [fs.tree]
    // os.MkdirTemp picks names that are not in use.
    requires paths.temporary !in fs.tree && paths.backup !in fs.tree
    modifies fs
    ensures SafeThroughout(old(fs.tree), fs.history, paths, package)
    ensures fs.Recorded()
    ensures r.Installed? <==>
      && !faults.makeRoot && !faults.inspect && !faults.makeTemporary
      && !faults.openProgram && !faults.createProgram && !faults.copyProgram && !faults.closeProgram
      && !faults.encode && !faults.writeManifest
      && (paths.destination in old(fs.tree) ==>
            old(fs.tree)[paths.destination].Dir?
            && !faults.makeBackup && !faults.removeBackupDir && !faults.deactivate)
      && !faults.activate && !faults.load
    ensures r.Installed? || r.NotLoaded? ==>
      paths.destination in fs.tree && IsPackage(fs.tree[paths.destination], package)
    ensures r.Failed? ==>
      (paths.destination in fs.tree <==> paths.destination in old(fs.tree))
      && (paths.destination in fs.tree ==> fs.tree[paths.destination] == old(fs.tree)[paths.destination])
    ensures r.NotRestored? ==>
      paths.destination in old(fs.tree) && paths.destination !in fs.tree
      && paths.backup in fs.tree && fs.tree[paths.backup] == old(fs.tree)[paths.destination]
  {
    ghost var before := fs.tree;
    if faults.makeRoot || faults.inspect {
      return Failed;
    }
    var exists_ := paths.destination in fs.tree;
    if exists_ && fs.tree[paths.destination].Other? {
      return Failed;
    }
    if faults.makeTemporary {
      return Failed;
    }
    var ok := Prepare(fs, paths, package, faults, before);
    if !ok {
      Cleanup(fs, paths, package, faults, before);
      return Failed;
    }
    if exists_ {
      ok := SetAside(fs, paths, package, faults, before);
      if !ok {
        Cleanup(fs, paths, package, faults, before);
        return Failed;
      }
    }
    r := Activate(fs, paths, package, faults, before);
    Cleanup(fs, paths, package, faults, before);
  }

  /** The tree when the new package is about to be activated. */
  function Ready(before: Tree, paths: Paths, package: Package): Tree {
    var prepared := before[paths.temporary := package.Installed()];
    if paths.destination !in before then prepared
    else prepared[paths.backup := before[paths.destination]] - {paths.destination}
  }

  /** While the temporary names alone have changed, and once the new package is active, all is safe. */
  lemma BesideIsSafe(before: Tree, now: Tree, paths: Paths, package: Package)
    requires paths.Distinct()
    requires forall p :: p != paths.temporary && p != paths.backup ==>
      (p in now <==> p in before) && (p in now ==> now[p] == before[p])
    ensures Safe(before, now, paths, package)
  {
  }

  lemma ActiveIsSafe(before: Tree, now: Tree, paths: Paths, package: Package)
    requires Active(now, paths, package) && Elsewhere(before, now, paths)
    ensures Safe(before, now, paths, package)
  {
  }

  lemma ReadyIsSafe(before: Tree, paths: Paths, package: Package)
    requires paths.Distinct() && paths.temporary !in before && paths.backup !in before
    ensures Safe(before, Ready(before, paths, package), paths, package)
    ensures paths.temporary in Ready(before, paths, package)
    ensures paths.destination !in Ready(before, paths, package)
    ensures paths.backup in Ready(before, paths, package) <==> paths.destination in before
  {
  }

  /** The second rename, and the one back if it fails. */
  method Activate(fs: FileSystem, paths: Paths, package: Package, faults: Faults, ghost before: Tree)
    returns (r: Outcome)
    requires paths.Distinct() && fs.Recorded() && SafeThroughout(before, fs.history, paths, package)
    requires paths.temporary !in before && paths.backup !in before
    requires fs.tree == Ready(before, paths, package)
    modifies fs
    ensures fs.Recorded() && SafeThroughout(before, fs.history, paths, package)
    ensures r.Installed? <==> !faults.activate && !faults.load
    ensures r.NotRestored? <==> faults.activate && faults.restore && paths.destination in before
    ensures r.Installed? || r.NotLoaded? ==> Active(fs.tree, paths, package)
    ensures r.Failed? ==>
      (paths.destination in fs.tree <==> paths.destination in before)
      && (paths.destination in fs.tree ==> fs.tree[paths.destination] == before[paths.destination])
    ensures r.NotRestored? ==>
      paths.destination in before && paths.destination !in fs.tree
      && paths.backup in fs.tree && fs.tree[paths.backup] == before[paths.destination]
  {
    ReadyIsSafe(before, paths, package);
    var replacing := paths.backup in fs.tree;
    if faults.activate {
      if replacing && faults.restore {
        return NotRestored;
      }
      if replacing {
        fs.Rename(paths.backup, paths.destination);
        BesideIsSafe(before, fs.tree, paths, package);
      }
      return Failed;
    }
    fs.Rename(paths.temporary, paths.destination);
    ActiveIsSafe(before, fs.tree, paths, package);
    if replacing {
      RemoveBackup(fs, paths, package, faults, before);
    }
    r := if faults.load then NotLoaded else Outcome.Installed;
  }

  /** The removal of the old package, whose failure is ignored. */
  method RemoveBackup(fs: FileSystem, paths: Paths, package: Package, faults: Faults, ghost before: Tree)
    requires paths.Distinct() && fs.Recorded() && SafeThroughout(before, fs.history, paths, package)
    requires Active(fs.tree, paths, package) && Elsewhere(before, fs.tree, paths)
    modifies fs
    ensures fs.Recorded() && SafeThroughout(before, fs.history, paths, package)
    ensures Active(fs.tree, paths, package) && Elsewhere(before, fs.tree, paths)
  {
    if faults.removeBackup {
      fs.Put(paths.backup, faults.leftover);
    } else {
      fs.Remove(paths.backup);
    }
    ActiveIsSafe(before, fs.tree, paths, package);
  }

  /** Moving the old package to the backup path. */
  method SetAside(fs: FileSystem, paths: Paths, package: Package, faults: Faults, ghost before: Tree)
    returns (ok: bool)
    requires paths.Distinct() && fs.Recorded() && SafeThroughout(before, fs.history, paths, package)
    requires paths.destination in before && paths.temporary !in before && paths.backup !in before
    requires fs.tree == before[paths.temporary := package.Installed()]
    modifies fs
    ensures fs.Recorded() && SafeThroughout(before, fs.history, paths, package)
    ensures !ok ==> paths.destination in fs.tree && fs.tree[paths.destination] == before[paths.destination]
    ensures ok <==> faults.SetsAside()
    ensures ok ==> fs.tree == Ready(before, paths, package)
  {
    ok := false;
    if faults.makeBackup {
      return;
    }
    fs.Put(paths.backup, Dir(map[]));
    BesideIsSafe(before, fs.tree, paths, package);
    if faults.removeBackupDir {
      return;
    }
    fs.Remove(paths.backup);
    assert fs.tree == before[paths.temporary := package.Installed()];
    BesideIsSafe(before, fs.tree, paths, package);
    if faults.deactivate {
      return;
    }
    fs.Rename(paths.destination, paths.backup);
    ReadyIsSafe(before, paths, package);
    ok := true;
  }
}
