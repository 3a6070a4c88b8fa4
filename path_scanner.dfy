/**
  `getDotenvPaths` of main.go: a depth-first scan of a directory tree driven
  by an explicit stack, collecting the files whose name is the marker of the
  requested mode. `os.ReadDir` becomes a lookup in a map, and `log.Fatal`
  after a failed read becomes an error result.
*/
module PathScanner {
  import opened Common

  /** One `os.DirEntry`: what `Name()` and `IsDir()` report. */
  datatype Entry = Entry(name: string, isDir: bool)

  /**
    The tree as `os.ReadDir` sees it: each readable directory's path maps to
    its entries in the order they are listed; a path without a key cannot be
    read (missing, not a directory, or permission denied).
  */
  type Tree = map<string, seq<Entry>>

  /** The `os.ReadDir` failure that makes the scan call `log.Fatal`. */
  datatype ScanError = ReadDirFailed(dir: string)

  /** The file name the scan collects: `.env` to encrypt, `.env-encrypted` to decrypt. */
  function Marker(encrypt: bool): (name: string) {
    if encrypt then ".env" else ".env-encrypted"
  }

  /** `currentDir + "/" + file.Name()`. */
  function Join(dir: string, name: string): (path: string)
    ensures |path| == |dir| + 1 + |name|
    ensures path[..|dir|] == dir && path[|dir|] == '/' && path[|dir| + 1..] == name
  {
    dir + "/" + name
  }

  /**
    The readable directories whose path is at least `n` characters long.
    A subdirectory's path is longer than its parent's, so descending into
    one shrinks this set: the measure that ends every walk below.
  */
  ghost function LongKeys(fs: Tree, n: nat): (keys: set<string>) {
    set q | q in fs && |q| >= n
  }

  lemma DescentShrinks(fs: Tree, dir: string, name: string)
    requires dir in fs
    ensures LongKeys(fs, |Join(dir, name)|) < LongKeys(fs, |dir|)
  {
    assert dir in LongKeys(fs, |dir|);
  }

  /**
    What walking a part of the tree yields: whether every directory read in
    it succeeds, the marker files found (counted with multiplicity), and how
    many directories are read.
  */
  datatype Walk = Walk(readable: bool, found: multiset<string>, dirs: nat)

  const Nothing: Walk := Walk(true, multiset{}, 0)

  function Plus(a: Walk, b: Walk): (w: Walk) {
    Walk(a.readable && b.readable, a.found + b.found, a.dirs + b.dirs)
  }

  /**
    The reference definition of the scan: a plain recursive walk from `dir`
    that reads the directory, descends into every subdirectory entry and
    collects every non-directory entry named `marker`.
  */
  ghost function WalkFrom(fs: Tree, dir: string, marker: string): (w: Walk)
    decreases LongKeys(fs, |dir|), 1, 0
  {
    if dir !in fs then Walk(false, multiset{}, 1)
    else
      var w := WalkEntries(fs, dir, fs[dir], marker);
      Walk(w.readable, w.found, w.dirs + 1)
  }

  ghost function WalkEntries(fs: Tree, dir: string, es: seq<Entry>, marker: string): (w: Walk)
    requires dir in fs
    decreases LongKeys(fs, |dir|), 0, |es|
  {
    if es == [] then Nothing
    else Plus(WalkEntries(fs, dir, es[..|es| - 1], marker), WalkEntry(fs, dir, es[|es| - 1], marker))
  }

  ghost function WalkEntry(fs: Tree, dir: string, e: Entry, marker: string): (w: Walk)
    requires dir in fs
    decreases LongKeys(fs, |dir|), 0, 0
  {
    if e.isDir then
      DescentShrinks(fs, dir, e.name);
      WalkFrom(fs, Join(dir, e.name), marker)
    else if e.name == marker then Walk(true, multiset{Join(dir, e.name)}, 0)
    else Nothing
  }

  /** What the directories still on the stack will yield, bottom to top. */
  ghost function Pending(fs: Tree, stack: seq<string>, marker: string): (w: Walk)
    decreases |stack|
  {
    if stack == [] then Nothing
    else Plus(Pending(fs, stack[..|stack| - 1], marker), WalkFrom(fs, stack[|stack| - 1], marker))
  }

  /**
    `getDotenvPaths(folder, encrypt)`: pop a directory, read it (a failed
    read ends the scan), push each subdirectory and collect each file named
    as the mode's marker, until the stack is empty. The scan succeeds exactly
    when the recursive walk reads every directory, and then it finds the
    same marker files, each as often; only the order may differ.
  */
  method GetDotenvPaths(fs: Tree, folder: string, encrypt: bool) returns (r: Result<seq<string>, ScanError>)
    ensures r.Ok? <==> WalkFrom(fs, folder, Marker(encrypt)).readable
    ensures r.Ok? ==> multiset(r.value) == WalkFrom(fs, folder, Marker(encrypt)).found
    ensures r.Err? ==> r.error.dir !in fs
  {
    ghost var marker := Marker(encrypt);
    var filePaths: seq<string> := [];
    var stack: seq<string> := [folder];
    PendingPush(fs, [], folder, marker);
    while |stack| > 0
      invariant Pending(fs, stack, marker).readable == WalkFrom(fs, folder, marker).readable
      invariant multiset(filePaths) + Pending(fs, stack, marker).found == WalkFrom(fs, folder, marker).found
      decreases Pending(fs, stack, marker).dirs
    {
      var currentDir := stack[|stack| - 1];
      PopStep(fs, stack, marker);
      stack := stack[..|stack| - 1];
      if currentDir !in fs {
        return Err(ReadDirFailed(currentDir));
      }
      var files := fs[currentDir];
      EntriesAccounted(fs, currentDir, files, marker, stack);
      stack, filePaths := ScanEntries(currentDir, files, encrypt, stack, filePaths);
    }
    return Ok(filePaths);
  }

  /** The paths of the subdirectories among `es`, in order: what the scan pushes. */
  function Subdirs(dir: string, es: seq<Entry>): (r: seq<string>)
    ensures |r| <= |es|
  {
    if es == [] then []
    else
      var last := es[|es| - 1];
      Subdirs(dir, es[..|es| - 1]) + (if last.isDir then [Join(dir, last.name)] else [])
  }

  /** The paths of the non-directory entries named `marker` among `es`, in order: what the scan collects. */
  function MarkerFiles(dir: string, es: seq<Entry>, marker: string): (r: seq<string>)
    ensures |r| <= |es|
  {
    if es == [] then []
    else
      var last := es[|es| - 1];
      MarkerFiles(dir, es[..|es| - 1], marker) + (if !last.isDir && last.name == marker then [Join(dir, last.name)] else [])
  }

  /** The scan pushes exactly the subdirectories of the directory it reads. */
  lemma {:induction false} SubdirsAreSubdirectories(dir: string, es: seq<Entry>)
    ensures forall e | e in es && e.isDir :: Join(dir, e.name) in Subdirs(dir, es)
    ensures forall s | s in Subdirs(dir, es) :: exists e :: e in es && e.isDir && s == Join(dir, e.name)
    decreases |es|
  {
    if es != [] {
      var init, last := es[..|es| - 1], es[|es| - 1];
      SubdirsAreSubdirectories(dir, init);
      assert es == init + [last];
    }
  }

  /**
    The scan collects a file of the directory it reads exactly when the
    directory lists a non-directory entry named as the marker, and every
    path it collects there is `dir/marker`.
  */
  lemma {:induction false} MarkerFilesAreMarkers(dir: string, es: seq<Entry>, marker: string)
    ensures forall p | p in MarkerFiles(dir, es, marker) :: p == Join(dir, marker)
    ensures MarkerFiles(dir, es, marker) != [] <==> Entry(marker, false) in es
    decreases |es|
  {
    if es != [] {
      var init, last := es[..|es| - 1], es[|es| - 1];
      MarkerFilesAreMarkers(dir, init, marker);
      assert es == init + [last];
    }
  }

  /**
    The inner loop of `getDotenvPaths` over one directory's entries, in
    order: each subdirectory is pushed on the stack, each file named as the
    mode's marker is appended to the collected paths, others are skipped.
  */
  method ScanEntries(currentDir: string, files: seq<Entry>, encrypt: bool,
                     stack0: seq<string>, filePaths0: seq<string>)
    returns (stack: seq<string>, filePaths: seq<string>)
    ensures stack == stack0 + Subdirs(currentDir, files)
    ensures filePaths == filePaths0 + MarkerFiles(currentDir, files, Marker(encrypt))
  {
    stack, filePaths := stack0, filePaths0;
    for i := 0 to |files|
      invariant stack == stack0 + Subdirs(currentDir, files[..i])
      invariant filePaths == filePaths0 + MarkerFiles(currentDir, files[..i], Marker(encrypt))
    {
      var file := files[i];
      assert files[..i + 1][..i] == files[..i];
      if file.isDir {
        stack := stack + [Join(currentDir, file.name)];
      } else if file.name == ".env" && encrypt {
        filePaths := filePaths + [Join(currentDir, file.name)];
      } else if file.name == ".env-encrypted" && !encrypt {
        filePaths := filePaths + [Join(currentDir, file.name)];
      }
    }
    assert files[..|files|] == files;
  }

  /**
    Reading one directory is faithful to the walk: what the pushed
    subdirectories will yield, together with the marker files collected
    right away, is exactly what the walk of those entries yields.
  */
  lemma {:induction false} EntriesAccounted(fs: Tree, dir: string, es: seq<Entry>, marker: string, stack: seq<string>)
    requires dir in fs
    ensures var before, after, w := Pending(fs, stack, marker), Pending(fs, stack + Subdirs(dir, es), marker),
                                    WalkEntries(fs, dir, es, marker);
            && after.readable == (before.readable && w.readable)
            && multiset(MarkerFiles(dir, es, marker)) + after.found == before.found + w.found
            && after.dirs == before.dirs + w.dirs
    decreases |es|
  {
    if es == [] {
      assert stack + Subdirs(dir, es) == stack;
    } else {
      var init, last := es[..|es| - 1], es[|es| - 1];
      EntriesAccounted(fs, dir, init, marker, stack);
      EntryStep(fs, dir, last, marker);
      var mid := stack + Subdirs(dir, init);
      var w, wInit, wLast := WalkEntries(fs, dir, es, marker), WalkEntries(fs, dir, init, marker), WalkEntry(fs, dir, last, marker);
      assert w.found == wInit.found + wLast.found;
      var m, mInit := multiset(MarkerFiles(dir, es, marker)), multiset(MarkerFiles(dir, init, marker));
      var before, pMid := Pending(fs, stack, marker), Pending(fs, mid, marker);
      if last.isDir {
        var sub := Join(dir, last.name);
        PendingPush(fs, mid, sub, marker);
        assert stack + Subdirs(dir, es) == mid + [sub];
        assert MarkerFiles(dir, es, marker) == MarkerFiles(dir, init, marker) + [];
        assert m == mInit;
        assert Pending(fs, mid + [sub], marker).found == pMid.found + wLast.found;
        Regroup(mInit, pMid.found, before.found, wInit.found, wLast.found);
      } else {
        assert Subdirs(dir, es) == Subdirs(dir, init) + [];
        assert stack + Subdirs(dir, es) == mid;
        assert m == mInit + wLast.found;
        Regroup(mInit, pMid.found, before.found, wInit.found, wLast.found);
      }
    }
  }

  lemma Regroup<T>(a: multiset<T>, b: multiset<T>, c: multiset<T>, d: multiset<T>, e: multiset<T>)
    requires a + b == c + d
    ensures a + (b + e) == c + (d + e) && (a + e) + b == c + (d + e)
  {
    forall x ensures (a + (b + e))[x] == (c + (d + e))[x] {
      assert (a + b)[x] == (c + d)[x];
    }
    forall x ensures ((a + e) + b)[x] == (c + (d + e))[x] {
      assert (a + b)[x] == (c + d)[x];
    }
  }

  /** Popping the top directory and reading it leaves what its entries yield, at the cost of one read. */
  lemma PopStep(fs: Tree, stack: seq<string>, marker: string)
    requires |stack| > 0
    ensures var rest, top := Pending(fs, stack[..|stack| - 1], marker), stack[|stack| - 1];
            && (top !in fs ==> !Pending(fs, stack, marker).readable)
            && (top in fs ==>
                  var here := WalkEntries(fs, top, fs[top], marker);
                  && Pending(fs, stack, marker).readable == (rest.readable && here.readable)
                  && Pending(fs, stack, marker).found == rest.found + here.found
                  && Pending(fs, stack, marker).dirs == rest.dirs + here.dirs + 1)
  {
  }

  /** What one entry yields: a subdirectory its walk, a marker file itself, anything else nothing. */
  lemma EntryStep(fs: Tree, dir: string, e: Entry, marker: string)
    requires dir in fs
    ensures var w := WalkEntry(fs, dir, e, marker);
            && (e.isDir ==> var sub := WalkFrom(fs, Join(dir, e.name), marker);
                             w.readable == sub.readable && w.found == sub.found && w.dirs == sub.dirs)
            && (!e.isDir ==> w.readable && w.dirs == 0)
            && (!e.isDir && e.name == marker ==> w.found == multiset{Join(dir, e.name)})
            && (!e.isDir && e.name != marker ==> w.found == multiset{})
  {
  }

  /** Pushing a directory adds what walking it yields. */
  lemma PendingPush(fs: Tree, stack: seq<string>, dir: string, marker: string)
    ensures var before, after, w := Pending(fs, stack, marker), Pending(fs, stack + [dir], marker), WalkFrom(fs, dir, marker);
            && after.readable == (before.readable && w.readable)
            && after.found == before.found + w.found
            && after.dirs == before.dirs + w.dirs
  {
    assert (stack + [dir])[..|stack|] == stack;
  }

  /**
    A path reached from `dir` by following subdirectory entries named
    `names`, one level per name.
  */
  ghost predicate IsChain(fs: Tree, dir: string, names: seq<string>)
    decreases |names|
  {
    names == [] || (dir in fs && Entry(names[0], true) in fs[dir] && IsChain(fs, Join(dir, names[0]), names[1..]))
  }

  function Follow(dir: string, names: seq<string>): (path: string)
    decreases |names|
  {
    if names == [] then dir else Follow(Join(dir, names[0]), names[1..])
  }

  /** Walking the directory's entries yields at least what walking any one of them yields. */
  lemma {:induction false} EntryWithin(fs: Tree, dir: string, es: seq<Entry>, e: Entry, marker: string)
    requires dir in fs && e in es
    ensures WalkEntry(fs, dir, e, marker).found <= WalkEntries(fs, dir, es, marker).found
    ensures WalkEntries(fs, dir, es, marker).readable ==> WalkEntry(fs, dir, e, marker).readable
    decreases |es|
  {
    var init := es[..|es| - 1];
    if e != es[|es| - 1] {
      assert es == init + [es[|es| - 1]];
      EntryWithin(fs, dir, init, e, marker);
    }
  }

  /**
    Every directory reached through subdirectory entries is walked too: what
    it yields is part of what the start yields, and if the start's walk reads
    every directory then the reached directory is readable.
  */
  lemma {:induction false} ChainWithin(fs: Tree, dir: string, names: seq<string>, marker: string)
    requires IsChain(fs, dir, names)
    ensures WalkFrom(fs, Follow(dir, names), marker).found <= WalkFrom(fs, dir, marker).found
    ensures WalkFrom(fs, dir, marker).readable ==> WalkFrom(fs, Follow(dir, names), marker).readable
    ensures WalkFrom(fs, dir, marker).readable ==> Follow(dir, names) in fs
    decreases |names|
  {
    if names != [] {
      EntryWithin(fs, dir, fs[dir], Entry(names[0], true), marker);
      ChainWithin(fs, Join(dir, names[0]), names[1..], marker);
    }
  }

  /** Completeness: a marker file in any reachable directory is found. */
  lemma MarkerFileFound(fs: Tree, root: string, names: seq<string>, marker: string)
    requires IsChain(fs, root, names)
    requires Follow(root, names) in fs && Entry(marker, false) in fs[Follow(root, names)]
    ensures Join(Follow(root, names), marker) in WalkFrom(fs, root, marker).found
  {
    var d := Follow(root, names);
    ChainWithin(fs, root, names, marker);
    EntryWithin(fs, d, fs[d], Entry(marker, false), marker);
  }

  /**
    Soundness: everything found is a non-directory entry named `marker` in a
    readable directory reached from `dir`, joined to that directory's path.
  */
  lemma {:induction false} FoundIsMarkerFile(fs: Tree, dir: string, marker: string, p: string)
    returns (names: seq<string>)
    requires p in WalkFrom(fs, dir, marker).found
    ensures IsChain(fs, dir, names)
    ensures Follow(dir, names) in fs && Entry(marker, false) in fs[Follow(dir, names)]
    ensures p == Join(Follow(dir, names), marker)
    decreases LongKeys(fs, |dir|), 1, 0
  {
    names := FoundInEntries(fs, dir, fs[dir], marker, p);
  }

  lemma {:induction false} FoundInEntries(fs: Tree, dir: string, es: seq<Entry>, marker: string, p: string)
    returns (names: seq<string>)
    requires dir in fs && es <= fs[dir]
    requires p in WalkEntries(fs, dir, es, marker).found
    ensures IsChain(fs, dir, names)
    ensures Follow(dir, names) in fs && Entry(marker, false) in fs[Follow(dir, names)]
    ensures p == Join(Follow(dir, names), marker)
    decreases LongKeys(fs, |dir|), 0, |es|
  {
    var init, last := es[..|es| - 1], es[|es| - 1];
    assert last == fs[dir][|es| - 1];
    if p in WalkEntries(fs, dir, init, marker).found {
      names := FoundInEntries(fs, dir, init, marker, p);
    } else if last.isDir {
      DescentShrinks(fs, dir, last.name);
      var sub := FoundIsMarkerFile(fs, Join(dir, last.name), marker, p);
      names := [last.name] + sub;
      assert names[1..] == sub;
    } else {
      names := [];
    }
  }

  /**
    The converse of `ChainWithin`'s readability clause: when the walk fails,
    some directory reached through subdirectory entries cannot be read.
  */
  lemma {:induction false} UnreadableReachable(fs: Tree, dir: string, marker: string)
    returns (names: seq<string>)
    requires !WalkFrom(fs, dir, marker).readable
    ensures IsChain(fs, dir, names) && Follow(dir, names) !in fs
    decreases LongKeys(fs, |dir|), 1, 0
  {
    if dir !in fs {
      names := [];
    } else {
      names := UnreadableInEntries(fs, dir, fs[dir], marker);
    }
  }

  lemma {:induction false} UnreadableInEntries(fs: Tree, dir: string, es: seq<Entry>, marker: string)
    returns (names: seq<string>)
    requires dir in fs && es <= fs[dir]
    requires !WalkEntries(fs, dir, es, marker).readable
    ensures IsChain(fs, dir, names) && Follow(dir, names) !in fs
    decreases LongKeys(fs, |dir|), 0, |es|
  {
    var init, last := es[..|es| - 1], es[|es| - 1];
    assert last == fs[dir][|es| - 1];
    if !WalkEntries(fs, dir, init, marker).readable {
      names := UnreadableInEntries(fs, dir, init, marker);
    } else {
      DescentShrinks(fs, dir, last.name);
      var sub := UnreadableReachable(fs, Join(dir, last.name), marker);
      names := [last.name] + sub;
      assert names[1..] == sub;
    }
  }
}
