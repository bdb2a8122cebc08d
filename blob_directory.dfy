/**
 * A directory handle: a path whose trailing separators are stripped, and the
 * operations exists, create (mkdir -p), list (recursive, regular files only)
 * and delete (recursive) on the filesystem.
 */
module BlobDirectory {
  import opened Paths
  import opened Errors
  import opened Os

  /** new Directory(path): the path with its trailing '/' and '\' stripped. */
  function NewDirectory(path: string): (d: Directory)
    ensures |d.path| <= |path| && d.path == path[..|d.path|]
    ensures forall i | |d.path| <= i < |path| :: path[i] in SlashChars
    ensures d.path == "" || d.path[|d.path| - 1] !in SlashChars
  {
    Directory(RTrim(path, SlashChars))
  }

  datatype Directory = Directory(path: string)
  {
    /** exists(): false when nothing is there, an error when a non-directory is. */
    function Exists(nodes: Nodes): Result<bool>
    {
      match Stat(nodes, path)
      case Absent => Ok(false)
      case IsDir => Ok(true)
      case IsFile(_) => Err(NotADirectory(path))
    }

    /** What create() reports and leaves behind. */
    function AfterCreate(nodes: Nodes): Effect
    {
      match Stat(nodes, path)
      case IsDir => Effect(Pass, nodes)
      case IsFile(_) => Effect(Fail(NotADirectory(path)), nodes)
      case Absent =>
        if MkdirOk(nodes, path) then Effect(Pass, MkdirAll(nodes, Resolve(path)))
        else Effect(Fail(CreateDirectoryFailed(path)), nodes)
    }

    method Create(fs: FileSystem) returns (o: Outcome)
      modifies fs
      requires fs.Valid()
      ensures fs.Valid()
      ensures Effect(o, fs.nodes) == AfterCreate(old(fs.nodes))
    {
      var found := Stat(fs.nodes, path);
      if !found.Absent? {
        if found.IsDir? {
          return Pass;
        } else {
          return Fail(NotADirectory(path));
        }
      }
      var ok := fs.Mkdir(path);
      if !ok {
        return Fail(CreateDirectoryFailed(path));
      }
      return Pass;
    }

    /**
     * list(filter): the relative paths of the regular files below the
     * directory whose own name passes `keep`; nothing when the directory is
     * missing. Sub-directories are traversed, never listed.
     */
    function List(nodes: Nodes, keep: string -> bool): (r: Result<set<string>>)
      ensures r.Ok? <==> Exists(nodes).Ok?
      ensures Exists(nodes) == Ok(false) ==> r == Ok({})
      ensures r.Err? ==> r.error == NotADirectory(path)
    {
      match Exists(nodes)
      case Err(e) => Err(e)
      case Ok(found) =>
        if found then Ok(set r | r in ListRel(nodes, Resolve(path), keep) :: Join(r)) else Ok({})
    }

    /**
     * What delete() reports and leaves behind: nothing happens to a missing
     * directory; otherwise everything below it is removed and then the
     * directory itself, which rmdir refuses when the path ends in '.'
     * (the working directory among them).
     */
    function AfterDelete(nodes: Nodes): Effect
    {
      match Stat(nodes, path)
      case Absent => Effect(Pass, nodes)
      case IsFile(_) => Effect(Fail(NotADirectory(path)), nodes)
      case IsDir =>
        var dir := Resolve(path);
        if dir != [] && LastPiece(path) != "." then Effect(Pass, RemoveTree(nodes, dir))
        else Effect(Fail(DeleteDirectoryFailed(path)), ClearBelow(nodes, dir))
    }

    method Delete(fs: FileSystem) returns (o: Outcome)
      modifies fs
      requires fs.Valid()
      ensures fs.Valid()
      ensures Effect(o, fs.nodes) == AfterDelete(old(fs.nodes))
      decreases |Under(fs.nodes, Resolve(path))|, 1
    {
      var found := Exists(fs.nodes);
      if found.Err? {
        return Fail(found.error);
      }
      if !found.value {
        return Pass;
      }
      ghost var orig := fs.nodes;
      DeleteChildren(fs);
      DeleteFinish(orig, path);
      var ok := fs.Rmdir(path);
      if !ok {
        return Fail(DeleteDirectoryFailed(path));
      }
      return Pass;
    }

    /** The foreach loop of delete(): every entry of the directory removed, sub-directories recursively. */
    method DeleteChildren(fs: FileSystem)
      modifies fs
      requires fs.Valid()
      ensures fs.Valid()
      ensures var dir := Resolve(path);
        fs.nodes == RemoveChildren(old(fs.nodes), dir, ChildNames(old(fs.nodes), dir))
      decreases |Under(fs.nodes, Resolve(path))|, 0
    {
      var dir := Resolve(path);
      ghost var orig := fs.nodes;
      var names := ChildNames(fs.nodes, dir);
      var remaining := names;
      RemoveNoChildren(orig, dir);
      assert names - remaining == {};
      while remaining != {}
        invariant fs.Valid()
        invariant remaining <= names
        invariant fs.nodes == RemoveChildren(orig, dir, names - remaining)
        decreases |remaining|
      {
        var name :| name in remaining;
        var child := path + [Separator] + name;
        ChildStep(orig, path, names - remaining, name);
        if Stat(fs.nodes, child).IsDir? {
          var sub := NewDirectory(child);
          SubDeletePasses(fs.nodes, child, dir + [name]);
          var r := sub.Delete(fs);
          assert r == Pass;
          RemoveSubtreeStep(orig, dir, names - remaining, name);
        } else {
          var ok := fs.Unlink(child);
          assert ok;
          RemoveFileStep(orig, dir, names - remaining, name);
        }
        OneMoreDone(names, remaining, name);
        remaining := remaining - {name};
      }
      assert names - remaining == names;
    }
  }

  /** Taking one name out of the remaining ones adds it to those done. */
  lemma OneMoreDone(names: set<string>, remaining: set<string>, name: string)
    requires remaining <= names && name in remaining
    ensures (names - remaining) + {name} == names - (remaining - {name})
  {
  }

  /** A sub-directory found by delete() is deleted without failure. */
  lemma SubDeletePasses(cur: Nodes, child: string, c: seq<string>)
    requires Stat(cur, child).IsDir? && Resolve(child) == c && c != [] && LastPiece(child) != "."
    ensures Directory(child).AfterDelete(cur) == Effect(Pass, RemoveTree(cur, c))
  {
  }

  /** The last step of delete(): rmdir on the emptied directory. */
  lemma DeleteFinish(orig: Nodes, path: string)
    requires WellFormed(orig) && Stat(orig, path).IsDir?
    ensures var dir := Resolve(path);
      var cur := RemoveChildren(orig, dir, ChildNames(orig, dir));
      && WellFormed(cur)
      && (RmdirOk(cur, path) <==> dir != [] && LastPiece(path) != ".")
      && Directory(path).AfterDelete(orig)
         == if RmdirOk(cur, path) then Effect(Pass, cur - {dir}) else Effect(Fail(DeleteDirectoryFailed(path)), cur)
  {
    var dir := Resolve(path);
    AllChildrenRemoved(orig, dir);
    ClearBelowThenDir(orig, dir);
    RemoveChildrenWellFormed(orig, dir, ChildNames(orig, dir));
  }

  /** What delete() knows about the next entry of its loop. */
  lemma ChildStep(orig: Nodes, path: string, done: set<string>, name: string)
    requires WellFormed(orig)
    requires name in ChildNames(orig, Resolve(path)) && name !in done
    ensures var dir := Resolve(path);
      var cur := RemoveChildren(orig, dir, done);
      var child := path + [Separator] + name;
      && WellFormed(cur)
      && NewDirectory(child) == Directory(child)
      && Resolve(child) == dir + [name]
      && LastPiece(child) == name && ValidName(name)
      && dir + [name] in cur && cur[dir + [name]] == orig[dir + [name]]
      && |Under(cur, dir + [name])| < |Under(orig, dir)|
      && (Stat(cur, child).IsDir? || Stat(cur, child).IsFile?)
  {
    var dir := Resolve(path);
    var cur := RemoveChildren(orig, dir, done);
    RemoveChildrenWellFormed(orig, dir, done);
    ChildNameEntry(orig, dir, name);
    ChildPath(path, name);
    UnderMono(cur, orig, dir + [name]);
    ChildShrinks(orig, dir, dir + [name]);
    assert WellFormed(cur);
    assert NewDirectory(path + [Separator] + name) == Directory(path + [Separator] + name);
    assert dir + [name] in cur;
    assert cur[dir + [name]] == orig[dir + [name]];
    assert |Under(cur, dir + [name])| < |Under(orig, dir)|;
  }

  /** The path of an entry inside a directory, as delete() and list() build it. */
  lemma ChildPath(path: string, name: string)
    requires Storable(name)
    ensures Resolve(path + [Separator] + name) == Resolve(path) + [name]
    ensures LastPiece(path + [Separator] + name) == name
    ensures NewDirectory(path + [Separator] + name).path == path + [Separator] + name
  {
    ChildResolves(path, name);
    ChildLastPiece(path, name);
    ChildUntrimmed(path, name);
  }

  lemma ChildResolves(path: string, name: string)
    requires Storable(name)
    ensures Resolve(path + [Separator] + name) == Resolve(path) + [name]
  {
    ResolveAppend(path, name);
    ResolveName(name);
  }

  lemma ChildLastPiece(path: string, name: string)
    requires Storable(name)
    ensures LastPiece(path + [Separator] + name) == name
  {
    LastPieceAppend(path, name);
    LastPieceName(name);
  }

  lemma ChildUntrimmed(path: string, name: string)
    requires Storable(name)
    ensures NewDirectory(path + [Separator] + name).path == path + [Separator] + name
  {
    var child := path + [Separator] + name;
    assert child[|child| - 1] == name[|name| - 1];
    assert name[|name| - 1] !in SlashChars;
  }

  // ---------------------------------------------------------------------
  // Properties of create, list and delete
  // ---------------------------------------------------------------------

  /**
   * create() either leaves an existing directory behind or fails without
   * touching the filesystem; a path held by a file fails with "not a
   * directory". Entries that existed are never changed, and on success every
   * ancestor of the directory is a directory too.
   */
  lemma CreateYieldsDirectory(d: Directory, nodes: Nodes)
    requires WellFormed(nodes)
    ensures var e := d.AfterCreate(nodes);
      && WellFormed(e.nodes)
      && (e.outcome == Pass <==> d.Exists(e.nodes) == Ok(true))
      && (e.outcome.Fail? ==> e.nodes == nodes)
      && (d.Exists(nodes).Err? ==> e == Effect(Fail(NotADirectory(d.path)), nodes))
      && (forall q | q in nodes :: q in e.nodes && e.nodes[q] == nodes[q])
      && (forall q | q in e.nodes && q !in nodes :: e.nodes[q] == Dir)
      && (e.outcome == Pass ==> forall k | 1 <= k <= |Resolve(d.path)| ::
            Resolve(d.path)[..k] in e.nodes && e.nodes[Resolve(d.path)[..k]] == Dir)
  {
    var e := d.AfterCreate(nodes);
    var p := Resolve(d.path);
    if Stat(nodes, d.path).Absent? && MkdirOk(nodes, d.path) {
      MkdirAllWellFormed(nodes, p);
      assert p[..|p|] == p;
      assert p in Prefixes(p);
      forall k | 1 <= k <= |p| ensures p[..k] in e.nodes && e.nodes[p[..k]] == Dir {
        assert p[..k] in Prefixes(p);
      }
    } else if Stat(nodes, d.path).IsDir? && p != [] {
      forall k | 1 <= k <= |p| ensures p[..k] in nodes && nodes[p[..k]] == Dir {
        if k < |p| {
          AncestorIsDir(nodes, p, k);
        } else {
          assert p[..k] == p;
        }
      }
    }
  }

  /** create() on a directory it has just created changes nothing and succeeds. */
  lemma CreateIdempotent(d: Directory, nodes: Nodes)
    requires d.AfterCreate(nodes).outcome == Pass
    ensures var after := d.AfterCreate(nodes).nodes;
      d.AfterCreate(after) == Effect(Pass, after)
  {
    var p := Resolve(d.path);
    if Stat(nodes, d.path).Absent? {
      assert p[..|p|] == p;
      assert p in Prefixes(p);
    }
  }

  /**
   * On an existing directory, list() yields exactly the paths, relative to the
   * directory and joined with '/', of the regular files below it whose own
   * name passes the filter; a missing directory lists nothing, a path held by
   * a file fails.
   */
  lemma ListIsKeptFiles(d: Directory, nodes: Nodes, keep: string -> bool)
    requires WellFormed(nodes)
    ensures d.Exists(nodes) == Ok(false) ==> d.List(nodes, keep) == Ok({})
    ensures d.Exists(nodes).Err? ==> d.List(nodes, keep) == Err(NotADirectory(d.path))
    ensures d.Exists(nodes) == Ok(true) ==>
      var dir := Resolve(d.path);
      d.List(nodes, keep).Ok? &&
      forall x :: x in d.List(nodes, keep).value <==>
        exists p :: KeptFileBelow(nodes, dir, keep, p) && x == Join(p[|dir|..])
  {
    if d.Exists(nodes) == Ok(true) {
      var dir := Resolve(d.path);
      ListRelIsFilesBelow(nodes, dir, keep);
      forall x ensures x in d.List(nodes, keep).value <==>
        exists p :: KeptFileBelow(nodes, dir, keep, p) && x == Join(p[|dir|..])
      {
        if x in d.List(nodes, keep).value {
          var r :| r in ListRel(nodes, dir, keep) && x == Join(r);
          var p :| p in nodes && KeptFileBelow(nodes, dir, keep, p) && r == p[|dir|..];
          assert KeptFileBelow(nodes, dir, keep, p) && x == Join(p[|dir|..]);
        }
        if exists p :: KeptFileBelow(nodes, dir, keep, p) && x == Join(p[|dir|..]) {
          var p :| KeptFileBelow(nodes, dir, keep, p) && x == Join(p[|dir|..]);
          assert p[|dir|..] in FilesBelow(nodes, dir, keep);
        }
      }
    }
  }

  /**
   * Every listed path, appended to the directory's path, names a regular file
   * whose own name passes the filter.
   */
  lemma ListedPathsAreFiles(d: Directory, nodes: Nodes, keep: string -> bool, x: string)
    requires WellFormed(nodes)
    requires d.List(nodes, keep).Ok? && x in d.List(nodes, keep).value
    ensures Stat(nodes, d.path + [Separator] + x).IsFile?
    ensures keep(LastPiece(x))
  {
    var dir := Resolve(d.path);
    ListIsKeptFiles(d, nodes, keep);
    var p :| KeptFileBelow(nodes, dir, keep, p) && x == Join(p[|dir|..]);
    KeptFileNamed(nodes, d.path, keep, p);
  }

  /** A kept file below the directory at `path` is named by the path, '/', and its names relative to the directory. */
  lemma KeptFileNamed(nodes: Nodes, path: string, keep: string -> bool, p: seq<string>)
    requires WellFormed(nodes) && KeptFileBelow(nodes, Resolve(path), keep, p)
    ensures var x := Join(p[|Resolve(path)|..]);
      Stat(nodes, path + [Separator] + x).IsFile? && keep(LastPiece(x))
  {
    var dir := Resolve(path);
    var r := p[|dir|..];
    var x := Join(r);
    var full := path + [Separator] + x;
    KeptFileTail(nodes, dir, keep, p);
    ResolveJoin(r);
    ResolveAppend(path, x);
    LastPieceAppend(path, x);
    LastPieceOfJoin(r);
    assert Resolve(full) == p;
    assert LastPiece(full) == LastPiece(x) == r[|r| - 1];
    assert Storable(r[|r| - 1]);
  }

  /**
   * A delete() that succeeds leaves no directory at the path and nothing
   * below it, and every other entry as it was. It succeeds on every path that
   * is not held by a file, except one resolving to '.'.
   */
  lemma DeleteRemovesTree(d: Directory, nodes: Nodes)
    requires WellFormed(nodes)
    ensures var e := d.AfterDelete(nodes);
      var dir := Resolve(d.path);
      && WellFormed(e.nodes)
      && (e.outcome == Pass <==> d.Exists(nodes) == Ok(false) || (d.Exists(nodes) == Ok(true) && dir != [] && LastPiece(d.path) != "."))
      && (e.outcome == Pass ==> d.Exists(e.nodes) == Ok(false) && (d.path != "" ==> Under(e.nodes, dir) == {}))
      && (forall q | q in nodes && !IsPrefix(dir, q) :: q in e.nodes && e.nodes[q] == nodes[q])
      && (forall q | q in e.nodes :: q in nodes && e.nodes[q] == nodes[q])
  {
    var dir := Resolve(d.path);
    RemoveTreeWellFormed(nodes, dir);
    AllChildrenRemoved(nodes, dir);
    RemoveChildrenWellFormed(nodes, dir, ChildNames(nodes, dir));
    if d.path != "" && Stat(nodes, d.path).Absent? {
      forall q | q in Under(nodes, dir) ensures dir in nodes && nodes[dir].Dir? {
        AncestorIsDir(nodes, q, |dir|);
      }
    }
  }

  /** Deleting a directory twice: the second delete() changes nothing and succeeds. */
  lemma DeleteIdempotent(d: Directory, nodes: Nodes)
    requires WellFormed(nodes)
    requires d.AfterDelete(nodes).outcome == Pass
    ensures var after := d.AfterDelete(nodes).nodes;
      d.AfterDelete(after) == Effect(Pass, after)
  {
    DeleteRemovesTree(d, nodes);
  }

  /**
   * exists() is true exactly when the path resolves to the working directory
   * or to a directory entry, and fails with "not a directory" exactly when a
   * regular file is found there.
   */
  lemma DirectoryExistsMeaning(d: Directory, nodes: Nodes)
    ensures var p := Resolve(d.path);
      d.Exists(nodes) == Ok(true) <==> d.path != "" && (p == [] || (p in nodes && nodes[p].Dir?))
    ensures var p := Resolve(d.path);
      d.Exists(nodes).Err? <==> d.path != "" && p != [] && p in nodes && nodes[p].File? && !NamesDirectory(d.path)
    ensures d.Exists(nodes).Err? ==> d.Exists(nodes).error == NotADirectory(d.path)
  {
  }

  /** On an existing directory, list() is empty exactly when no kept file lies below it. */
  lemma ListEmptyIff(d: Directory, nodes: Nodes, keep: string -> bool)
    requires WellFormed(nodes) && d.Exists(nodes) == Ok(true)
    ensures d.List(nodes, keep) == Ok({}) <==> forall q :: !KeptFileBelow(nodes, Resolve(d.path), keep, q)
    ensures d.List(nodes, keep) == Ok({}) <==> ListRel(nodes, Resolve(d.path), keep) == {}
  {
    var dir := Resolve(d.path);
    var rel := ListRel(nodes, dir, keep);
    ListIsKeptFiles(d, nodes, keep);
    if rel != {} {
      var r :| r in rel;
      assert Join(r) in d.List(nodes, keep).value;
    } else {
      assert d.List(nodes, keep).value == {};
    }
    if d.List(nodes, keep) != Ok({}) {
      var x :| x in d.List(nodes, keep).value;
      var p :| KeptFileBelow(nodes, dir, keep, p) && x == Join(p[|dir|..]);
    }
    if exists q :: KeptFileBelow(nodes, dir, keep, q) {
      var q :| KeptFileBelow(nodes, dir, keep, q);
      assert Join(q[|dir|..]) in d.List(nodes, keep).value;
    }
  }
}
