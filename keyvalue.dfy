/**
 * The key-value store: a blob storage rooted at the namespace directory
 * below `dir`, holding one file 'root/<key>.<extension>' per key with the
 * serialized value as its whole content.
 */
module KeyValue {
  import opened Paths
  import opened Errors
  import opened Values
  import opened Os
  import opened BlobDirectory
  import opened BlobFile
  import opened BlobStorage

  /**
   * The root the store opens: `dir` right-trimmed of '/' and '\', followed by
   * the namespace trimmed of them at both ends, unless that namespace is '.'.
   * It resolves to the namespace's names below the trimmed directory.
   */
  function RootPath(dir: string, namespace: string): (r: string)
    ensures Resolve(r) == Resolve(RTrim(dir, SlashChars)) + Resolve(Trim(namespace, SlashChars))
  {
    var ns := Trim(namespace, SlashChars);
    var d := RTrim(dir, SlashChars);
    if ns == "." then
      assert Resolve(ns) == [] by { SplitName(ns); }
      d
    else
      ResolveAppend(d, ns);
      d + [Separator] + ns
  }

  /** The listing filter of keys(): the entry name ends with the extension, with no dot required. */
  function WithExtension(ext: string): string -> bool
  {
    name => EndsWith(name, ext)
  }

  /** Dropping '.' and the extension from the path of 'root/<key>.<ext>' leaves 'root/<key>'. */
  lemma KeyPathDropsToKey(root: string, key: string, ext: string)
    ensures DropLast(root + [Separator] + (key + "." + ext), |ext| + 1) == root + [Separator] + key
  {
    var p := root + [Separator] + (key + "." + ext);
    assert p == (root + [Separator] + key) + ("." + ext);
  }

  /** A file name whose pieces between separators are all names a file can have. */
  predicate StorableName(name: string)
  {
    var pieces := Split(name);
    forall i | 0 <= i < |pieces| :: Storable(pieces[i])
  }

  /** A root path the store can name its files below without any trimming. */
  predicate PlainRoot(path: string)
  {
    path != "" && path[|path| - 1] !in SlashChars
  }

  datatype Store = Store(dir: string, namespace: string, serializer: Serializer, storage: Storage)
  {
    /** fileForKey(key): the file 'root/<key>.<extension>', bound to the serializer. */
    function FileForKey(key: string): (f: File)
      ensures f.serializer == Some(serializer)
    {
      storage.File(key + "." + serializer.extension, serializer)
    }

    /** get(key): the key's file read back through the serializer; a missing key is the 404. */
    function Get(nodes: Nodes, key: string): (r: Result<Value>)
      ensures r.Ok? <==> Has(nodes, key) == Ok(true)
      ensures Has(nodes, key) == Ok(false) ==> r == Err(NotFound(FileForKey(key).path))
      ensures r.Ok? ==> r.value == serializer.deserialize(Stat(nodes, FileForKey(key).path).content)
    {
      FileForKey(key).Read(nodes)
    }

    /** set(key, value): the key's file written with the serialized value. */
    method Set(fs: FileSystem, key: string, v: Value) returns (o: Outcome)
      modifies fs
      requires fs.Valid()
      ensures fs.Valid()
      ensures Effect(o, fs.nodes) == FileForKey(key).AfterWrite(old(fs.nodes), v)
    {
      o := FileForKey(key).Write(fs, v);
    }

    /** What delete(key) reports and leaves behind: the file is deleted, then its parents cleared. */
    function AfterDelete(nodes: Nodes, key: string): Effect
    {
      var f := FileForKey(key);
      var e := f.AfterDelete(nodes);
      if e.outcome.Fail? then e
      else
        var w := storage.AfterClearParents(e.nodes, f);
        Effect(if w.result.Err? then Fail(w.result.error) else Pass, w.nodes)
    }

    method Delete(fs: FileSystem, key: string) returns (o: Outcome)
      modifies fs
      requires fs.Valid()
      ensures fs.Valid()
      ensures Effect(o, fs.nodes) == AfterDelete(old(fs.nodes), key)
    {
      var f := FileForKey(key);
      o := f.Delete(fs);
      if o.Fail? {
        return;
      }
      var cleared := storage.ClearParents(fs, f);
      o := if cleared.Err? then Fail(cleared.error) else Pass;
    }

    /** has(key): whether the key's file exists. */
    function Has(nodes: Nodes, key: string): (r: Result<bool>)
      ensures r == Ok(true) <==> Stat(nodes, FileForKey(key).path).IsFile?
      ensures r.Err? <==> Stat(nodes, FileForKey(key).path).IsDir?
    {
      FileForKey(key).Exists(nodes)
    }

    /**
     * keys(): the listed files whose name ends with the extension, each with
     * its last |extension| + 1 characters dropped.
     */
    function Keys(nodes: Nodes): (r: Result<set<string>>)
      ensures storage.Directory().Exists(nodes) == Ok(false) ==> r == Ok({})
      ensures r.Err? ==> r.error == NotADirectory(storage.Directory().path)
    {
      match storage.List(nodes, WithExtension(serializer.extension))
      case Err(e) => Err(e)
      case Ok(names) =>
        var keys := set n | n in names :: DropLast(n, |serializer.extension| + 1);
        assert names == {} ==> keys == {};
        Ok(keys)
    }

    /** purge(): the storage purged. */
    method Purge(fs: FileSystem) returns (o: Outcome)
      modifies fs
      requires fs.Valid()
      ensures fs.Valid()
      ensures Effect(o, fs.nodes) == storage.Directory().AfterDelete(old(fs.nodes))
    {
      o := storage.Purge(fs);
    }
  }

  /** new Storage(dir, namespace, serializer): the root path derived, then the blob storage opened on it. */
  method Open(fs: FileSystem, dir: string, namespace: string, serializer: Serializer) returns (r: Result<Store>)
    modifies fs
    requires fs.Valid()
    ensures fs.Valid()
    ensures r.Ok? ==> r.value == Store(RTrim(dir, SlashChars), Trim(namespace, SlashChars), serializer, Storage(RootPath(dir, namespace)))
    ensures Effect(if r.Ok? then Pass else Fail(r.error), fs.nodes) == NewDirectory(RootPath(dir, namespace)).AfterCreate(old(fs.nodes))
  {
    var path := RootPath(dir, namespace);
    var st := BlobStorage.Open(fs, path);
    if st.Err? {
      return Err(st.error);
    }
    return Ok(Store(RTrim(dir, SlashChars), Trim(namespace, SlashChars), serializer, st.value));
  }

  // ---------------------------------------------------------------------
  // Properties
  // ---------------------------------------------------------------------

  /** set(key, v) then get(key) gives v back under a round-tripping serializer, and has(key) is true. */
  lemma SetThenGet(kv: Store, nodes: Nodes, key: string, v: Value)
    requires WellFormed(nodes) && RoundTrips(kv.serializer)
    requires kv.FileForKey(key).AfterWrite(nodes, v).outcome == Pass
    ensures var after := kv.FileForKey(key).AfterWrite(nodes, v).nodes;
      kv.Get(after, key) == Ok(v) && kv.Has(after, key) == Ok(true)
  {
    var f := kv.FileForKey(key);
    WriteThenRead(f, nodes, v);
    ReadOutcome(f, f.AfterWrite(nodes, v).nodes);
  }

  /** set on a key that is present always succeeds, and no other entry changes. */
  lemma SetExisting(kv: Store, nodes: Nodes, key: string, v: Value)
    requires WellFormed(nodes)
    requires kv.Has(nodes, key) == Ok(true)
    ensures var e := kv.FileForKey(key).AfterWrite(nodes, v);
      && e.outcome == Pass
      && forall q | q in nodes && q != Resolve(kv.FileForKey(key).path) :: q in e.nodes && e.nodes[q] == nodes[q]
  {
    WriteReplacesContent(kv.FileForKey(key), nodes, v);
  }

  /** get of a key that is not there fails with the 404 "File 'root/<key>.<extension>' does not exist". */
  lemma GetMissing(kv: Store, nodes: Nodes, key: string)
    requires kv.Has(nodes, key) == Ok(false)
    ensures kv.Get(nodes, key) == Err(NotFound(kv.storage.path + [Separator] + key + "." + kv.serializer.extension))
    ensures Code(kv.Get(nodes, key).error) == 404
  {
    ReadOutcome(kv.FileForKey(key), nodes);
  }

  /** Where a successful delete leaves the file: gone, after only pruning below the root. */
  lemma DeleteShape(kv: Store, nodes: Nodes, key: string)
    requires WellFormed(nodes)
    requires kv.AfterDelete(nodes, key).outcome == Pass
    ensures var f := kv.FileForKey(key);
      var e := f.AfterDelete(nodes);
      var segs := Split(Substr(Dirname(f.path), |kv.storage.path| + 1));
      && e.outcome == Pass
      && WellFormed(e.nodes)
      && f.Exists(e.nodes) == Ok(false)
      && StartsWith(Dirname(f.path), kv.storage.path)
      && ClearWalk(e.nodes, kv.storage.path, segs).result.Ok?
      && kv.AfterDelete(nodes, key) == Effect(Pass, ClearWalk(e.nodes, kv.storage.path, segs).nodes)
  {
    DeleteRemovesFile(kv.FileForKey(key), nodes);
  }

  /**
   * The key's file names '<key>.<extension>' below the root, and dropping the
   * extension and its dot from its path gives back 'root/<key>'.
   */
  lemma KeyFilePath(kv: Store, key: string)
    ensures var f := kv.FileForKey(key);
      Resolve(f.path) == Resolve(kv.storage.path) + Resolve(key + "." + kv.serializer.extension)
    ensures DropLast(kv.FileForKey(key).path, |kv.serializer.extension| + 1) == kv.storage.path + [Separator] + key
  {
    KeyPathDropsToKey(kv.storage.path, key, kv.serializer.extension);
  }

  /** After a successful delete(key), has(key) is false. */
  lemma DeleteThenHas(kv: Store, nodes: Nodes, key: string)
    requires WellFormed(nodes)
    requires kv.AfterDelete(nodes, key).outcome == Pass
    ensures WellFormed(kv.AfterDelete(nodes, key).nodes)
    ensures kv.Has(kv.AfterDelete(nodes, key).nodes, key) == Ok(false)
  {
    var f := kv.FileForKey(key);
    var e := f.AfterDelete(nodes);
    var segs := Split(Substr(Dirname(f.path), |kv.storage.path| + 1));
    DeleteShape(kv, nodes, key);
    ClearWalkOnlyPrunes(e.nodes, kv.storage.path, segs);
    StatAbsentStays(e.nodes, ClearWalk(e.nodes, kv.storage.path, segs).nodes, f.path);
  }

  /** Deleting the same key twice: the second delete succeeds and changes nothing. */
  lemma DeleteTwice(kv: Store, nodes: Nodes, key: string)
    requires WellFormed(nodes)
    requires kv.AfterDelete(nodes, key).outcome == Pass
    ensures var after := kv.AfterDelete(nodes, key).nodes;
      kv.AfterDelete(after, key) == Effect(Pass, after)
  {
    var f := kv.FileForKey(key);
    var e := f.AfterDelete(nodes);
    var segs := Split(Substr(Dirname(f.path), |kv.storage.path| + 1));
    DeleteShape(kv, nodes, key);
    DeleteThenHas(kv, nodes, key);
    ClearWalkFirstLevel(e.nodes, kv.storage.path, segs);
    DeleteAbsent(kv, ClearWalk(e.nodes, kv.storage.path, segs).nodes, key);
  }

  /** delete(key) of an absent key whose parent walk stops at once succeeds and changes nothing. */
  lemma DeleteAbsent(kv: Store, nodes: Nodes, key: string)
    requires kv.Has(nodes, key) == Ok(false)
    requires StartsWith(Dirname(kv.FileForKey(key).path), kv.storage.path)
    requires ClearWalk(nodes, kv.storage.path, Split(Substr(Dirname(kv.FileForKey(key).path), |kv.storage.path| + 1)))
      == Walk(Ok(false), nodes)
    ensures kv.AfterDelete(nodes, key) == Effect(Pass, nodes)
  {
  }

  /** After a successful purge, keys() is empty and a second purge succeeds without change. */
  lemma PurgeThenKeys(kv: Store, nodes: Nodes)
    requires WellFormed(nodes)
    ensures var e := kv.storage.Directory().AfterDelete(nodes);
      e.outcome == Pass ==>
        && kv.Keys(e.nodes) == Ok({})
        && kv.storage.Directory().AfterDelete(e.nodes) == Effect(Pass, e.nodes)
  {
    var e := kv.storage.Directory().AfterDelete(nodes);
    PurgeEmpties(kv.storage, nodes, WithExtension(kv.serializer.extension));
    if e.outcome == Pass {
      assert kv.storage.List(e.nodes, WithExtension(kv.serializer.extension)) == Ok({});
      assert kv.Keys(e.nodes).value == {};
    }
  }

  /** A file name of storable pieces resolves below the root to the root's names followed by those pieces. */
  lemma NameBelowRoot(root: string, name: string)
    requires StorableName(name)
    ensures Resolve(root + [Separator] + name) == Resolve(root) + Split(name)
    ensures Join(Split(name)) == name
  {
    JoinSplit(name);
    ResolveJoin(Split(name));
    ResolveAppend(root, name);
  }

  /** The root handle of a plain root path is the path itself. */
  lemma PlainRootDirectory(st: Storage)
    requires PlainRoot(st.path)
    ensures st.Directory().path == st.path
  {
  }

  /**
   * The root directory handle (the root right-trimmed of '/' and '') is a
   * non-empty path naming the same entry as the root: true of a plain root
   * and of the empty-namespace root 'dir/'.
   */
  predicate HandleAgrees(root: string)
  {
    var h := NewDirectory(root).path;
    h != "" && Resolve(h) == Resolve(root)
  }

  /** Every root a store opens on a non-empty base directory has a handle that agrees with it. */
  lemma OpenedRootAgrees(dir: string, namespace: string)
    requires RTrim(dir, SlashChars) != ""
    ensures HandleAgrees(RootPath(dir, namespace))
  {
    var d := RTrim(dir, SlashChars);
    var ns := Trim(namespace, SlashChars);
    RootPathShape(dir, namespace);
    if ns == "." {
      PlainHandleAgrees(d);
    } else if ns == "" {
      SlashedHandleAgrees(d, ns);
    } else {
      NamespacedRootPlain(d, ns);
      PlainHandleAgrees(d + [Separator] + ns);
    }
  }

  /** The root is the trimmed base directory, joined to the trimmed namespace unless that is '.'. */
  lemma RootPathShape(dir: string, namespace: string)
    ensures var d := RTrim(dir, SlashChars);
      var ns := Trim(namespace, SlashChars);
      RootPath(dir, namespace) == if ns == "." then d else d + [Separator] + ns
    ensures RTrim(dir, SlashChars) != "" ==> PlainRoot(RTrim(dir, SlashChars))
  {
  }

  /** A base directory joined to a namespace that does not end in a slash is a plain root. */
  lemma NamespacedRootPlain(d: string, ns: string)
    requires ns != "" && ns[|ns| - 1] !in SlashChars
    ensures PlainRoot(d + [Separator] + ns)
  {
    var root := d + [Separator] + ns;
    assert root[|root| - 1] == ns[|ns| - 1];
  }

  lemma PlainHandleAgrees(root: string)
    requires PlainRoot(root)
    ensures HandleAgrees(root)
  {
  }

  /** The empty-namespace root 'd/' has the handle d, which names the same entry. */
  lemma SlashedHandleAgrees(d: string, ns: string)
    requires PlainRoot(d) && ns == ""
    ensures HandleAgrees(d + [Separator] + ns)
  {
    var root := d + [Separator] + ns;
    assert root == d + [Separator];
    assert root[..|d|] == d;
    assert NewDirectory(root).path == d;
    ResolveAppend(d, ns);
    assert Resolve(ns) == [] by { SplitName(ns); }
  }

  /** A name below the root and the same name below the root handle are the same entry. */
  lemma StatBelowHandle(nodes: Nodes, root: string, y: string)
    requires HandleAgrees(root)
    ensures Stat(nodes, NewDirectory(root).path + [Separator] + y) == Stat(nodes, root + [Separator] + y)
  {
    var h := NewDirectory(root).path;
    ResolveAppend(h, y);
    ResolveAppend(root, y);
    LastPieceAppend(h, y);
    LastPieceAppend(root, y);
  }

  /** keys() lists every stored key whose file name is storable. */
  lemma KeysComplete(kv: Store, nodes: Nodes, key: string)
    requires WellFormed(nodes) && HandleAgrees(kv.storage.path)
    requires Separator !in kv.serializer.extension
    requires StorableName(key + "." + kv.serializer.extension)
    requires kv.Has(nodes, key) == Ok(true)
    ensures kv.Keys(nodes).Ok? && key in kv.Keys(nodes).value
  {
    var ext := kv.serializer.extension;
    var keep := WithExtension(ext);
    var name := key + "." + ext;
    var rel := Split(name);
    var root := kv.storage.path;
    var dir := Resolve(root);
    var p := dir + rel;
    var d := kv.storage.Directory();
    NameBelowRoot(root, name);
    assert p in nodes && nodes[p].File?;
    if dir != [] {
      AncestorIsDir(nodes, p, |dir|);
      assert p[..|dir|] == dir;
    }
    assert d.Exists(nodes) == Ok(true);
    KeyFileNameKept(key, ext);
    assert p[|p| - 1] == LastPiece(name);
    assert keep(p[|p| - 1]);
    assert p[|dir|..] == rel;
    assert KeptFileBelow(nodes, dir, keep, p);
    ListIsKeptFiles(d, nodes, keep);
    assert name in d.List(nodes, keep).value;
    assert DropLast(name, |ext| + 1) == key;
  }

  /** The last name of a key's file passes the keys() filter, and dropping the extension gives the key back. */
  lemma KeyFileNameKept(key: string, ext: string)
    requires Separator !in ext
    ensures WithExtension(ext)(LastPiece(key + "." + ext))
    ensures DropLast(key + "." + ext, |ext| + 1) == key
  {
    var dotted := "." + ext;
    assert Separator !in dotted;
    assert key + "." + ext == key + dotted;
    LastPieceSuffix(key, dotted);
    var l := LastPiece(key) + dotted;
    assert l[|l| - |ext|..] == ext;
  }

  /** Every listed file whose name ends with the extension yields a key, and the file is there. */
  lemma KeysSound(kv: Store, nodes: Nodes, y: string)
    requires WellFormed(nodes) && HandleAgrees(kv.storage.path)
    requires kv.storage.List(nodes, WithExtension(kv.serializer.extension)).Ok?
    requires y in kv.storage.List(nodes, WithExtension(kv.serializer.extension)).value
    ensures var ext := kv.serializer.extension;
      && DropLast(y, |ext| + 1) in kv.Keys(nodes).value
      && Stat(nodes, kv.storage.path + [Separator] + y).IsFile?
      && EndsWith(LastPiece(y), ext)
  {
    var ext := kv.serializer.extension;
    var names := kv.storage.List(nodes, WithExtension(ext)).value;
    assert kv.Keys(nodes) == Ok(set n | n in names :: DropLast(n, |ext| + 1));
    ListedPathsAreFiles(kv.storage.Directory(), nodes, WithExtension(ext), y);
    StatBelowHandle(nodes, kv.storage.path, y);
  }

  /** Dropping |ext| + 1 characters and appending '.' and ext restores a name exactly when it ends with '.' and ext. */
  lemma StripExtension(pre: string, y: string, ext: string)
    ensures var key := DropLast(y, |ext| + 1);
      pre + (key + "." + ext) == pre + y <==> EndsWith(y, "." + ext)
  {
    var key := DropLast(y, |ext| + 1);
    var dotted := "." + ext;
    assert key + "." + ext == key + dotted;
    SuffixRestores(y, dotted);
    PrefixCancels(pre, key + dotted, y);
  }

  /** Dropping as many characters as a suffix has and appending it restores a string exactly when it ends with it. */
  lemma SuffixRestores(y: string, t: string)
    ensures EndsWith(y, t) <==> DropLast(y, |t|) + t == y
  {
    var k := DropLast(y, |t|);
    if EndsWith(y, t) {
      assert y == y[..|y| - |t|] + y[|y| - |t|..];
    }
    if k + t == y {
      assert y[|y| - |t|..] == t;
    }
  }

  /** A common prefix cancels. */
  lemma PrefixCancels(pre: string, a: string, b: string)
    ensures pre + a == pre + b <==> a == b
  {
    if pre + a == pre + b {
      assert (pre + a)[|pre|..] == a;
      assert (pre + b)[|pre|..] == b;
    }
  }

  /**
   * The key keys() derives from a listed name designates that very file
   * exactly when the name ends with '.' and the extension: the filter does
   * not ask for the dot that is stripped, so 'notesjson' yields the key 'note'.
   */
  lemma KeyOfListedName(kv: Store, nodes: Nodes, y: string)
    requires WellFormed(nodes) && HandleAgrees(kv.storage.path)
    requires kv.storage.List(nodes, WithExtension(kv.serializer.extension)).Ok?
    requires y in kv.storage.List(nodes, WithExtension(kv.serializer.extension)).value
    ensures var ext := kv.serializer.extension;
      var key := DropLast(y, |ext| + 1);
      && (kv.FileForKey(key).path == kv.storage.path + [Separator] + y <==> EndsWith(y, "." + ext))
      && (EndsWith(y, "." + ext) ==> kv.Has(nodes, key) == Ok(true))
  {
    KeysSound(kv, nodes, y);
    StripExtension(kv.storage.path + [Separator], y, kv.serializer.extension);
  }

  /** Removing an entry already inside a removed tree makes no difference. */
  lemma RemoveTreeAbsorbs(nodes: Nodes, dir: seq<string>, p: seq<string>)
    requires IsPrefix(dir, p)
    ensures RemoveTree(nodes - {p}, dir) == RemoveTree(nodes, dir)
  {
    assert forall q :: q in RemoveTree(nodes - {p}, dir) <==> q in RemoveTree(nodes, dir);
  }

  /**
   * Deleting the only key of a store, the key's file sitting directly in the
   * root, removes the root directory too (files safe to ignore, such as
   * '.DS_Store', do not keep it): clearParents examines 'root/', which is the
   * root itself.
   */
  lemma FlatDeletePrunesRoot(kv: Store, nodes: Nodes, key: string)
    requires WellFormed(nodes) && PlainRoot(kv.storage.path)
    requires Resolve(kv.storage.path) != [] && LastPiece(kv.storage.path) != "."
    requires Storable(key + "." + kv.serializer.extension)
    requires kv.Has(nodes, key) == Ok(true)
    requires forall q | KeptFileBelow(nodes, Resolve(kv.storage.path), NotIgnored, q) ::
      q == Resolve(kv.storage.path) + [key + "." + kv.serializer.extension]
    ensures kv.AfterDelete(nodes, key) == Effect(Pass, RemoveTree(nodes, Resolve(kv.storage.path)))
    ensures kv.storage.Directory().Exists(kv.AfterDelete(nodes, key).nodes) == Ok(false)
  {
    var dir := Resolve(kv.storage.path);
    var p := dir + [key + "." + kv.serializer.extension];
    FlatDeleteSteps(kv, nodes, key);
    DeleteInSteps(kv, nodes, key, nodes - {p}, Walk(Ok(true), RemoveTree(nodes, dir)));
  }

  /** The two steps of that delete: the file is removed, then clearing its parents removes the root. */
  lemma FlatDeleteSteps(kv: Store, nodes: Nodes, key: string)
    requires WellFormed(nodes) && PlainRoot(kv.storage.path)
    requires Resolve(kv.storage.path) != [] && LastPiece(kv.storage.path) != "."
    requires Storable(key + "." + kv.serializer.extension)
    requires kv.Has(nodes, key) == Ok(true)
    requires forall q | KeptFileBelow(nodes, Resolve(kv.storage.path), NotIgnored, q) ::
      q == Resolve(kv.storage.path) + [key + "." + kv.serializer.extension]
    ensures var dir := Resolve(kv.storage.path);
      var p := dir + [key + "." + kv.serializer.extension];
      && kv.FileForKey(key).AfterDelete(nodes) == Effect(Pass, nodes - {p})
      && kv.storage.AfterClearParents(nodes - {p}, kv.FileForKey(key)) == Walk(Ok(true), RemoveTree(nodes, dir))
      && kv.storage.Directory().Exists(RemoveTree(nodes, dir)) == Ok(false)
  {
    var dir := Resolve(kv.storage.path);
    var p := dir + [key + "." + kv.serializer.extension];
    FlatKeyFile(kv, nodes, key);
    FlatRootEmptied(kv, nodes, key);
    FlatRootCleared(kv, nodes - {p}, key);
    OneBelowPrefix(dir, key + "." + kv.serializer.extension);
    RemoveTreeAbsorbs(nodes, dir, p);
  }

  /** With the key's file gone and the root listing nothing, clearing the parents removes the root. */
  lemma FlatRootCleared(kv: Store, rest: Nodes, key: string)
    requires WellFormed(rest) && PlainRoot(kv.storage.path)
    requires Resolve(kv.storage.path) != [] && LastPiece(kv.storage.path) != "."
    requires Storable(key + "." + kv.serializer.extension)
    requires kv.FileForKey(key).Exists(rest) == Ok(false)
    requires kv.storage.Directory().Exists(rest) == Ok(true) && kv.storage.List(rest, NotIgnored) == Ok({})
    ensures var dir := Resolve(kv.storage.path);
      && kv.storage.AfterClearParents(rest, kv.FileForKey(key)) == Walk(Ok(true), RemoveTree(rest, dir))
      && kv.storage.Directory().Exists(RemoveTree(rest, dir)) == Ok(false)
  {
    FlatFileClearsRoot(kv.storage, rest, key + "." + kv.serializer.extension, kv.serializer);
  }

  /** delete(key) succeeds with what clearing the parents leaves, once deleting the file has succeeded. */
  lemma DeleteInSteps(kv: Store, nodes: Nodes, key: string, rest: Nodes, w: Walk)
    requires kv.FileForKey(key).AfterDelete(nodes) == Effect(Pass, rest)
    requires kv.storage.AfterClearParents(rest, kv.FileForKey(key)) == w && w.result.Ok?
    ensures kv.AfterDelete(nodes, key) == Effect(Pass, w.nodes)
  {
  }

  /** The file of a key without '/' is the entry root/key.<ext>, and deleting it removes just that entry. */
  lemma FlatKeyFile(kv: Store, nodes: Nodes, key: string)
    requires WellFormed(nodes)
    requires Storable(key + "." + kv.serializer.extension)
    requires kv.Has(nodes, key) == Ok(true)
    ensures var p := Resolve(kv.storage.path) + [key + "." + kv.serializer.extension];
      && Resolve(kv.FileForKey(key).path) == p
      && p in nodes && nodes[p].File?
      && kv.FileForKey(key).AfterDelete(nodes) == Effect(Pass, nodes - {p})
      && WellFormed(nodes - {p})
      && kv.FileForKey(key).Exists(nodes - {p}) == Ok(false)
  {
    var name := key + "." + kv.serializer.extension;
    ResolveName(name);
    ResolveAppend(kv.storage.path, name);
    DeleteRemovesFile(kv.FileForKey(key), nodes);
  }

  /** Once the only kept file is removed from a flat store, the root is still there and lists nothing. */
  lemma FlatRootEmptied(kv: Store, nodes: Nodes, key: string)
    requires WellFormed(nodes) && PlainRoot(kv.storage.path)
    requires Resolve(kv.storage.path) != []
    requires Storable(key + "." + kv.serializer.extension)
    requires kv.Has(nodes, key) == Ok(true)
    requires forall q | KeptFileBelow(nodes, Resolve(kv.storage.path), NotIgnored, q) ::
      q == Resolve(kv.storage.path) + [key + "." + kv.serializer.extension]
    ensures var rest := nodes - {Resolve(kv.storage.path) + [key + "." + kv.serializer.extension]};
      && kv.storage.Directory().Exists(rest) == Ok(true)
      && kv.storage.List(rest, NotIgnored) == Ok({})
  {
    var dir := Resolve(kv.storage.path);
    var p := dir + [key + "." + kv.serializer.extension];
    FlatKeyFile(kv, nodes, key);
    OneBelowPrefix(dir, key + "." + kv.serializer.extension);
    AncestorIsDir(nodes, p, |dir|);
    OnlyKeptFileRemoved(nodes, dir, NotIgnored, p);
    PlainRootDirectory(kv.storage);
    DirectoryExistsMeaning(kv.storage.Directory(), nodes - {p});
    ListEmptyIff(kv.storage.Directory(), nodes - {p}, NotIgnored);
  }

  /** The file of key 'sub/leaf' is the entry root/sub/leaf.<ext>, and clearing its parents walks [sub]. */
  lemma NestedKeyFile(kv: Store, nodes: Nodes, sub: string, leaf: string)
    requires WellFormed(nodes) && PlainRoot(kv.storage.path)
    requires Storable(sub) && Storable(leaf + "." + kv.serializer.extension)
    requires kv.Has(nodes, sub + [Separator] + leaf) == Ok(true)
    ensures var f := kv.FileForKey(sub + [Separator] + leaf);
      var p := Resolve(kv.storage.path) + [sub, leaf + "." + kv.serializer.extension];
      && Resolve(f.path) == p
      && f.AfterDelete(nodes) == Effect(Pass, nodes - {p})
      && WellFormed(nodes - {p})
      && kv.storage.AfterClearParents(nodes - {p}, f) == ClearWalk(nodes - {p}, kv.storage.path, [sub])
  {
    var p := Resolve(kv.storage.path) + [sub, leaf + "." + kv.serializer.extension];
    NestedKeyPath(kv, sub, leaf);
    DeletePresentFile(kv.FileForKey(sub + [Separator] + leaf), nodes);
    NestedKeyWalk(kv, nodes - {p}, sub, leaf);
  }

  /** Once the file of key 'sub/leaf' is gone, clearing its parents walks the single level [sub]. */
  lemma NestedKeyWalk(kv: Store, nodes: Nodes, sub: string, leaf: string)
    requires PlainRoot(kv.storage.path)
    requires Storable(sub) && Storable(leaf + "." + kv.serializer.extension)
    requires kv.FileForKey(sub + [Separator] + leaf).Exists(nodes) == Ok(false)
    ensures var f := kv.FileForKey(sub + [Separator] + leaf);
      kv.storage.AfterClearParents(nodes, f) == ClearWalk(nodes, kv.storage.path, [sub])
  {
    NestedKeyPath(kv, sub, leaf);
    ClearParentsWalksDirs(kv.storage, nodes, [sub], leaf + "." + kv.serializer.extension, kv.serializer);
  }

  /** The file of key 'sub/leaf' is the storage's file 'sub/leaf.<ext>', which resolves to root/sub/leaf.<ext>. */
  lemma NestedKeyPath(kv: Store, sub: string, leaf: string)
    requires PlainRoot(kv.storage.path)
    requires Storable(sub) && Storable(leaf + "." + kv.serializer.extension)
    ensures var name := leaf + "." + kv.serializer.extension;
      && kv.FileForKey(sub + [Separator] + leaf) == kv.storage.File(Join([sub] + [name]), kv.serializer)
      && Resolve(kv.FileForKey(sub + [Separator] + leaf).path) == Resolve(kv.storage.path) + [sub, name]
  {
    var ext := kv.serializer.extension;
    var key := sub + [Separator] + leaf;
    var name := leaf + "." + ext;
    var f := kv.FileForKey(key);
    var root := kv.storage.path;
    assert Join([sub] + [name]) == key + "." + ext;
    assert f == kv.storage.File(Join([sub] + [name]), kv.serializer);
    LevelResolves(root, [sub, name]);
    assert Level(root, [sub, name]).path == f.path;
  }

  /** The walk over [sub] on a well-formed tree where 'root/sub' is an effectively empty directory deletes it and answers true. */
  lemma PruneOneLevel(nodes: Nodes, root: string, sub: string)
    requires WellFormed(nodes) && Storable(sub)
    requires Resolve(root) + [sub] in nodes && nodes[Resolve(root) + [sub]].Dir?
    requires ListRel(nodes, Resolve(root) + [sub], NotIgnored) == {}
    ensures ClearWalk(nodes, root, [sub]) == Walk(Ok(true), RemoveTree(nodes, Resolve(root) + [sub]))
  {
    var d := Level(root, [sub]);
    LevelResolves(root, [sub]);
    assert d.Exists(nodes) == Ok(true);
    ListEmptyIff(d, nodes, NotIgnored);
    assert d.AfterDelete(nodes) == Effect(Pass, RemoveTree(nodes, Resolve(root) + [sub]));
    ClearWalkStep(nodes, root, [sub]);
  }

  /**
   * Deleting the last key of a sub-namespace 'sub/leaf' removes the
   * directory 'root/sub' with everything in it (files safe to ignore do not
   * keep it) and changes nothing outside it.
   */
  lemma NestedDeleteEffect(kv: Store, nodes: Nodes, sub: string, leaf: string)
    requires WellFormed(nodes) && PlainRoot(kv.storage.path)
    requires Storable(sub) && Storable(leaf + "." + kv.serializer.extension)
    requires kv.Has(nodes, sub + [Separator] + leaf) == Ok(true)
    requires forall q | KeptFileBelow(nodes, Resolve(kv.storage.path) + [sub], NotIgnored, q) ::
      q == Resolve(kv.storage.path) + [sub, leaf + "." + kv.serializer.extension]
    ensures kv.AfterDelete(nodes, sub + [Separator] + leaf) == Effect(Pass, RemoveTree(nodes, Resolve(kv.storage.path) + [sub]))
  {
    var root := kv.storage.path;
    var subdir := Resolve(root) + [sub];
    var p := Resolve(root) + [sub, leaf + "." + kv.serializer.extension];
    NestedKeyFile(kv, nodes, sub, leaf);
    SubdirEmptied(kv, nodes, sub, leaf);
    PruneOneLevel(nodes - {p}, root, sub);
    RemoveTreeAbsorbs(nodes, subdir, p);
    DeleteInSteps(kv, nodes, sub + [Separator] + leaf, nodes - {p}, Walk(Ok(true), RemoveTree(nodes, subdir)));
  }

  /** Once the only kept file below 'root/sub' is removed, 'root/sub' is still a directory and lists nothing. */
  lemma SubdirEmptied(kv: Store, nodes: Nodes, sub: string, leaf: string)
    requires WellFormed(nodes) && PlainRoot(kv.storage.path)
    requires Storable(sub) && Storable(leaf + "." + kv.serializer.extension)
    requires kv.Has(nodes, sub + [Separator] + leaf) == Ok(true)
    requires forall q | KeptFileBelow(nodes, Resolve(kv.storage.path) + [sub], NotIgnored, q) ::
      q == Resolve(kv.storage.path) + [sub, leaf + "." + kv.serializer.extension]
    ensures var subdir := Resolve(kv.storage.path) + [sub];
      var rest := nodes - {Resolve(kv.storage.path) + [sub, leaf + "." + kv.serializer.extension]};
      && Resolve(kv.storage.path) + [sub, leaf + "." + kv.serializer.extension] in nodes
      && subdir in rest && rest[subdir].Dir?
      && ListRel(rest, subdir, NotIgnored) == {}
  {
    var subdir := Resolve(kv.storage.path) + [sub];
    var p := Resolve(kv.storage.path) + [sub, leaf + "." + kv.serializer.extension];
    NestedKeyPath(kv, sub, leaf);
    AncestorIsDir(nodes, p, |subdir|);
    assert p[..|subdir|] == subdir;
    OnlyKeptFileRemoved(nodes, subdir, NotIgnored, p);
  }

  /** With 'root/sub' removed, 'root/sub' is missing. */
  lemma SubdirGone(nodes: Nodes, root: string, sub: string)
    requires Storable(sub)
    ensures NewDirectory(root + [Separator] + sub).Exists(RemoveTree(nodes, Resolve(root) + [sub])) == Ok(false)
  {
    LevelResolves(root, [sub]);
    assert Level(root, [sub]) == NewDirectory(root + [Separator] + sub);
  }

  /** With 'root/sub' removed from a tree holding an entry p below it, the root is still a directory. */
  lemma RootKept(nodes: Nodes, root: string, sub: string, p: seq<string>)
    requires WellFormed(nodes) && PlainRoot(root)
    requires p in nodes && |p| > |Resolve(root)| + 1 && p[..|Resolve(root)| + 1] == Resolve(root) + [sub]
    ensures NewDirectory(root).Exists(RemoveTree(nodes, Resolve(root) + [sub])) == Ok(true)
  {
    var dir := Resolve(root);
    if dir != [] {
      PrefixDropLast(p, dir, sub);
      AncestorIsDir(nodes, p, |dir|);
    }
  }

  /** After that delete, 'root/sub' is gone and the root itself is still there. */
  lemma NestedDeletePrunesDir(kv: Store, nodes: Nodes, sub: string, leaf: string)
    requires WellFormed(nodes) && PlainRoot(kv.storage.path)
    requires Storable(sub) && Storable(leaf + "." + kv.serializer.extension)
    requires kv.Has(nodes, sub + [Separator] + leaf) == Ok(true)
    requires forall q | KeptFileBelow(nodes, Resolve(kv.storage.path) + [sub], NotIgnored, q) ::
      q == Resolve(kv.storage.path) + [sub, leaf + "." + kv.serializer.extension]
    ensures var after := kv.AfterDelete(nodes, sub + [Separator] + leaf).nodes;
      && NewDirectory(kv.storage.path + [Separator] + sub).Exists(after) == Ok(false)
      && kv.storage.Directory().Exists(after) == Ok(true)
  {
    var dir := Resolve(kv.storage.path);
    var p := dir + [sub, leaf + "." + kv.serializer.extension];
    NestedDeleteEffect(kv, nodes, sub, leaf);
    SubdirEmptied(kv, nodes, sub, leaf);
    TwoBelowPrefix(dir, sub, leaf + "." + kv.serializer.extension);
    SubdirGone(nodes, kv.storage.path, sub);
    RootKept(nodes, kv.storage.path, sub, p);
  }

  /** The root of the empty namespace ends in a separator, and the parent of a file in it falls short of that root. */
  lemma EmptyNamespaceParent(d: string, name: string)
    requires d != "" && d[|d| - 1] !in SlashChars
    requires name != "" && Separator !in name
    ensures RootPath(d, "") == d + [Separator]
    ensures Dirname(RootPath(d, "") + [Separator] + name) == d
  {
    assert Trim("", SlashChars) == "";
    assert RootPath(d, "") + [Separator] + name == d + [Separator, Separator] + name;
    DirnameDoubleSeparator(d, name);
  }

  /**
   * An empty namespace gives the root 'dir/'; a key's file is then
   * 'dir//<key>.<ext>', whose dirname 'dir' does not start with 'dir/'. So
   * delete(key) removes the file and then reports it as outside the storage.
   */
  lemma EmptyNamespaceDeleteFails(kv: Store, nodes: Nodes, d: string, key: string)
    requires WellFormed(nodes)
    requires d != "" && d[|d| - 1] !in SlashChars
    requires kv.storage == Storage(RootPath(d, ""))
    requires Storable(key + "." + kv.serializer.extension)
    requires kv.Has(nodes, key).Ok?
    ensures kv.AfterDelete(nodes, key).outcome == Fail(NotInStorage(d, d + [Separator]))
    ensures kv.Has(kv.AfterDelete(nodes, key).nodes, key) == Ok(false)
  {
    EmptyNamespaceParent(d, key + "." + kv.serializer.extension);
    DeleteRemovesFile(kv.FileForKey(key), nodes);
  }
}
