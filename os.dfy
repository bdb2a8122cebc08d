/**
 * The operating system's filesystem, abstracted to a map from resolved paths
 * (sequences of entry names) to nodes. The working directory is the empty
 * path: it is always a directory and is never itself an entry of the map.
 */
module Os {
  import opened Paths
  import opened Errors

  datatype Node = Dir | File(content: string)

  type Nodes = map<seq<string>, Node>

  /**
   * A name the model stores. Besides being a valid name under '/', it is not
   * '..' (parent links are not modelled) and does not end with a backslash (the
   * rtrim('/\\') of the directory handles would cut such a name).
   */
  predicate Storable(n: string)
  {
    ValidName(n) && n != ".." && n[|n| - 1] != '\\'
  }

  predicate StorablePath(p: seq<string>)
  {
    forall i | 0 <= i < |p| :: Storable(p[i])
  }

  function Parent(p: seq<string>): seq<string>
    requires p != []
  {
    p[..|p| - 1]
  }

  /** Every entry has a storable, non-empty path, and its parent is a directory. */
  ghost predicate WellFormed(nodes: Nodes)
  {
    forall p | p in nodes ::
      p != [] && StorablePath(p) && (|p| > 1 ==> Parent(p) in nodes && nodes[Parent(p)].Dir?)
  }

  /** What stat() finds at a path string. */
  datatype Kind = Absent | IsDir | IsFile(content: string)

  /** A path ending in '/' or '/.' can only name a directory. */
  predicate NamesDirectory(path: string)
  {
    LastPiece(path) == "" || LastPiece(path) == "."
  }

  /**
   * file_exists / is_dir / is_file: the empty string names nothing, a path that
   * resolves to no name is the working directory, and a regular file is not
   * found through a path that can only name a directory.
   */
  function Stat(nodes: Nodes, path: string): Kind
  {
    if path == "" then Absent
    else
      var p := Resolve(path);
      if p == [] then IsDir
      else if p !in nodes then Absent
      else match nodes[p]
        case Dir => IsDir
        case File(c) => if NamesDirectory(path) then Absent else IsFile(c)
  }

  /** What a filesystem operation reports, and the filesystem it leaves. */
  datatype Effect = Effect(outcome: Outcome, nodes: Nodes)

  predicate IsPrefix(a: seq<string>, b: seq<string>)
  {
    |a| <= |b| && b[..|a|] == a
  }

  /** Entries strictly below `dir`. */
  function Under(nodes: Nodes, dir: seq<string>): set<seq<string>>
  {
    set q | q in nodes && |dir| < |q| && q[..|dir|] == dir
  }

  /** Entries directly inside `dir`. */
  function Children(nodes: Nodes, dir: seq<string>): set<seq<string>>
  {
    set q | q in nodes && |q| == |dir| + 1 && q[..|dir|] == dir
  }

  /** scandir without '.' and '..': the names directly inside `dir`. */
  function ChildNames(nodes: Nodes, dir: seq<string>): set<string>
  {
    set q | q in Children(nodes, dir) :: q[|dir|]
  }

  /**
   * The recursive listing of Directory::list over the tree: files directly in
   * `dir` whose bare name passes `keep`, and the listings of its
   * subdirectories prefixed with the subdirectory's name. Relative paths are
   * sequences of names; directories are traversed, never listed.
   */
  function ListRel(nodes: Nodes, dir: seq<string>, keep: string -> bool): set<seq<string>>
    decreases |Under(nodes, dir)|
  {
    ChildrenShrink(nodes, dir);
    (set q | q in Children(nodes, dir) && nodes[q].File? && keep(q[|dir|]) :: [q[|dir|]])
    + (set q, r | q in Children(nodes, dir) && nodes[q].Dir? && r in ListRel(nodes, q, keep) :: [q[|dir|]] + r)
  }

  /** p is a regular file strictly below `dir` whose own name passes `keep`. */
  ghost predicate KeptFileBelow(nodes: Nodes, dir: seq<string>, keep: string -> bool, p: seq<string>)
  {
    p in nodes && |dir| < |p| && p[..|dir|] == dir && nodes[p].File? && keep(p[|p| - 1])
  }

  /** A kept file below `dir` is `dir` followed by a non-empty sequence of storable names, the last one kept. */
  lemma KeptFileTail(nodes: Nodes, dir: seq<string>, keep: string -> bool, p: seq<string>)
    requires WellFormed(nodes) && KeptFileBelow(nodes, dir, keep, p)
    ensures var r := p[|dir|..];
      && p == dir + r && |r| >= 1 && keep(r[|r| - 1])
      && forall i | 0 <= i < |r| :: Storable(r[i])
  {
    var r := p[|dir|..];
    assert p == dir + r;
    assert forall i | 0 <= i < |r| :: r[i] == p[|dir| + i];
  }

  /** The files strictly below `dir` whose own name passes `keep`, relative to `dir`. */
  ghost function FilesBelow(nodes: Nodes, dir: seq<string>, keep: string -> bool): set<seq<string>>
  {
    set p | p in nodes && KeptFileBelow(nodes, dir, keep, p) :: p[|dir|..]
  }

  /** Everything strictly below `dir` removed; `dir` itself stays. */
  function ClearBelow(nodes: Nodes, dir: seq<string>): Nodes
  {
    map q | q in nodes && !(|dir| < |q| && q[..|dir|] == dir) :: nodes[q]
  }

  /** rm -r: `dir` and everything below it removed. */
  function RemoveTree(nodes: Nodes, dir: seq<string>): Nodes
  {
    map q | q in nodes && !IsPrefix(dir, q) :: nodes[q]
  }

  /** The entries below `dir` whose first name after `dir` is in `done`, removed. */
  function RemoveChildren(nodes: Nodes, dir: seq<string>, done: set<string>): Nodes
  {
    map q | q in nodes && !(|dir| < |q| && q[..|dir|] == dir && q[|dir|] in done) :: nodes[q]
  }

  /** Every non-empty prefix of p. */
  function Prefixes(p: seq<string>): set<seq<string>>
  {
    set k | 1 <= k <= |p| :: p[..k]
  }

  /** Some prefix of p (p included) is a regular file. */
  predicate FileOnPath(nodes: Nodes, p: seq<string>)
  {
    exists k | 1 <= k <= |p| :: p[..k] in nodes && nodes[p[..k]].File?
  }

  /** mkdir -p: p and every missing ancestor become directories. */
  function MkdirAll(nodes: Nodes, p: seq<string>): Nodes
  {
    nodes + map q | q in Prefixes(p) :: Dir
  }

  /** When mkdir(path, 0777, true) succeeds: a new, storable path with no file on the way. */
  predicate MkdirOk(nodes: Nodes, path: string)
  {
    path != "" && var p := Resolve(path);
    p != [] && p !in nodes && StorablePath(p) && !FileOnPath(nodes, p)
  }

  /**
   * When fopen(path, 'w') succeeds: the path ends in a name, that name is not a
   * directory, and its parent directory exists.
   */
  predicate PutOk(nodes: Nodes, path: string)
  {
    var p := Resolve(path);
    ValidName(LastPiece(path)) && p != [] && StorablePath(p)
    && (p !in nodes || nodes[p].File?)
    && (|p| == 1 || (Parent(p) in nodes && nodes[Parent(p)].Dir?))
  }

  /** A path that could be written can be written again once it holds a file. */
  lemma PutOkAgain(nodes: Nodes, path: string, content: string)
    requires PutOk(nodes, path)
    ensures PutOk(nodes[Resolve(path) := File(content)], path)
  {
    var p := Resolve(path);
    if |p| > 1 {
      assert Parent(p) != p;
    }
  }

  /** When unlink(path) succeeds: the path names a regular file. */
  predicate UnlinkOk(nodes: Nodes, path: string)
  {
    Stat(nodes, path).IsFile?
  }

  /** When rmdir(path) succeeds: an empty directory, named otherwise than by '.' or ''. */
  predicate RmdirOk(nodes: Nodes, path: string)
  {
    path != "" && LastPiece(path) != "." && var p := Resolve(path);
    p != [] && p in nodes && nodes[p].Dir? && Children(nodes, p) == {}
  }

  /** The operating system's filesystem: the one piece of state the library changes. */
  class FileSystem {
    var nodes: Nodes

    ghost predicate Valid()
      reads this
    {
      WellFormed(nodes)
    }

    constructor ()
      ensures Valid() && nodes == map[]
    {
      nodes := map[];
    }

    /** mkdir(path, 0777, true). */
    method Mkdir(path: string) returns (ok: bool)
      modifies this
      requires Valid()
      ensures Valid()
      ensures ok == MkdirOk(old(nodes), path)
      ensures nodes == if ok then MkdirAll(old(nodes), Resolve(path)) else old(nodes)
    {
      ok := MkdirOk(nodes, path);
      if ok {
        MkdirAllWellFormed(nodes, Resolve(path));
        nodes := MkdirAll(nodes, Resolve(path));
      }
    }

    /** fopen(path, 'w') then fwrite(content): the file created or truncated, then written. */
    method Put(path: string, content: string) returns (ok: bool)
      modifies this
      requires Valid()
      ensures Valid()
      ensures ok == PutOk(old(nodes), path)
      ensures nodes == if ok then old(nodes)[Resolve(path) := File(content)] else old(nodes)
    {
      ok := PutOk(nodes, path);
      if ok {
        PutWellFormed(nodes, Resolve(path), content);
        nodes := nodes[Resolve(path) := File(content)];
      }
    }

    /** unlink(path). */
    method Unlink(path: string) returns (ok: bool)
      modifies this
      requires Valid()
      ensures Valid()
      ensures ok == UnlinkOk(old(nodes), path)
      ensures nodes == if ok then old(nodes) - {Resolve(path)} else old(nodes)
    {
      ok := UnlinkOk(nodes, path);
      if ok {
        NothingBelowFile(nodes, Resolve(path));
        RemoveLeafWellFormed(nodes, Resolve(path));
        nodes := nodes - {Resolve(path)};
      }
    }

    /** rmdir(path). */
    method Rmdir(path: string) returns (ok: bool)
      modifies this
      requires Valid()
      ensures Valid()
      ensures ok == RmdirOk(old(nodes), path)
      ensures nodes == if ok then old(nodes) - {Resolve(path)} else old(nodes)
    {
      ok := RmdirOk(nodes, path);
      if ok {
        NoChildrenNothingBelow(nodes, Resolve(path));
        RemoveLeafWellFormed(nodes, Resolve(path));
        nodes := nodes - {Resolve(path)};
      }
    }
  }

  // ---------------------------------------------------------------------
  // Lemmas
  // ---------------------------------------------------------------------

  lemma CardLess<T>(a: set<T>, b: set<T>, x: T)
    requires a <= b && x in b && x !in a
    ensures |a| < |b|
  {
    assert b == a + (b - a);
    assert x in b - a;
  }

  lemma ChildShrinks(nodes: Nodes, dir: seq<string>, q: seq<string>)
    requires q in Children(nodes, dir)
    ensures |Under(nodes, q)| < |Under(nodes, dir)|
  {
    forall x | x in Under(nodes, q) ensures x in Under(nodes, dir) {
      assert x[..|dir|] == x[..|q|][..|dir|];
    }
    CardLess(Under(nodes, q), Under(nodes, dir), q);
  }

  lemma ChildrenShrink(nodes: Nodes, dir: seq<string>)
    ensures forall q | q in Children(nodes, dir) :: |Under(nodes, q)| < |Under(nodes, dir)|
  {
    forall q | q in Children(nodes, dir) ensures |Under(nodes, q)| < |Under(nodes, dir)| {
      ChildShrinks(nodes, dir, q);
    }
  }

  /** Every proper ancestor of an entry is a directory entry. */
  lemma {:induction false} AncestorIsDir(nodes: Nodes, p: seq<string>, k: nat)
    requires WellFormed(nodes)
    requires p in nodes && 1 <= k < |p|
    ensures p[..k] in nodes && nodes[p[..k]].Dir?
    decreases |p| - k
  {
    var up := Parent(p);
    if k < |up| {
      AncestorIsDir(nodes, up, k);
      assert up[..k] == p[..k];
    }
  }

  /** Every entry below `p` passes through a child of `p`. */
  lemma ChildOnTheWay(nodes: Nodes, p: seq<string>, q: seq<string>)
    requires WellFormed(nodes)
    requires q in Under(nodes, p)
    ensures q[..|p| + 1] in Children(nodes, p)
  {
    if |q| > |p| + 1 {
      AncestorIsDir(nodes, q, |p| + 1);
    } else {
      assert q[..|p| + 1] == q;
    }
    assert q[..|p| + 1][..|p|] == p;
  }

  /** A directory without children has nothing below it. */
  lemma NoChildrenNothingBelow(nodes: Nodes, p: seq<string>)
    requires WellFormed(nodes)
    requires Children(nodes, p) == {}
    ensures Under(nodes, p) == {}
  {
    forall q | q in Under(nodes, p) ensures q[..|p| + 1] in Children(nodes, p) {
      ChildOnTheWay(nodes, p, q);
    }
  }

  /** Nothing lies below a regular file. */
  lemma NothingBelowFile(nodes: Nodes, f: seq<string>)
    requires WellFormed(nodes)
    requires f in nodes && nodes[f].File?
    ensures Under(nodes, f) == {}
  {
    assert Children(nodes, f) == {};
    NoChildrenNothingBelow(nodes, f);
  }

  /** Every listed path is a kept file below the directory. */
  lemma {:induction false} ListRelSound(nodes: Nodes, dir: seq<string>, keep: string -> bool, x: seq<string>)
    requires x in ListRel(nodes, dir, keep)
    ensures exists p :: KeptFileBelow(nodes, dir, keep, p) && x == p[|dir|..]
    decreases |Under(nodes, dir)|
  {
    if q :| q in Children(nodes, dir) && nodes[q].File? && keep(q[|dir|]) && x == [q[|dir|]] {
      assert KeptFileBelow(nodes, dir, keep, q) && x == q[|dir|..];
    } else {
      var q, r :| q in Children(nodes, dir) && nodes[q].Dir? && r in ListRel(nodes, q, keep) && x == [q[|dir|]] + r;
      ChildShrinks(nodes, dir, q);
      ListRelSound(nodes, q, keep, r);
      var p :| KeptFileBelow(nodes, q, keep, p) && r == p[|q|..];
      KeptFileLift(nodes, dir, q, keep, p);
    }
  }

  /** A kept file below a child of `dir` is a kept file below `dir`, one name further down. */
  lemma KeptFileLift(nodes: Nodes, dir: seq<string>, q: seq<string>, keep: string -> bool, p: seq<string>)
    requires |q| == |dir| + 1 && q[..|dir|] == dir
    requires KeptFileBelow(nodes, q, keep, p)
    ensures KeptFileBelow(nodes, dir, keep, p) && p[|dir|..] == [q[|dir|]] + p[|q|..]
  {
    assert p[..|dir|] == p[..|q|][..|dir|];
    assert p[|dir|..] == [p[|dir|]] + p[|q|..];
  }

  /** The child of `dir` on the way to an entry two or more levels below it. */
  lemma ChildOnPath(nodes: Nodes, dir: seq<string>, p: seq<string>)
    requires WellFormed(nodes)
    requires p in nodes && |dir| + 1 < |p| && p[..|dir|] == dir
    ensures var q := p[..|dir| + 1];
      && q in Children(nodes, dir) && nodes[q].Dir?
      && |q| < |p| && p[..|q|] == q
      && p[|dir|..] == [q[|dir|]] + p[|q|..]
  {
    var q := p[..|dir| + 1];
    AncestorIsDir(nodes, p, |dir| + 1);
    assert q[..|dir|] == dir;
  }

  /** Every kept file below the directory is listed. */
  lemma {:induction false} ListRelComplete(nodes: Nodes, dir: seq<string>, keep: string -> bool, p: seq<string>)
    requires WellFormed(nodes)
    requires p in nodes && |dir| < |p| && p[..|dir|] == dir && nodes[p].File? && keep(p[|p| - 1])
    ensures p[|dir|..] in ListRel(nodes, dir, keep)
    decreases |Under(nodes, dir)|
  {
    if |p| == |dir| + 1 {
      assert p in Children(nodes, dir);
      assert p[|dir|..] == [p[|dir|]];
    } else {
      var q := p[..|dir| + 1];
      ChildOnPath(nodes, dir, p);
      ChildShrinks(nodes, dir, q);
      ListRelComplete(nodes, q, keep, p);
    }
  }

  /** The recursive listing is exactly the set of kept files below the directory. */
  lemma ListRelIsFilesBelow(nodes: Nodes, dir: seq<string>, keep: string -> bool)
    requires WellFormed(nodes)
    ensures ListRel(nodes, dir, keep) == FilesBelow(nodes, dir, keep)
  {
    forall x | x in ListRel(nodes, dir, keep) ensures x in FilesBelow(nodes, dir, keep) {
      ListRelSound(nodes, dir, keep, x);
      var p :| KeptFileBelow(nodes, dir, keep, p) && x == p[|dir|..];
      assert p in nodes;
    }
    forall x | x in FilesBelow(nodes, dir, keep) ensures x in ListRel(nodes, dir, keep) {
      var p :| p in nodes && KeptFileBelow(nodes, dir, keep, p) && x == p[|dir|..];
      ListRelComplete(nodes, dir, keep, p);
    }
  }

  /** An empty listing means no kept file lies anywhere below the directory. */
  lemma EmptyListingNoKeptFile(nodes: Nodes, dir: seq<string>, keep: string -> bool, p: seq<string>)
    requires WellFormed(nodes)
    requires ListRel(nodes, dir, keep) == {}
    requires p in nodes && IsPrefix(dir, p) && p != dir && nodes[p].File?
    ensures !keep(p[|p| - 1])
  {
    if keep(p[|p| - 1]) {
      ListRelComplete(nodes, dir, keep, p);
    }
  }

  lemma RemoveTreeWellFormed(nodes: Nodes, dir: seq<string>)
    requires WellFormed(nodes)
    ensures WellFormed(RemoveTree(nodes, dir))
  {
    var n := RemoveTree(nodes, dir);
    forall q | q in n && |q| > 1 ensures Parent(q) in n {
    }
  }

  lemma MkdirAllWellFormed(nodes: Nodes, p: seq<string>)
    requires WellFormed(nodes)
    requires p != [] && StorablePath(p) && !FileOnPath(nodes, p)
    ensures WellFormed(MkdirAll(nodes, p))
    ensures forall q | q in Prefixes(p) :: q in MkdirAll(nodes, p) && MkdirAll(nodes, p)[q] == Dir
    ensures forall q | q in nodes :: q in MkdirAll(nodes, p) && MkdirAll(nodes, p)[q] == nodes[q]
  {
    var n := MkdirAll(nodes, p);
    forall q | q in n ensures q != [] && StorablePath(q) && (|q| > 1 ==> Parent(q) in n && n[Parent(q)].Dir?) {
      if q in Prefixes(p) {
        var k :| 1 <= k <= |p| && q == p[..k];
        if |q| > 1 {
          assert Parent(q) == p[..k - 1];
          assert Parent(q) in Prefixes(p);
        }
      }
    }
    forall q | q in nodes ensures q in n && n[q] == nodes[q] {
      if q in Prefixes(p) {
        var k :| 1 <= k <= |p| && q == p[..k];
        assert nodes[p[..k]].Dir?;
      }
    }
  }

  /** A node with nothing below it can be removed. */
  lemma RemoveLeafWellFormed(nodes: Nodes, p: seq<string>)
    requires WellFormed(nodes)
    requires Under(nodes, p) == {}
    ensures WellFormed(nodes - {p})
  {
    var n := nodes - {p};
    forall q | q in n && |q| > 1 ensures Parent(q) in n {
      assert q !in Under(nodes, p);
    }
  }

  /** Where open(path, 'w') succeeds, the path then names a regular file with the content written. */
  lemma PutMakesFile(nodes: Nodes, path: string, content: string)
    requires PutOk(nodes, path)
    ensures path != "" && !NamesDirectory(path)
    ensures Stat(nodes[Resolve(path) := File(content)], path) == IsFile(content)
  {
  }

  /** A missing path that cannot only name a directory has no entry. */
  lemma AbsentHasNoEntry(nodes: Nodes, path: string)
    requires Stat(nodes, path).Absent? && path != "" && Resolve(path) != [] && !NamesDirectory(path)
    ensures Resolve(path) !in nodes
  {
  }

  lemma PutWellFormed(nodes: Nodes, p: seq<string>, content: string)
    requires WellFormed(nodes)
    requires p != [] && StorablePath(p) && (p !in nodes || nodes[p].File?)
    requires |p| == 1 || (Parent(p) in nodes && nodes[Parent(p)].Dir?)
    ensures WellFormed(nodes[p := File(content)])
  {
  }

  /** Removing the subtrees of some children keeps the filesystem well formed. */
  lemma RemoveChildrenWellFormed(nodes: Nodes, dir: seq<string>, done: set<string>)
    requires WellFormed(nodes)
    ensures WellFormed(RemoveChildren(nodes, dir, done))
  {
    var n := RemoveChildren(nodes, dir, done);
    forall q | q in n && |q| > 1 ensures Parent(q) in n {
      var up := Parent(q);
      if |dir| < |up| {
        assert up[..|dir|] == q[..|dir|];
        assert up[|dir|] == q[|dir|];
      }
    }
  }

  /** Fewer entries, fewer entries below any directory. */
  lemma UnderMono(a: Nodes, b: Nodes, dir: seq<string>)
    requires a.Keys <= b.Keys
    ensures Under(a, dir) <= Under(b, dir)
    ensures |Under(a, dir)| <= |Under(b, dir)|
  {
    var ua, ub := Under(a, dir), Under(b, dir);
    assert ub == ua + (ub - ua);
  }

  /** Deleting the subtree of one more child extends the set of cleared children. */
  lemma RemoveSubtreeStep(nodes: Nodes, dir: seq<string>, done: set<string>, name: string)
    ensures RemoveTree(RemoveChildren(nodes, dir, done), dir + [name]) == RemoveChildren(nodes, dir, done + {name})
  {
    var child := dir + [name];
    forall q ensures IsPrefix(child, q) <==> (|dir| < |q| && q[..|dir|] == dir && q[|dir|] == name) {
      if |dir| < |q| && q[..|dir|] == dir && q[|dir|] == name {
        assert q[..|child|] == child;
      }
      if IsPrefix(child, q) {
        assert q[..|dir|] == q[..|child|][..|dir|];
        assert q[|dir|] == q[..|child|][|dir|];
      }
    }
  }

  /** Unlinking a file child extends the set of cleared children. */
  lemma RemoveFileStep(nodes: Nodes, dir: seq<string>, done: set<string>, name: string)
    requires WellFormed(nodes)
    requires dir + [name] in nodes && nodes[dir + [name]].File?
    ensures RemoveChildren(nodes, dir, done) - {dir + [name]} == RemoveChildren(nodes, dir, done + {name})
  {
    FileChildAlone(nodes, dir, name);
  }

  /** A file inside `dir` is the only entry below `dir` reached through its name. */
  lemma FileChildAlone(nodes: Nodes, dir: seq<string>, name: string)
    requires WellFormed(nodes)
    requires dir + [name] in nodes && nodes[dir + [name]].File?
    ensures forall q | q in nodes && |dir| < |q| && q[..|dir|] == dir && q[|dir|] == name :: q == dir + [name]
  {
    var child := dir + [name];
    NothingBelowFile(nodes, child);
    forall q | q in nodes && |dir| < |q| && q[..|dir|] == dir && q[|dir|] == name
      ensures q == child
    {
      assert q[..|child|] == child;
      assert q !in Under(nodes, child);
    }
  }

  /** Once every child is cleared, nothing below the directory remains. */
  lemma AllChildrenRemoved(nodes: Nodes, dir: seq<string>)
    requires WellFormed(nodes)
    ensures RemoveChildren(nodes, dir, ChildNames(nodes, dir)) == ClearBelow(nodes, dir)
  {
    forall q | q in nodes && |dir| < |q| && q[..|dir|] == dir
      ensures q[|dir|] in ChildNames(nodes, dir)
    {
      assert q in Under(nodes, dir);
      ChildOnTheWay(nodes, dir, q);
    }
  }

  /** Clearing below a directory and then removing it is rm -r. */
  lemma ClearBelowThenDir(nodes: Nodes, dir: seq<string>)
    ensures ClearBelow(nodes, dir) - {dir} == RemoveTree(nodes, dir)
  {
    forall q | q in nodes ensures IsPrefix(dir, q) <==> q == dir || (|dir| < |q| && q[..|dir|] == dir) {
      if |q| == |dir| {
        assert q[..|dir|] == q;
      }
    }
  }

  /** A name listed in a directory is the last name of one of its entries. */
  lemma ChildNameEntry(nodes: Nodes, dir: seq<string>, name: string)
    requires WellFormed(nodes)
    requires name in ChildNames(nodes, dir)
    ensures dir + [name] in Children(nodes, dir)
    ensures Storable(name)
  {
    var q :| q in Children(nodes, dir) && q[|dir|] == name;
    assert q == dir + [name];
    assert Storable(q[|q| - 1]);
  }

  lemma RemoveNoChildren(nodes: Nodes, dir: seq<string>)
    ensures RemoveChildren(nodes, dir, {}) == nodes
  {
  }

  lemma PrefixTrans(a: seq<string>, b: seq<string>, c: seq<string>)
    requires IsPrefix(a, b) && IsPrefix(b, c)
    ensures IsPrefix(a, c)
  {
    assert c[..|a|] == c[..|b|][..|a|];
  }

  /** A prefix of length |a| + 1 that is a followed by one name starts with a. */
  lemma PrefixDropLast(p: seq<string>, a: seq<string>, x: string)
    requires |p| > |a| && p[..|a| + 1] == a + [x]
    ensures p[..|a|] == a
  {
    assert p[..|a|] == p[..|a| + 1][..|a|];
  }

  /** A directory is a prefix of any entry one name below it. */
  lemma OneBelowPrefix(dir: seq<string>, a: string)
    ensures IsPrefix(dir, dir + [a])
  {
    assert (dir + [a])[..|dir|] == dir;
  }

  /** Two names below a directory: the first |dir| + 1 names are the directory and the first name. */
  lemma TwoBelowPrefix(dir: seq<string>, a: string, b: string)
    ensures |dir + [a, b]| > |dir| + 1 && (dir + [a, b])[..|dir| + 1] == dir + [a]
  {
  }

  /** Removing entries never makes a missing path appear. */
  lemma StatAbsentStays(before: Nodes, after: Nodes, path: string)
    requires forall q | q in after :: q in before && after[q] == before[q]
    requires Stat(before, path).Absent?
    ensures Stat(after, path).Absent?
  {
  }

  /** When p is the only kept file below `dir`, nothing is listed once p is removed. */
  lemma OnlyKeptFileRemoved(nodes: Nodes, dir: seq<string>, keep: string -> bool, p: seq<string>)
    requires forall q | KeptFileBelow(nodes, dir, keep, q) :: q == p
    ensures ListRel(nodes - {p}, dir, keep) == {}
  {
    var rest := nodes - {p};
    if ListRel(rest, dir, keep) != {} {
      var x :| x in ListRel(rest, dir, keep);
      ListRelSound(rest, dir, keep, x);
      var q :| KeptFileBelow(rest, dir, keep, q) && x == q[|dir|..];
      assert KeptFileBelow(nodes, dir, keep, q);
    }
  }
}
