/**
 * The blob storage: a root directory created on construction, a factory for
 * files below it, listing and purging, and clearParents, which walks up from
 * a deleted file's directory removing directories left effectively empty.
 */
module BlobStorage {
  import opened Paths
  import opened Errors
  import opened Values
  import opened Os
  import opened BlobDirectory
  import opened BlobFile

  /** Names a directory may still hold and be considered empty. */
  const SafeToIgnore: set<string> := {".", "..", ".DS_Store", ".Trashes", "Thumbs.db", "desktop.ini"}

  /** The listing filter clearParents uses. */
  function NotIgnored(name: string): bool
  {
    name !in SafeToIgnore
  }

  /** What clearParents reports and leaves behind. */
  datatype Walk = Walk(result: Result<bool>, nodes: Nodes)

  /** The directory clearParents examines for the segments `segs` below `root`. */
  function Level(root: string, segs: seq<string>): Directory
  {
    NewDirectory(root + [Separator] + Join(segs))
  }

  /**
   * The walk of clearParents over the remaining segments: the directory of
   * all of them is examined; a missing one or one still listing a file that is
   * not safe to ignore stops the walk with false; an empty one is deleted and
   * the walk goes on with the last segment dropped; true once no segment is left.
   */
  function ClearWalk(nodes: Nodes, root: string, segs: seq<string>): Walk
    decreases |segs|
  {
    if |segs| == 0 then Walk(Ok(true), nodes)
    else
      var d := Level(root, segs);
      match d.Exists(nodes)
      case Err(e) => Walk(Err(e), nodes)
      case Ok(found) =>
        if !found then Walk(Ok(false), nodes)
        else if d.List(nodes, NotIgnored) != Ok({}) then Walk(Ok(false), nodes)
        else
          var e := d.AfterDelete(nodes);
          if e.outcome.Fail? then Walk(Err(e.outcome.error), e.nodes)
          else ClearWalk(e.nodes, root, segs[..|segs| - 1])
  }

  datatype Storage = Storage(path: string)
  {
    /** The root directory handle. */
    function Directory(): Directory
    {
      NewDirectory(path)
    }

    /** file(name, s): the file 'root/name' bound to s; the filesystem is not touched. */
    function File(name: string, s: Serializer): (f: File)
      ensures StartsWith(f.path, path)
      ensures Resolve(f.path) == Resolve(path) + Resolve(name)
      ensures f.serializer == Some(s)
    {
      ResolveAppend(path, name);
      BlobFile.File(path + [Separator] + name, Some(s))
    }

    /**
     * list(filter): the root directory's listing: nothing without a root
     * directory, and otherwise names of regular files below the root handle
     * whose own name passes the filter.
     */
    function List(nodes: Nodes, keep: string -> bool): (r: Result<set<string>>)
      ensures r == Directory().List(nodes, keep)
      ensures Directory().Exists(nodes) == Ok(false) ==> r == Ok({})
      ensures r.Err? ==> r.error == NotADirectory(Directory().path)
      ensures WellFormed(nodes) && r.Ok? ==>
        forall x | x in r.value :: keep(LastPiece(x)) && Stat(nodes, Directory().path + [Separator] + x).IsFile?
    {
      var r := Directory().List(nodes, keep);
      assert WellFormed(nodes) && r.Ok? ==>
        forall x | x in r.value :: keep(LastPiece(x)) && Stat(nodes, Directory().path + [Separator] + x).IsFile?
      by {
        if WellFormed(nodes) && r.Ok? {
          forall x | x in r.value
            ensures keep(LastPiece(x)) && Stat(nodes, Directory().path + [Separator] + x).IsFile?
          {
            ListedPathsAreFiles(Directory(), nodes, keep, x);
          }
        }
      }
      r
    }

    /** purge(): the root directory deleted with everything below it. */
    method Purge(fs: FileSystem) returns (o: Outcome)
      modifies fs
      requires fs.Valid()
      ensures fs.Valid()
      ensures Effect(o, fs.nodes) == Directory().AfterDelete(old(fs.nodes))
    {
      o := Directory().Delete(fs);
    }

    /** What clearParents(f) reports and leaves behind. */
    function AfterClearParents(nodes: Nodes, f: File): Walk
    {
      match f.Exists(nodes)
      case Err(e) => Walk(Err(e), nodes)
      case Ok(found) =>
        if found then Walk(Err(StillExists(f.path)), nodes)
        else
          var parents := Dirname(f.path);
          if !StartsWith(parents, path) then Walk(Err(NotInStorage(parents, path)), nodes)
          else ClearWalk(nodes, path, Split(Substr(parents, |path| + 1)))
    }

    method ClearParents(fs: FileSystem, f: File) returns (r: Result<bool>)
      modifies fs
      requires fs.Valid()
      ensures fs.Valid()
      ensures Walk(r, fs.nodes) == AfterClearParents(old(fs.nodes), f)
    {
      var present := f.Exists(fs.nodes);
      if present.Err? {
        return Err(present.error);
      }
      if present.value {
        return Err(StillExists(f.path));
      }
      var parents := Dirname(f.path);
      if !StartsWith(parents, path) {
        return Err(NotInStorage(parents, path));
      }
      var segs := Split(Substr(parents, |path| + 1));
      ghost var goal := ClearWalk(fs.nodes, path, segs);
      while |segs| >= 1
        invariant fs.Valid()
        invariant ClearWalk(fs.nodes, path, segs) == goal
        decreases |segs|
      {
        var d := Level(path, segs);
        var found := d.Exists(fs.nodes);
        if found.Err? {
          return Err(found.error);
        }
        if !found.value {
          return Ok(false);
        }
        if d.List(fs.nodes, NotIgnored) != Ok({}) {
          return Ok(false);
        }
        var o := d.Delete(fs);
        if o.Fail? {
          return Err(o.error);
        }
        segs := segs[..|segs| - 1];
      }
      return Ok(true);
    }
  }

  /** new Storage(path): the root directory is created, with its ancestors, or construction fails. */
  method Open(fs: FileSystem, path: string) returns (r: Result<Storage>)
    modifies fs
    requires fs.Valid()
    ensures fs.Valid()
    ensures r.Ok? ==> r.value == Storage(path)
    ensures Effect(if r.Ok? then Pass else Fail(r.error), fs.nodes) == NewDirectory(path).AfterCreate(old(fs.nodes))
  {
    var o := NewDirectory(path).Create(fs);
    if o.Fail? {
      return Err(o.error);
    }
    return Ok(Storage(path));
  }

  // ---------------------------------------------------------------------
  // Properties of clearParents
  // ---------------------------------------------------------------------

  /** A level the walk stops at: missing, or still listing a file that is not safe to ignore. */
  predicate Blocks(d: Directory, nodes: Nodes)
  {
    d.Exists(nodes) == Ok(false) || (d.Exists(nodes) == Ok(true) && d.List(nodes, NotIgnored) != Ok({}))
  }

  /** The directory of storable segments below the root resolves to the root's names followed by them. */
  lemma LevelResolves(root: string, segs: seq<string>)
    requires |segs| >= 1 && forall i | 0 <= i < |segs| :: Storable(segs[i])
    ensures Level(root, segs).path == root + [Separator] + Join(segs)
    ensures Resolve(Level(root, segs).path) == Resolve(root) + segs
    ensures LastPiece(Level(root, segs).path) == segs[|segs| - 1]
  {
    var last := segs[|segs| - 1];
    var j := Join(segs);
    var p := root + [Separator] + j;
    JoinLastChar(segs);
    assert Storable(last);
    assert p[|p| - 1] == last[|last| - 1] && last[|last| - 1] !in SlashChars;
    assert Level(root, segs).path == p;
    ResolveAppend(root, Join(segs));
    ResolveJoin(segs);
    LastPieceAppend(root, Join(segs));
    LastPieceOfJoin(segs);
  }

  /** Every level lies in the root, whatever the segments, when the root does not end in a separator. */
  lemma LevelUnderRoot(root: string, segs: seq<string>)
    requires root == "" || root[|root| - 1] !in SlashChars
    ensures IsPrefix(Resolve(root), Resolve(Level(root, segs).path))
  {
    var p := root + [Separator] + Join(segs);
    var t := RTrim(p, SlashChars);
    if root == "" {
      assert Resolve(root) == [];
    } else if |t| > |root| {
      assert p[|root|] == Separator;
      assert t == root + [Separator] + t[|root| + 1..];
      ResolveAppend(root, t[|root| + 1..]);
    } else {
      assert p[|root| - 1] == root[|root| - 1];
      assert t == root;
    }
  }

  /** `after` holds no entry that `before` lacks, and each one it holds unchanged. */
  ghost predicate Shrinks(before: Nodes, after: Nodes)
  {
    forall q | q in after :: q in before && after[q] == before[q]
  }

  /** Every entry of `before` missing from `after` is a directory or a file safe to ignore. */
  ghost predicate DropsOnlyIgnorable(before: Nodes, after: Nodes)
  {
    forall q | q in before && q !in after :: q == [] || before[q].Dir? || !NotIgnored(q[|q| - 1])
  }

  /** Every entry of `before` missing from `after` lies at or below `r`. */
  ghost predicate DropsOnlyBelow(before: Nodes, after: Nodes, r: seq<string>)
  {
    forall q | q in before && q !in after :: IsPrefix(r, q)
  }

  /** Every entry of `before` that does not lie at or below `r` is in `after`, unchanged. */
  ghost predicate KeepsOutside(before: Nodes, after: Nodes, r: seq<string>)
  {
    forall q | q in before && !IsPrefix(r, q) :: q in after && after[q] == before[q]
  }

  /** Pruning twice is pruning. */
  lemma PrunesTrans(a: Nodes, b: Nodes, c: Nodes, r: seq<string>)
    requires Shrinks(a, b) && Shrinks(b, c)
    requires DropsOnlyIgnorable(a, b) && DropsOnlyIgnorable(b, c)
    ensures Shrinks(a, c) && DropsOnlyIgnorable(a, c)
    ensures DropsOnlyBelow(a, b, r) && DropsOnlyBelow(b, c, r) ==> DropsOnlyBelow(a, c, r)
  {
  }

  /** Removals below a directory are removals below each of its ancestors. */
  lemma BelowWidens(a: Nodes, b: Nodes, r: seq<string>, s: seq<string>)
    requires IsPrefix(s, r) && DropsOnlyBelow(a, b, r)
    ensures DropsOnlyBelow(a, b, s)
  {
    forall q | q in a && q !in b ensures IsPrefix(s, q) {
      PrefixTrans(s, r, q);
    }
  }

  /** Removing only entries below `r` keeps everything outside it. */
  lemma KeepsFromDrops(a: Nodes, b: Nodes, r: seq<string>)
    requires Shrinks(a, b) && DropsOnlyBelow(a, b, r)
    ensures KeepsOutside(a, b, r)
  {
  }

  lemma KeepsTrans(a: Nodes, b: Nodes, c: Nodes, r: seq<string>)
    requires KeepsOutside(a, b, r) && KeepsOutside(b, c, r)
    ensures KeepsOutside(a, c, r)
  {
  }

  /** Deleting an effectively empty level removes only directories and ignorable files below it. */
  lemma DeleteLevelPrunes(nodes: Nodes, d: Directory)
    requires WellFormed(nodes)
    requires d.Exists(nodes) == Ok(true) && d.List(nodes, NotIgnored) == Ok({})
    ensures var e := d.AfterDelete(nodes);
      && WellFormed(e.nodes)
      && Shrinks(nodes, e.nodes)
      && DropsOnlyIgnorable(nodes, e.nodes)
      && DropsOnlyBelow(nodes, e.nodes, Resolve(d.path))
  {
    var dir := Resolve(d.path);
    var e := d.AfterDelete(nodes);
    DeleteRemovesTree(d, nodes);
    ListEmptyIff(d, nodes, NotIgnored);
    forall q | q in nodes && q !in e.nodes
      ensures IsPrefix(dir, q) && (q == [] || nodes[q].Dir? || !NotIgnored(q[|q| - 1]))
    {
      if q != dir && nodes[q].File? {
        EmptyListingNoKeptFile(nodes, dir, NotIgnored, q);
      }
    }
  }

  /** A delete that succeeds leaves the level missing and the filesystem well formed. */
  lemma DeleteLevelGone(nodes: Nodes, d: Directory)
    requires WellFormed(nodes)
    requires d.AfterDelete(nodes).outcome == Pass
    ensures WellFormed(d.AfterDelete(nodes).nodes)
    ensures d.Exists(d.AfterDelete(nodes).nodes) == Ok(false)
  {
    DeleteRemovesTree(d, nodes);
  }

  /**
   * clearParents only prunes: nothing is added or changed, only directories
   * and files that are safe to ignore are removed, and, for a root that does
   * not end in a separator, only entries inside the root.
   */
  lemma {:induction false} ClearWalkOnlyPrunes(nodes: Nodes, root: string, segs: seq<string>)
    requires WellFormed(nodes)
    ensures var w := ClearWalk(nodes, root, segs);
      && WellFormed(w.nodes)
      && Shrinks(nodes, w.nodes)
      && DropsOnlyIgnorable(nodes, w.nodes)
      && ((root == "" || root[|root| - 1] !in SlashChars) ==> DropsOnlyBelow(nodes, w.nodes, Resolve(root)))
    decreases |segs|
  {
    if |segs| > 0 {
      var d := Level(root, segs);
      if d.Exists(nodes) == Ok(true) && d.List(nodes, NotIgnored) == Ok({}) {
        var e := d.AfterDelete(nodes);
        var w := ClearWalk(nodes, root, segs);
        DeleteLevelPrunes(nodes, d);
        if root == "" || root[|root| - 1] !in SlashChars {
          LevelUnderRoot(root, segs);
          BelowWidens(nodes, e.nodes, Resolve(d.path), Resolve(root));
        }
        if e.outcome == Pass {
          ClearWalkStep(nodes, root, segs);
          ClearWalkOnlyPrunes(e.nodes, root, segs[..|segs| - 1]);
          PrunesTrans(nodes, e.nodes, w.nodes, Resolve(root));
        }
      }
    }
  }

  /** A missing directory stays missing when entries are only removed. */
  lemma AbsentStays(before: Nodes, after: Nodes, d: Directory)
    requires Shrinks(before, after)
    requires d.Exists(before) == Ok(false)
    ensures d.Exists(after) == Ok(false)
  {
  }

  /** A directory missing before the walk is missing after it. */
  lemma ClearWalkKeepsAbsent(nodes: Nodes, root: string, segs: seq<string>, d: Directory)
    requires WellFormed(nodes)
    requires d.Exists(nodes) == Ok(false)
    ensures d.Exists(ClearWalk(nodes, root, segs).nodes) == Ok(false)
  {
    ClearWalkOnlyPrunes(nodes, root, segs);
    AbsentStays(nodes, ClearWalk(nodes, root, segs).nodes, d);
  }

  lemma LevelPrefix(r: seq<string>, segs: seq<string>, k: nat)
    requires k <= |segs|
    ensures IsPrefix(r + segs[..k], r + segs)
  {
    assert (r + segs)[..|r| + k] == r + segs[..k];
  }

  /** One level of the walk: an effectively empty level that is deleted hands over to its parent. */
  lemma ClearWalkStep(nodes: Nodes, root: string, segs: seq<string>)
    requires |segs| >= 1
    requires Level(root, segs).Exists(nodes) == Ok(true) && Level(root, segs).List(nodes, NotIgnored) == Ok({})
    ensures var e := Level(root, segs).AfterDelete(nodes);
      && (e.outcome.Fail? ==> ClearWalk(nodes, root, segs).nodes == e.nodes)
      && (e.outcome == Pass ==> ClearWalk(nodes, root, segs) == ClearWalk(e.nodes, root, segs[..|segs| - 1]))
  {
  }

  /** A level that is missing or still lists a kept file stops the walk, which changes nothing. */
  lemma ClearWalkBlocked(nodes: Nodes, root: string, segs: seq<string>)
    requires |segs| >= 1
    requires !(Level(root, segs).Exists(nodes) == Ok(true) && Level(root, segs).List(nodes, NotIgnored) == Ok({}))
    ensures ClearWalk(nodes, root, segs).nodes == nodes
  {
  }

  /** A walk that answers true deleted its first level and went on with the parent. */
  lemma ClearWalkTrueStep(nodes: Nodes, root: string, segs: seq<string>)
    requires |segs| >= 1 && ClearWalk(nodes, root, segs).result == Ok(true)
    ensures Level(root, segs).AfterDelete(nodes).outcome == Pass
    ensures ClearWalk(nodes, root, segs) == ClearWalk(Level(root, segs).AfterDelete(nodes).nodes, root, segs[..|segs| - 1])
  {
  }

  /** A walk that answers, at an effectively empty level, deleted it and went on with the parent. */
  lemma ClearWalkAnswerStep(nodes: Nodes, root: string, segs: seq<string>)
    requires |segs| >= 1 && ClearWalk(nodes, root, segs).result.Ok?
    requires Level(root, segs).Exists(nodes) == Ok(true) && Level(root, segs).List(nodes, NotIgnored) == Ok({})
    ensures Level(root, segs).AfterDelete(nodes).outcome == Pass
    ensures ClearWalk(nodes, root, segs) == ClearWalk(Level(root, segs).AfterDelete(nodes).nodes, root, segs[..|segs| - 1])
  {
  }

  /** Deleting an effectively empty level removes only entries below the root's names followed by the segments. */
  lemma LevelDropsBelow(nodes: Nodes, root: string, segs: seq<string>)
    requires WellFormed(nodes)
    requires |segs| >= 1 && forall i | 0 <= i < |segs| :: Storable(segs[i])
    requires Level(root, segs).Exists(nodes) == Ok(true) && Level(root, segs).List(nodes, NotIgnored) == Ok({})
    ensures var e := Level(root, segs).AfterDelete(nodes);
      WellFormed(e.nodes) && Shrinks(nodes, e.nodes) && DropsOnlyBelow(nodes, e.nodes, Resolve(root) + segs)
  {
    DeleteLevelPrunes(nodes, Level(root, segs));
    LevelResolves(root, segs);
  }

  /** Deleting an effectively empty level keeps everything outside the directory of any of its first n segments. */
  lemma DeleteLevelKeeps(nodes: Nodes, root: string, segs: seq<string>, n: nat)
    requires WellFormed(nodes)
    requires forall i | 0 <= i < |segs| :: Storable(segs[i])
    requires 1 <= n <= |segs|
    requires Level(root, segs).Exists(nodes) == Ok(true) && Level(root, segs).List(nodes, NotIgnored) == Ok({})
    ensures WellFormed(Level(root, segs).AfterDelete(nodes).nodes)
    ensures KeepsOutside(nodes, Level(root, segs).AfterDelete(nodes).nodes, Resolve(root) + segs[..n])
  {
    var e := Level(root, segs).AfterDelete(nodes);
    var r := Resolve(root);
    LevelDropsBelow(nodes, root, segs);
    LevelPrefix(r, segs, n);
    BelowWidens(nodes, e.nodes, r + segs, r + segs[..n]);
    KeepsFromDrops(nodes, e.nodes, r + segs[..n]);
  }

  /** The walk never touches anything outside the directory of its first segment. */
  lemma {:induction false} ClearWalkStaysBelow(nodes: Nodes, root: string, segs: seq<string>)
    requires WellFormed(nodes)
    requires |segs| >= 1 && forall i | 0 <= i < |segs| :: Storable(segs[i])
    ensures KeepsOutside(nodes, ClearWalk(nodes, root, segs).nodes, Resolve(root) + segs[..1])
    decreases |segs|
  {
    var d := Level(root, segs);
    if d.Exists(nodes) == Ok(true) && d.List(nodes, NotIgnored) == Ok({}) {
      var e := d.AfterDelete(nodes);
      var rest := segs[..|segs| - 1];
      DeleteLevelKeeps(nodes, root, segs, 1);
      ClearWalkStep(nodes, root, segs);
      if e.outcome == Pass && |segs| > 1 {
        ClearWalkStaysBelow(e.nodes, root, rest);
        KeepsTransParent(nodes, e.nodes, ClearWalk(e.nodes, root, rest).nodes, root, segs);
      }
    } else {
      ClearWalkBlocked(nodes, root, segs);
    }
  }

  /** The walk over the parent's segments shares the first segment. */
  lemma KeepsTransParent(a: Nodes, b: Nodes, c: Nodes, root: string, segs: seq<string>)
    requires |segs| > 1
    requires KeepsOutside(a, b, Resolve(root) + segs[..1])
    requires KeepsOutside(b, c, Resolve(root) + segs[..|segs| - 1][..1])
    ensures KeepsOutside(a, c, Resolve(root) + segs[..1])
  {
    assert segs[..|segs| - 1][..1] == segs[..1];
    KeepsTrans(a, b, c, Resolve(root) + segs[..1]);
  }

  /** When the walk answers true, no level it examined exists any more. */
  lemma {:induction false} ClearWalkTrue(nodes: Nodes, root: string, segs: seq<string>)
    requires WellFormed(nodes)
    requires ClearWalk(nodes, root, segs).result == Ok(true)
    ensures var w := ClearWalk(nodes, root, segs);
      forall k | 1 <= k <= |segs| :: Level(root, segs[..k]).Exists(w.nodes) == Ok(false)
    decreases |segs|
  {
    if |segs| > 0 {
      var d := Level(root, segs);
      var e := d.AfterDelete(nodes);
      var rest := segs[..|segs| - 1];
      var w := ClearWalk(nodes, root, segs);
      ClearWalkTrueStep(nodes, root, segs);
      DeleteLevelGone(nodes, d);
      ClearWalkTrue(e.nodes, root, rest);
      ClearWalkKeepsAbsent(e.nodes, root, rest, d);
      LevelsGoneSnoc(w.nodes, root, segs);
    }
  }

  /** The levels of all segments are missing once the innermost one and those of its parent are. */
  lemma LevelsGoneSnoc(nodes: Nodes, root: string, segs: seq<string>)
    requires |segs| >= 1 && Level(root, segs).Exists(nodes) == Ok(false)
    requires var rest := segs[..|segs| - 1];
      forall k | 1 <= k <= |rest| :: Level(root, rest[..k]).Exists(nodes) == Ok(false)
    ensures forall k | 1 <= k <= |segs| :: Level(root, segs[..k]).Exists(nodes) == Ok(false)
  {
    var rest := segs[..|segs| - 1];
    forall k | 1 <= k <= |segs| ensures Level(root, segs[..k]).Exists(nodes) == Ok(false) {
      if k == |segs| {
        assert segs[..k] == segs;
      } else {
        assert segs[..k] == rest[..k];
      }
    }
  }

  /**
   * The walk stopped at level k, leaving `after`: that directory is missing
   * or still lists a file that is not safe to ignore, and it and everything
   * outside the level below it are as they were in `nodes`.
   */
  ghost predicate StopsAt(nodes: Nodes, after: Nodes, root: string, segs: seq<string>, k: nat)
    requires 1 <= k <= |segs|
  {
    && Blocks(Level(root, segs[..k]), after)
    && (k == |segs| ==> after == nodes)
    && (k < |segs| ==> KeepsOutside(nodes, after, Resolve(root) + segs[..k + 1]))
  }

  /** When the walk answers false, it stopped at a level that blocks, leaving that level and its ancestors intact. */
  lemma {:induction false} ClearWalkFalse(nodes: Nodes, root: string, segs: seq<string>)
    requires WellFormed(nodes)
    requires forall i | 0 <= i < |segs| :: Storable(segs[i])
    requires ClearWalk(nodes, root, segs).result == Ok(false)
    ensures exists k | 1 <= k <= |segs| :: StopsAt(nodes, ClearWalk(nodes, root, segs).nodes, root, segs, k)
    decreases |segs|
  {
    var d := Level(root, segs);
    var w := ClearWalk(nodes, root, segs);
    if d.Exists(nodes) == Ok(true) && d.List(nodes, NotIgnored) == Ok({}) {
      var e := d.AfterDelete(nodes);
      var rest := segs[..|segs| - 1];
      ClearWalkAnswerStep(nodes, root, segs);
      DeleteLevelGone(nodes, d);
      ClearWalkFalse(e.nodes, root, rest);
      var k :| 1 <= k <= |rest| && StopsAt(e.nodes, w.nodes, root, rest, k);
      StopsAtParent(nodes, w.nodes, root, segs, k);
    } else {
      assert w.nodes == nodes;
      assert segs[..|segs|] == segs;
      assert StopsAt(nodes, w.nodes, root, segs, |segs|);
    }
  }

  /** A stop found after deleting the innermost level is a stop of the whole walk. */
  lemma StopsAtParent(nodes: Nodes, after: Nodes, root: string, segs: seq<string>, k: nat)
    requires WellFormed(nodes)
    requires forall i | 0 <= i < |segs| :: Storable(segs[i])
    requires 1 <= k < |segs|
    requires Level(root, segs).Exists(nodes) == Ok(true) && Level(root, segs).List(nodes, NotIgnored) == Ok({})
    requires StopsAt(Level(root, segs).AfterDelete(nodes).nodes, after, root, segs[..|segs| - 1], k)
    ensures StopsAt(nodes, after, root, segs, k)
  {
    var n := k + 1;
    DeleteLevelKeeps(nodes, root, segs, n);
    StopsAtCompose(nodes, Level(root, segs).AfterDelete(nodes).nodes, after, root, segs, k, n);
  }

  /** A stop of the walk over the parent's segments, reached from `mid`, is a stop from any `nodes` that `mid` keeps outside the level below it. */
  lemma StopsAtCompose(nodes: Nodes, mid: Nodes, after: Nodes, root: string, segs: seq<string>, k: nat, n: nat)
    requires 1 <= k < |segs| && n == k + 1
    requires KeepsOutside(nodes, mid, Resolve(root) + segs[..n])
    requires StopsAt(mid, after, root, segs[..|segs| - 1], k)
    ensures StopsAt(nodes, after, root, segs, k)
  {
    var rest := segs[..|segs| - 1];
    assert segs[..k] == rest[..k];
    if k < |rest| {
      assert segs[..k + 1] == rest[..k + 1];
      KeepsTrans(nodes, mid, after, Resolve(root) + segs[..k + 1]);
    }
  }

  // ---------------------------------------------------------------------
  // clearParents from a file's point of view
  // ---------------------------------------------------------------------

  /** The parent of 'root/d1/.../dn/name' starts with the root and splits back into d1 ... dn. */
  lemma NestedParent(root: string, dirs: seq<string>, name: string)
    requires root != "" && root[|root| - 1] !in SlashChars
    requires |dirs| >= 1 && (forall i | 0 <= i < |dirs| :: Storable(dirs[i])) && Storable(name)
    ensures var parents := Dirname(root + [Separator] + Join(dirs + [name]));
      StartsWith(parents, root) && Split(Substr(parents, |root| + 1)) == dirs
  {
    var j := Join(dirs);
    var parent := root + [Separator] + j;
    NestedPath(root, dirs, name);
    DirnameChild(parent, name);
    SubstrAfter(root, j);
    SplitJoin(dirs);
  }

  /** 'root/rest' starts with the root, and what follows the root and its separator is rest. */
  lemma SubstrAfter(root: string, rest: string)
    ensures StartsWith(root + [Separator] + rest, root)
    ensures Substr(root + [Separator] + rest, |root| + 1) == rest
  {
    var s := root + [Separator] + rest;
    assert s[..|root|] == root;
    assert s[|root| + 1..] == rest;
  }

  /** 'root/d1/.../dn/name' is 'root/d1/.../dn' followed by '/name', and the former does not end in '/'. */
  lemma NestedPath(root: string, dirs: seq<string>, name: string)
    requires |dirs| >= 1 && (forall i | 0 <= i < |dirs| :: Storable(dirs[i]))
    ensures var parent := root + [Separator] + Join(dirs);
      && root + [Separator] + Join(dirs + [name]) == parent + [Separator] + name
      && parent != "" && parent[|parent| - 1] != Separator
  {
    var j := Join(dirs);
    JoinSnoc(dirs, name);
    JoinLastChar(dirs);
    assert Storable(dirs[|dirs| - 1]);
    assert Join(dirs + [name]) == j + [Separator] + name;
    SeparatedAssoc(root, j, name);
  }

  /** A missing file in nested directories below the root: clearParents walks exactly those directories. */
  lemma ClearParentsWalksDirs(st: Storage, nodes: Nodes, dirs: seq<string>, name: string, s: Serializer)
    requires st.path != "" && st.path[|st.path| - 1] !in SlashChars
    requires |dirs| >= 1 && (forall i | 0 <= i < |dirs| :: Storable(dirs[i])) && Storable(name)
    requires st.File(Join(dirs + [name]), s).Exists(nodes) == Ok(false)
    ensures st.AfterClearParents(nodes, st.File(Join(dirs + [name]), s)) == ClearWalk(nodes, st.path, dirs)
  {
    NestedParent(st.path, dirs, name);
  }

  /**
   * A missing file directly in the root: the single segment left after the
   * root is '', so the level examined is 'root/', which trims back to the
   * root itself; an effectively empty root is deleted with everything in it.
   */
  lemma FlatFileClearsRoot(st: Storage, nodes: Nodes, name: string, s: Serializer)
    requires WellFormed(nodes)
    requires st.path != "" && st.path[|st.path| - 1] !in SlashChars && Storable(name)
    requires st.File(name, s).Exists(nodes) == Ok(false)
    ensures Level(st.path, [""]) == st.Directory()
    ensures st.AfterClearParents(nodes, st.File(name, s)) == ClearWalk(nodes, st.path, [""])
    ensures st.Directory().Exists(nodes) == Ok(true) && st.List(nodes, NotIgnored) == Ok({})
            && Resolve(st.path) != [] && LastPiece(st.path) != "." ==>
              && st.AfterClearParents(nodes, st.File(name, s)) == Walk(Ok(true), RemoveTree(nodes, Resolve(st.path)))
              && st.Directory().Exists(RemoveTree(nodes, Resolve(st.path))) == Ok(false)
  {
    FlatFileWalk(st, nodes, name, s);
    var d := st.Directory();
    if d.Exists(nodes) == Ok(true) && d.List(nodes, NotIgnored) == Ok({}) && Resolve(d.path) != [] && LastPiece(d.path) != "." {
      DeleteRemovesTree(d, nodes);
      LastLevelCleared(nodes, st.path, "");
    }
  }

  /** The walk for a file directly in the root examines the single level '', which is the root directory. */
  lemma FlatFileWalk(st: Storage, nodes: Nodes, name: string, s: Serializer)
    requires st.path != "" && st.path[|st.path| - 1] !in SlashChars && Storable(name)
    requires st.File(name, s).Exists(nodes) == Ok(false)
    ensures Level(st.path, [""]) == st.Directory()
    ensures st.AfterClearParents(nodes, st.File(name, s)) == ClearWalk(nodes, st.path, [""])
  {
    DirnameChild(st.path, name);
    assert Substr(st.path, |st.path| + 1) == "";
    var p := st.path + [Separator] + Join([""]);
    assert p == st.path + [Separator];
    assert p[|st.path| - 1] !in SlashChars;
    assert Level(st.path, [""]).path == st.path;
  }

  /** The last level of the walk, when it is an existing, empty and deletable directory, is removed with everything below it. */
  lemma LastLevelCleared(nodes: Nodes, root: string, seg: string)
    requires var d := Level(root, [seg]);
      d.Exists(nodes) == Ok(true) && d.List(nodes, NotIgnored) == Ok({}) && Resolve(d.path) != [] && LastPiece(d.path) != "."
    ensures ClearWalk(nodes, root, [seg]) == Walk(Ok(true), RemoveTree(nodes, Resolve(Level(root, [seg]).path)))
  {
    var d := Level(root, [seg]);
    assert d.AfterDelete(nodes) == Effect(Pass, RemoveTree(nodes, Resolve(d.path)));
    assert [seg][..0] == [];
  }

  /** The parent directory of a file named below the root always starts with the root path, so it is never reported as outside the storage. */
  lemma FileStaysInStorage(st: Storage, name: string, s: Serializer)
    requires st.path != "" && st.path[|st.path| - 1] != Separator
    requires name != "" && name[|name| - 1] != Separator
    ensures StartsWith(Dirname(st.File(name, s).path), st.path)
  {
    DirnameKeepsPrefix(st.path, name);
  }

  /** After a successful purge the storage lists nothing, and purging again passes without change. */
  lemma PurgeEmpties(st: Storage, nodes: Nodes, keep: string -> bool)
    requires WellFormed(nodes)
    ensures var e := st.Directory().AfterDelete(nodes);
      e.outcome == Pass ==>
        && st.List(e.nodes, keep) == Ok({})
        && st.Directory().AfterDelete(e.nodes) == Effect(Pass, e.nodes)
  {
    DeleteRemovesTree(st.Directory(), nodes);
  }

  /** After any walk that answers, its first level blocks, so repeating the walk stops there at once. */
  lemma ClearWalkFirstLevel(nodes: Nodes, root: string, segs: seq<string>)
    requires WellFormed(nodes)
    requires |segs| >= 1 && ClearWalk(nodes, root, segs).result.Ok?
    ensures var w := ClearWalk(nodes, root, segs);
      && Blocks(Level(root, segs), w.nodes)
      && ClearWalk(w.nodes, root, segs) == Walk(Ok(false), w.nodes)
  {
    var d := Level(root, segs);
    var w := ClearWalk(nodes, root, segs);
    if d.Exists(nodes) == Ok(true) && d.List(nodes, NotIgnored) == Ok({}) {
      var e := d.AfterDelete(nodes);
      if e.outcome == Pass {
        DeleteLevelGone(nodes, d);
        ClearWalkStep(nodes, root, segs);
        ClearWalkKeepsAbsent(e.nodes, root, segs[..|segs| - 1], d);
      }
    }
  }
}
