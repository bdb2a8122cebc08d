/**
 * A file handle: a path and an optional serializer, with exists, create,
 * touch, read, write and delete on the filesystem.
 */
module BlobFile {
  import opened Paths
  import opened Errors
  import opened Values
  import opened Os
  import opened BlobDirectory

  datatype File = File(path: string, serializer: Option<Serializer>)
  {
    /** exists(): false when nothing is there, an error when a non-file is. */
    function Exists(nodes: Nodes): Result<bool>
    {
      match Stat(nodes, path)
      case Absent => Ok(false)
      case IsFile(_) => Ok(true)
      case IsDir => Err(NotAFile(path))
    }

    /** A value fwrite() accepts: anything through a serializer, only a string without one. */
    predicate Encodable(v: Value)
    {
      serializer.Some? || v.Str?
    }

    /** The text written for a value: serialized, or the string itself without a serializer. */
    function Encode(v: Value): string
      requires Encodable(v)
    {
      if serializer.Some? then serializer.value.serialize(v) else v.s
    }

    /** The value read back from a file's content. */
    function Decode(content: string): Value
    {
      if serializer.Some? then serializer.value.deserialize(content) else Str(content)
    }

    /**
     * What create() reports and leaves behind: an existing file is kept as it
     * is; otherwise the parent directory chain is created, then an empty file.
     */
    function AfterCreate(nodes: Nodes): Effect
    {
      match Stat(nodes, path)
      case IsFile(_) => Effect(Pass, nodes)
      case IsDir => Effect(Fail(NotAFile(path)), nodes)
      case Absent =>
        var made := NewDirectory(Dirname(path)).AfterCreate(nodes);
        if made.outcome.Fail? then made
        else if PutOk(made.nodes, path) then Effect(Pass, made.nodes[Resolve(path) := Node.File("")])
        else Effect(Fail(OpenFailed(path)), made.nodes)
    }

    method Create(fs: FileSystem) returns (o: Outcome)
      modifies fs
      requires fs.Valid()
      ensures fs.Valid()
      ensures Effect(o, fs.nodes) == AfterCreate(old(fs.nodes))
    {
      var found := Stat(fs.nodes, path);
      if !found.Absent? {
        if found.IsFile? {
          return Pass;
        } else {
          return Fail(NotAFile(path));
        }
      }
      var parent := NewDirectory(Dirname(path));
      o := parent.Create(fs);
      if o.Fail? {
        return;
      }
      var ok := fs.Put(path, "");
      if !ok {
        return Fail(OpenFailed(path));
      }
      return Pass;
    }

    /** What touch() reports and leaves behind (timestamps are not modelled). */
    function AfterTouch(nodes: Nodes): Effect
    {
      match Exists(nodes)
      case Err(e) => Effect(Fail(e), nodes)
      case Ok(found) => if found then Effect(Pass, nodes) else AfterCreate(nodes)
    }

    method Touch(fs: FileSystem) returns (o: Outcome)
      modifies fs
      requires fs.Valid()
      ensures fs.Valid()
      ensures Effect(o, fs.nodes) == AfterTouch(old(fs.nodes))
    {
      var found := Exists(fs.nodes);
      if found.Err? {
        return Fail(found.error);
      }
      if !found.value {
        o := Create(fs);
        return;
      }
      return Pass;
    }

    /** read(): the decoded content; a missing file is the 404 "does not exist". */
    function Read(nodes: Nodes): (r: Result<Value>)
      ensures r.Ok? <==> Exists(nodes) == Ok(true)
      ensures r.Ok? ==> r.value == Decode(Stat(nodes, path).content)
      ensures r.Err? ==> r.error == if Exists(nodes).Err? then NotAFile(path) else NotFound(path)
    {
      match Exists(nodes)
      case Err(e) => Err(e)
      case Ok(found) =>
        if found then Ok(Decode(Stat(nodes, path).content)) else Err(NotFound(path))
    }

    /**
     * What write(v) reports and leaves behind: the file is created when
     * missing, then opened with 'w', which empties it, and its whole content
     * replaced by the encoded value. A value fwrite() refuses leaves the
     * emptied file behind and fails with the TypeError.
     */
    function AfterWrite(nodes: Nodes, v: Value): Effect
    {
      match Exists(nodes)
      case Err(e) => Effect(Fail(e), nodes)
      case Ok(found) =>
        var made := if found then Effect(Pass, nodes) else AfterCreate(nodes);
        if made.outcome.Fail? then made
        else if !Encodable(v) then Effect(Fail(WriteTypeError), made.nodes[Resolve(path) := Node.File("")])
        else Effect(Pass, made.nodes[Resolve(path) := Node.File(Encode(v))])
    }

    method Write(fs: FileSystem, v: Value) returns (o: Outcome)
      modifies fs
      requires fs.Valid()
      ensures fs.Valid()
      ensures Effect(o, fs.nodes) == AfterWrite(old(fs.nodes), v)
    {
      var found := Exists(fs.nodes);
      if found.Err? {
        return Fail(found.error);
      }
      if !found.value {
        ghost var before := fs.nodes;
        o := Create(fs);
        if o.Fail? {
          return;
        }
        CreatedFileIsWritable(this, before);
      } else {
        ExistingFileIsWritable(this, fs.nodes);
      }
      if !Encodable(v) {
        var emptied := fs.Put(path, "");
        assert emptied;
        return Fail(WriteTypeError);
      }
      var ok := fs.Put(path, Encode(v));
      assert ok;
      return Pass;
    }

    /** What delete() reports and leaves behind: a missing file is left alone. */
    function AfterDelete(nodes: Nodes): Effect
    {
      if Stat(nodes, path).Absent? then Effect(Pass, nodes)
      else if UnlinkOk(nodes, path) then Effect(Pass, nodes - {Resolve(path)})
      else Effect(Fail(DeleteFailed(path)), nodes)
    }

    method Delete(fs: FileSystem) returns (o: Outcome)
      modifies fs
      requires fs.Valid()
      ensures fs.Valid()
      ensures Effect(o, fs.nodes) == AfterDelete(old(fs.nodes))
    {
      var found := Stat(fs.nodes, path);
      if found.Absent? {
        return Pass;
      }
      var ok := fs.Unlink(path);
      if !ok {
        return Fail(DeleteFailed(path));
      }
      return Pass;
    }
  }

  /**
   * exists() is true exactly when a regular file entry is found through a
   * path that can name a file, and fails with "not a file" exactly when the
   * path resolves to a directory.
   */
  lemma FileExistsMeaning(f: File, nodes: Nodes)
    ensures var p := Resolve(f.path);
      f.Exists(nodes) == Ok(true) <==> f.path != "" && p != [] && p in nodes && nodes[p].File? && !NamesDirectory(f.path)
    ensures var p := Resolve(f.path);
      f.Exists(nodes).Err? <==> f.path != "" && (p == [] || (p in nodes && nodes[p].Dir?))
    ensures f.Exists(nodes).Err? ==> f.Exists(nodes).error == NotAFile(f.path)
  {
  }

  /** A path at which a regular file exists can be opened for writing. */
  lemma ExistingFileIsWritable(f: File, nodes: Nodes)
    requires WellFormed(nodes)
    requires f.Exists(nodes) == Ok(true)
    ensures PutOk(nodes, f.path)
  {
    var p := Resolve(f.path);
    assert p in nodes;
  }

  /** A file that create() has just made can be opened for writing. */
  lemma CreatedFileIsWritable(f: File, nodes: Nodes)
    requires Stat(nodes, f.path).Absent? && f.AfterCreate(nodes).outcome == Pass
    ensures PutOk(f.AfterCreate(nodes).nodes, f.path)
  {
    var made := NewDirectory(Dirname(f.path)).AfterCreate(nodes);
    PutOkAgain(made.nodes, f.path, "");
  }

  // ---------------------------------------------------------------------
  // Properties of create, touch, read, write and delete
  // ---------------------------------------------------------------------

  /**
   * create() either leaves a regular file at the path or fails: an existing
   * file keeps its content, a directory at the path fails with "not a file"
   * and changes nothing, and a file it creates is empty. Entries that existed
   * are never changed.
   */
  lemma CreateYieldsFile(f: File, nodes: Nodes)
    requires WellFormed(nodes)
    ensures var e := f.AfterCreate(nodes);
      && WellFormed(e.nodes)
      && (e.outcome == Pass <==> f.Exists(e.nodes) == Ok(true))
      && (f.Exists(nodes) == Ok(true) ==> e == Effect(Pass, nodes))
      && (f.Exists(nodes).Err? ==> e == Effect(Fail(NotAFile(f.path)), nodes))
      && (f.Exists(nodes) == Ok(false) && e.outcome == Pass ==> Stat(e.nodes, f.path) == IsFile(""))
      && (forall q | q in nodes :: q in e.nodes && e.nodes[q] == nodes[q])
  {
    if Stat(nodes, f.path).Absent? {
      CreateMissing(f, nodes);
    }
  }

  /** create() on a missing file. */
  lemma CreateMissing(f: File, nodes: Nodes)
    requires WellFormed(nodes)
    requires Stat(nodes, f.path).Absent?
    ensures var e := f.AfterCreate(nodes);
      && WellFormed(e.nodes)
      && (e.outcome == Pass <==> Stat(e.nodes, f.path).IsFile?)
      && (e.outcome == Pass ==> Stat(e.nodes, f.path) == IsFile(""))
      && (forall q | q in nodes :: q in e.nodes && e.nodes[q] == nodes[q])
  {
    var d := NewDirectory(Dirname(f.path));
    var made := d.AfterCreate(nodes);
    if made.outcome == Pass && PutOk(made.nodes, f.path) {
      CreateMissingPut(f, nodes);
    } else if made.outcome == Pass {
      CreateMissingRefused(f, nodes);
    } else {
      CreateYieldsDirectory(d, nodes);
    }
  }

  /** create() on a missing file whose parent chain is made and which can be opened: an empty file is added. */
  lemma CreateMissingPut(f: File, nodes: Nodes)
    requires WellFormed(nodes)
    requires Stat(nodes, f.path).Absent?
    requires var made := NewDirectory(Dirname(f.path)).AfterCreate(nodes);
      made.outcome == Pass && PutOk(made.nodes, f.path)
    ensures var e := f.AfterCreate(nodes);
      && e.outcome == Pass
      && WellFormed(e.nodes)
      && Stat(e.nodes, f.path) == IsFile("")
      && (forall q | q in nodes :: q in e.nodes && e.nodes[q] == nodes[q])
  {
    var d := NewDirectory(Dirname(f.path));
    var made := d.AfterCreate(nodes);
    var p := Resolve(f.path);
    CreateYieldsDirectory(d, nodes);
    PutWellFormed(made.nodes, p, "");
    PutMakesFile(made.nodes, f.path, "");
    AbsentHasNoEntry(nodes, f.path);
  }

  /** create() on a missing file whose parent chain is made but which cannot be opened fails and leaves no file there. */
  lemma CreateMissingRefused(f: File, nodes: Nodes)
    requires WellFormed(nodes)
    requires Stat(nodes, f.path).Absent?
    requires var made := NewDirectory(Dirname(f.path)).AfterCreate(nodes);
      made.outcome == Pass && !PutOk(made.nodes, f.path)
    ensures var e := f.AfterCreate(nodes);
      && e.outcome.Fail?
      && WellFormed(e.nodes)
      && !Stat(e.nodes, f.path).IsFile?
      && (forall q | q in nodes :: q in e.nodes && e.nodes[q] == nodes[q])
  {
    var d := NewDirectory(Dirname(f.path));
    var made := d.AfterCreate(nodes);
    var p := Resolve(f.path);
    CreateYieldsDirectory(d, nodes);
    if f.path != "" && p != [] && p in made.nodes && made.nodes[p].File? {
      assert p in nodes;
    }
  }

  /**
   * create() succeeds on a missing file whose path is 'd/name', when d can be
   * created as a directory (no regular file on its way) and name is a
   * storable entry name.
   */
  lemma CreateInPlace(f: File, nodes: Nodes, d: string, name: string)
    requires WellFormed(nodes)
    requires d != "" && d[|d| - 1] !in SlashChars && Storable(name)
    requires f.path == d + [Separator] + name
    requires f.Exists(nodes) == Ok(false)
    requires StorablePath(Resolve(d)) && !FileOnPath(nodes, Resolve(d))
    ensures f.AfterCreate(nodes).outcome == Pass
  {
    var pd := Resolve(d);
    var p := Resolve(f.path);
    DirnameChild(d, name);
    ChildPath(d, name);
    assert NewDirectory(Dirname(f.path)) == Directory(d);
    ParentCreated(nodes, d, name);
    AbsentHasNoEntry(nodes, f.path);
    ChildPutOk(Directory(d).AfterCreate(nodes).nodes, d, name);
  }

  /** The directory d, with no file on its way, is created; the entry d/name is not among the ones it adds. */
  lemma ParentCreated(nodes: Nodes, d: string, name: string)
    requires WellFormed(nodes)
    requires d != "" && d[|d| - 1] !in SlashChars
    requires StorablePath(Resolve(d)) && !FileOnPath(nodes, Resolve(d))
    ensures var pd := Resolve(d);
      var made := Directory(d).AfterCreate(nodes);
      && made.outcome == Pass
      && WellFormed(made.nodes)
      && (pd != [] ==> pd in made.nodes && made.nodes[pd].Dir?)
      && (pd + [name] in made.nodes ==> pd + [name] in nodes && made.nodes[pd + [name]] == nodes[pd + [name]])
  {
    var dir := Directory(d);
    var pd := Resolve(d);
    if pd != [] && pd in nodes {
      assert pd[..|pd|] == pd;
    }
    CreateYieldsDirectory(dir, nodes);
    var made := dir.AfterCreate(nodes);
    if pd != [] && pd !in nodes && pd + [name] in made.nodes {
      assert made.nodes == MkdirAll(nodes, pd);
      assert pd + [name] !in Prefixes(pd);
    }
    if pd != [] {
      assert pd[..|pd|] == pd;
    }
  }

  /** open(d/name, 'w') succeeds once d is a directory and nothing is at d/name. */
  lemma ChildPutOk(made: Nodes, d: string, name: string)
    requires Storable(name) && StorablePath(Resolve(d))
    requires Resolve(d) != [] ==> Resolve(d) in made && made[Resolve(d)].Dir?
    requires Resolve(d) + [name] !in made
    ensures PutOk(made, d + [Separator] + name)
  {
    var pd := Resolve(d);
    var p := pd + [name];
    ChildResolves(d, name);
    ChildLastPiece(d, name);
    assert Parent(p) == pd;
    assert StorablePath(p) by {
      assert forall i | 0 <= i < |pd| :: p[i] == pd[i];
    }
  }

  /** touch() leaves a regular file at the path, or fails; an existing file is untouched. */
  lemma TouchYieldsFile(f: File, nodes: Nodes)
    requires WellFormed(nodes)
    ensures var e := f.AfterTouch(nodes);
      && WellFormed(e.nodes)
      && (e.outcome == Pass <==> f.Exists(e.nodes) == Ok(true))
      && (f.Exists(nodes) == Ok(true) ==> e == Effect(Pass, nodes))
      && (f.Exists(nodes).Err? ==> e == Effect(Fail(NotAFile(f.path)), nodes))
  {
    CreateYieldsFile(f, nodes);
  }

  /**
   * read() succeeds exactly on an existing regular file; a missing file fails
   * with the 404 "does not exist", a directory with "not a file".
   */
  lemma ReadOutcome(f: File, nodes: Nodes)
    ensures f.Read(nodes).Ok? <==> f.Exists(nodes) == Ok(true)
    ensures f.Exists(nodes) == Ok(false) ==> f.Read(nodes) == Err(NotFound(f.path))
    ensures f.Read(nodes).Err? ==> (Code(f.Read(nodes).error) == 404 <==> f.Exists(nodes) == Ok(false))
  {
  }

  /**
   * A write(v) that succeeds leaves a regular file holding exactly the
   * encoded value; one fwrite() refuses leaves the file there but empty;
   * every other entry that existed is unchanged.
   */
  lemma WriteReplacesContent(f: File, nodes: Nodes, v: Value)
    requires WellFormed(nodes)
    ensures var e := f.AfterWrite(nodes, v);
      && WellFormed(e.nodes)
      && (e.outcome == Pass <==> f.Encodable(v) && f.AfterCreate(nodes).outcome == Pass)
      && (e.outcome == Pass ==> Stat(e.nodes, f.path) == IsFile(f.Encode(v)))
      && (forall q | q in nodes && q != Resolve(f.path) :: q in e.nodes && e.nodes[q] == nodes[q])
      && (f.Exists(nodes).Err? ==> e == Effect(Fail(NotAFile(f.path)), nodes))
      && (f.Exists(nodes) == Ok(true) ==> e.outcome == Pass || e == Effect(Fail(WriteTypeError), nodes[Resolve(f.path) := Node.File("")]))
      && (!f.Encodable(v) && f.AfterCreate(nodes).outcome == Pass ==>
            e.outcome == Fail(WriteTypeError) && Stat(e.nodes, f.path) == IsFile(""))
  {
    if f.Exists(nodes).Ok? {
      CreateYieldsFile(f, nodes);
      var made := if f.Exists(nodes).value then Effect(Pass, nodes) else f.AfterCreate(nodes);
      if made.outcome == Pass {
        WriteOverFile(f, made.nodes, v);
      }
    }
  }

  /** The open-and-write that write(v) ends with, on a regular file. */
  lemma WriteOverFile(f: File, nodes: Nodes, v: Value)
    requires WellFormed(nodes) && f.Exists(nodes) == Ok(true)
    ensures var content := if f.Encodable(v) then f.Encode(v) else "";
      var after := nodes[Resolve(f.path) := Node.File(content)];
      && WellFormed(after)
      && Stat(after, f.path) == IsFile(content)
      && (forall q | q in nodes && q != Resolve(f.path) :: q in after && after[q] == nodes[q])
  {
    var content := if f.Encodable(v) then f.Encode(v) else "";
    ExistingFileIsWritable(f, nodes);
    PutMakesFile(nodes, f.path, content);
    PutWellFormed(nodes, Resolve(f.path), content);
  }

  /** write(v) then read() gives v back, whenever the serializer round-trips (or strings are stored raw). */
  lemma WriteThenRead(f: File, nodes: Nodes, v: Value)
    requires WellFormed(nodes)
    requires (f.serializer.Some? && RoundTrips(f.serializer.value)) || (f.serializer.None? && v.Str?)
    requires f.AfterWrite(nodes, v).outcome == Pass
    ensures f.Read(f.AfterWrite(nodes, v).nodes) == Ok(v)
  {
    WriteReplacesContent(f, nodes, v);
  }

  /**
   * delete() fails only on a directory, and then changes nothing; otherwise
   * the file is gone afterwards and every other entry is unchanged.
   */
  lemma DeleteRemovesFile(f: File, nodes: Nodes)
    requires WellFormed(nodes)
    ensures var e := f.AfterDelete(nodes);
      && WellFormed(e.nodes)
      && (e.outcome == Pass <==> f.Exists(nodes).Ok?)
      && (e.outcome == Pass ==> f.Exists(e.nodes) == Ok(false))
      && (e.outcome.Fail? ==> e == Effect(Fail(DeleteFailed(f.path)), nodes))
      && (forall q | q in nodes && q != Resolve(f.path) :: q in e.nodes && e.nodes[q] == nodes[q])
      && (forall q | q in e.nodes :: q in nodes)
  {
    var p := Resolve(f.path);
    if UnlinkOk(nodes, f.path) {
      NothingBelowFile(nodes, p);
      RemoveLeafWellFormed(nodes, p);
    }
  }

  /** Deleting a file that exists removes exactly its entry. */
  lemma DeletePresentFile(f: File, nodes: Nodes)
    requires WellFormed(nodes) && f.Exists(nodes) == Ok(true)
    ensures var p := Resolve(f.path);
      && p in nodes && nodes[p].File?
      && f.AfterDelete(nodes) == Effect(Pass, nodes - {p})
      && WellFormed(nodes - {p})
      && f.Exists(nodes - {p}) == Ok(false)
  {
    var p := Resolve(f.path);
    NothingBelowFile(nodes, p);
    RemoveLeafWellFormed(nodes, p);
  }

  /** Deleting a file twice: the second delete() changes nothing and succeeds. */
  lemma DeleteIdempotent(f: File, nodes: Nodes)
    requires WellFormed(nodes)
    requires f.AfterDelete(nodes).outcome == Pass
    ensures var after := f.AfterDelete(nodes).nodes;
      f.AfterDelete(after) == Effect(Pass, after)
  {
    DeleteRemovesFile(f, nodes);
  }
}
