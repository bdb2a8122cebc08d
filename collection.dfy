/**
 * The collection store: a key-value store addressed either by a key string
 * or by an item, whose key the collection's identifier derives.
 */
module CollectionStorage {
  import opened Paths
  import opened Errors
  import opened Values
  import opened Os
  import opened KeyValue
  import BlobFile
  import opened CollectionEntry
  import opened CollectionIdentifier

  /** A PHP array key. */
  datatype ArrayKey = IntKey(i: int) | StrKey(s: string)

  /** array_is_list: the keys are 0, 1, 2, ... in order. */
  predicate IsList(keys: seq<ArrayKey>)
  {
    forall i | 0 <= i < |keys| :: keys[i] == IntKey(i)
  }

  /**
   * The identifiers array handed to the constructor: its keys in order, and
   * the pattern and parser it spreads into the Identifier constructor.
   */
  datatype IdentifierArgs = IdentifierArgs(keys: seq<ArrayKey>, pattern: string, parser: Parser)

  /** What get, has and delete accept: a key string, or an item (array or object) given by its fields. */
  datatype Subject = ByKey(key: string) | ByItem(fields: map<string, Value>)

  /** What store reports and leaves behind. */
  datatype Stored = Stored(result: Result<string>, nodes: Nodes)

  datatype Collection = Collection(identifiers: Identifier, storage: Store)
  {
    /**
     * identifiersKeyValue(subject): a key string is the entry (key, null); an
     * item is parsed by the identifier.
     */
    function KeyValue(subject: Subject): (r: Result<Entry>)
      ensures subject.ByKey? ==> r == Ok(Entry(subject.key, Null))
      ensures subject.ByItem? ==> r == identifiers.Parse(subject.fields)
    {
      match subject
      case ByKey(k) => Ok(Entry(k, Null))
      case ByItem(fields) => identifiers.Parse(fields)
    }

    /** get(subject): the value stored under the subject's key. */
    function Get(nodes: Nodes, subject: Subject): (r: Result<Value>)
      ensures KeyValue(subject).Err? ==> r == Err(KeyValue(subject).error)
      ensures r.Ok? <==> KeyValue(subject).Ok? && storage.Has(nodes, KeyValue(subject).value.key) == Ok(true)
      ensures subject.ByKey? && r.Err? && Code(r.error) == 404 ==> storage.Has(nodes, subject.key) == Ok(false)
      ensures KeyValue(subject).Ok? ==> r == storage.Get(nodes, KeyValue(subject).value.key)
    {
      match KeyValue(subject)
      case Err(e) => Err(e)
      case Ok(entry) => storage.Get(nodes, entry.key)
    }

    /** has(subject): whether a value is stored under the subject's key. */
    function Has(nodes: Nodes, subject: Subject): (r: Result<bool>)
      ensures KeyValue(subject).Err? ==> r == Err(KeyValue(subject).error)
      ensures r == Ok(true) <==> KeyValue(subject).Ok? && Stat(nodes, storage.FileForKey(KeyValue(subject).value.key).path).IsFile?
    {
      match KeyValue(subject)
      case Err(e) => Err(e)
      case Ok(entry) => storage.Has(nodes, entry.key)
    }

    /** What store(item) reports and leaves behind: the parsed fields written under the parsed key. */
    function AfterStore(nodes: Nodes, item: map<string, Value>): Stored
    {
      match KeyValue(ByItem(item))
      case Err(e) => Stored(Err(e), nodes)
      case Ok(entry) =>
        var w := storage.FileForKey(entry.key).AfterWrite(nodes, entry.value);
        Stored(if w.outcome.Fail? then Err(w.outcome.error) else Ok(entry.key), w.nodes)
    }

    /** store(item): the item's key, after its parsed fields are set under it. */
    method Store(fs: FileSystem, item: map<string, Value>) returns (r: Result<string>)
      modifies fs
      requires fs.Valid()
      ensures fs.Valid()
      ensures Stored(r, fs.nodes) == AfterStore(old(fs.nodes), item)
    {
      var entry := KeyValue(ByItem(item));
      if entry.Err? {
        return Err(entry.error);
      }
      var o := storage.Set(fs, entry.value.key, entry.value.value);
      r := if o.Fail? then Err(o.error) else Ok(entry.value.key);
    }

    /** What delete(subject) reports and leaves behind. */
    function AfterDelete(nodes: Nodes, subject: Subject): Effect
    {
      match KeyValue(subject)
      case Err(e) => Effect(Fail(e), nodes)
      case Ok(entry) => storage.AfterDelete(nodes, entry.key)
    }

    /** delete(subject): the subject's key deleted from the key-value store. */
    method Delete(fs: FileSystem, subject: Subject) returns (o: Outcome)
      modifies fs
      requires fs.Valid()
      ensures fs.Valid()
      ensures Effect(o, fs.nodes) == AfterDelete(old(fs.nodes), subject)
    {
      var entry := KeyValue(subject);
      if entry.Err? {
        return Fail(entry.error);
      }
      o := storage.Delete(fs, entry.value.key);
    }

    /** all(): the key-value store's keys. */
    function All(nodes: Nodes): (r: Result<set<string>>)
      ensures r == storage.Keys(nodes)
      ensures storage.storage.Directory().Exists(nodes) == Ok(false) ==> r == Ok({})
      ensures r.Err? ==> r.error == NotADirectory(storage.storage.Directory().path)
    {
      storage.Keys(nodes)
    }

    /** purge(): the key-value store purged. */
    method Purge(fs: FileSystem) returns (o: Outcome)
      modifies fs
      requires fs.Valid()
      ensures fs.Valid()
      ensures Effect(o, fs.nodes) == storage.storage.Directory().AfterDelete(old(fs.nodes))
    {
      o := storage.Purge(fs);
    }
  }

  /**
   * new Storage(identifiers, storage): refused unless the identifiers array is
   * a list; otherwise the identifier compiled from its pattern and parser.
   */
  function NewCollection(args: IdentifierArgs, kv: Store): (r: Result<Collection>)
    ensures !IsList(args.keys) ==> r == Err(IdentifiersNotList)
    ensures IsList(args.keys) ==> (r.Ok? <==> NewIdentifier(args.pattern, args.parser).Ok?)
    ensures r.Ok? ==> r.value.storage == kv && r.value.identifiers.Compiled()
    ensures r.Ok? ==> r.value.identifiers == NewIdentifier(args.pattern, args.parser).value
    ensures r.Err? && IsList(args.keys) ==> r.error == InvalidPattern
  {
    if !IsList(args.keys) then Err(IdentifiersNotList)
    else
      match NewIdentifier(args.pattern, args.parser)
      case Err(e) => Err(e)
      case Ok(id) => Ok(Collection(id, kv))
  }

  // ---------------------------------------------------------------------
  // Properties
  // ---------------------------------------------------------------------

  /** An item and the key it parses to address the same stored value, for get, has and delete alike. */
  lemma ItemAndKeyAgree(c: Collection, nodes: Nodes, item: map<string, Value>)
    requires c.KeyValue(ByItem(item)).Ok?
    ensures var k := c.KeyValue(ByItem(item)).value.key;
      && c.Get(nodes, ByItem(item)) == c.Get(nodes, ByKey(k))
      && c.Has(nodes, ByItem(item)) == c.Has(nodes, ByKey(k))
      && c.AfterDelete(nodes, ByItem(item)) == c.AfterDelete(nodes, ByKey(k))
  {
  }

  /**
   * After a successful store(item), the returned key is the item's parsed
   * key, get(key) gives back the parsed fields and has(key) is true.
   */
  lemma StoreThenGet(c: Collection, nodes: Nodes, item: map<string, Value>)
    requires WellFormed(nodes) && RoundTrips(c.storage.serializer)
    requires c.AfterStore(nodes, item).result.Ok?
    ensures var s := c.AfterStore(nodes, item);
      var key := s.result.value;
      && c.identifiers.parser(item).Ok?
      && key == c.identifiers.Parse(item).value.key
      && c.Get(s.nodes, ByKey(key)) == Ok(Record(c.identifiers.parser(item).value))
      && c.Get(s.nodes, ByItem(item)) == Ok(Record(c.identifiers.parser(item).value))
      && c.Has(s.nodes, ByKey(key)) == Ok(true)
  {
    var entry := c.KeyValue(ByItem(item)).value;
    SetThenGet(c.storage, nodes, entry.key, entry.value);
  }

  /** store fails exactly with the parser's exception when the parser throws, and changes nothing. */
  lemma StoreParserFails(c: Collection, nodes: Nodes, item: map<string, Value>)
    requires c.identifiers.parser(item).Err?
    ensures c.AfterStore(nodes, item) == Stored(Err(c.identifiers.parser(item).error), nodes)
  {
  }

  /** Storing an item whose key is already present always succeeds and changes no other entry. */
  lemma StoreOverwrites(c: Collection, nodes: Nodes, item: map<string, Value>)
    requires WellFormed(nodes)
    requires c.Has(nodes, ByItem(item)) == Ok(true)
    ensures var s := c.AfterStore(nodes, item);
      var key := c.KeyValue(ByItem(item)).value.key;
      && s.result == Ok(key)
      && forall q | q in nodes && q != Resolve(c.storage.FileForKey(key).path) :: q in s.nodes && s.nodes[q] == nodes[q]
  {
    var entry := c.KeyValue(ByItem(item)).value;
    SetExisting(c.storage, nodes, entry.key, entry.value);
  }

  /** get of a key that is not stored fails with the 404 for its file. */
  lemma GetMissing(c: Collection, nodes: Nodes, key: string)
    requires c.Has(nodes, ByKey(key)) == Ok(false)
    ensures c.Get(nodes, ByKey(key)) == Err(NotFound(c.storage.storage.path + [Separator] + key + "." + c.storage.serializer.extension))
    ensures Code(c.Get(nodes, ByKey(key)).error) == 404
  {
    KeyValue.GetMissing(c.storage, nodes, key);
  }

  /** After a successful delete, has is false, and deleting again succeeds and changes nothing. */
  lemma DeleteTwice(c: Collection, nodes: Nodes, subject: Subject)
    requires WellFormed(nodes)
    requires c.AfterDelete(nodes, subject).outcome == Pass
    ensures var after := c.AfterDelete(nodes, subject).nodes;
      && c.Has(after, subject) == Ok(false)
      && c.AfterDelete(after, subject) == Effect(Pass, after)
  {
    var key := c.KeyValue(subject).value.key;
    DeleteThenHas(c.storage, nodes, key);
    KeyValue.DeleteTwice(c.storage, nodes, key);
  }

  /** After a successful purge, all() is empty. */
  lemma PurgeThenAll(c: Collection, nodes: Nodes)
    requires WellFormed(nodes)
    ensures var e := c.storage.storage.Directory().AfterDelete(nodes);
      e.outcome == Pass ==> c.All(e.nodes) == Ok({})
  {
    PurgeThenKeys(c.storage, nodes);
  }

  /**
   * all() lists the key store() returned, whenever the store's root handle
   * names its root and the key's file name is storable.
   */
  lemma StoreThenAll(c: Collection, nodes: Nodes, item: map<string, Value>)
    requires WellFormed(nodes) && HandleAgrees(c.storage.storage.path)
    requires Separator !in c.storage.serializer.extension
    requires c.AfterStore(nodes, item).result.Ok?
    requires StorableName(c.AfterStore(nodes, item).result.value + "." + c.storage.serializer.extension)
    ensures var s := c.AfterStore(nodes, item);
      c.All(s.nodes).Ok? && s.result.value in c.All(s.nodes).value
  {
    var entry := c.KeyValue(ByItem(item)).value;
    var s := c.AfterStore(nodes, item);
    BlobFile.WriteReplacesContent(c.storage.FileForKey(entry.key), nodes, entry.value);
    assert c.storage.Has(s.nodes, entry.key) == Ok(true);
    KeysComplete(c.storage, s.nodes, entry.key);
  }

  /** An identifiers array with a string key, or keys out of order, is refused. */
  lemma NotAListRefused(kv: Store, pattern: string, parser: Parser)
    ensures NewCollection(IdentifierArgs([IntKey(0), StrKey("parser")], pattern, parser), kv) == Err(IdentifiersNotList)
    ensures NewCollection(IdentifierArgs([IntKey(1), IntKey(0)], pattern, parser), kv) == Err(IdentifiersNotList)
  {
    assert [IntKey(0), StrKey("parser")][1] != IntKey(1);
    assert [IntKey(1), IntKey(0)][0] != IntKey(0);
  }
}
