# file-system-storage, modelled in Dafny

A model of the storage layers of the `attitude/file-system-storage` PHP
library, with proofs about it. The library keeps values as files on disk, in
three layers:

- **Blob** (`src/Blob`). `Directory` and `File` are handles on a path. A
  directory has `exists`, `create` (`mkdir -p`), a recursive `list` of its
  regular files and a recursive `delete`. A file has `exists`, `create`,
  `touch`, `read`, `write` (through an optional serializer) and `delete`.
  `Storage` is a root directory that is created on construction. It hands out
  files below the root, lists them, purges them, and has `clearParents`: after
  a file is deleted, `clearParents` walks up from the file's directory and
  deletes every directory that holds nothing but files safe to ignore
  (`.DS_Store`, `Thumbs.db`, ...).
- **KeyValue** (`src/KeyValue/Storage.php`). A blob storage rooted at
  `dir/namespace`. It holds one file `root/<key>.<extension>` per key, whose
  whole content is the serialized value. Its operations are `get`, `set`,
  `delete` (which also clears the parents), `has`, `keys` and `purge`.
- **Collection** (`src/Collection`). A key-value store addressed either by a
  key string or by an item. An `Identifier` compiles a pattern such as
  `posts/{year}/{month}/{slug}-{id}` into its placeholders. It derives an
  item's key by running the item through a parser closure and substituting
  the parsed fields into the pattern (`str_replace`). An `Entry` is the
  immutable pair (key, value) that the parsing yields.

## How the model is built

- **The filesystem** (`os.dfy`) is the one piece of mutable state. It is a
  class `Os.FileSystem` whose field `nodes` maps resolved paths (sequences of
  names) to a directory or a file with its content.
  - The PHP built-ins the library calls are methods of this class, each with
    a predicate that says exactly when it succeeds: `mkdir(…, true)`,
    `fopen`+`fwrite`, `unlink` and `rmdir`.
  - `file_exists`, `is_dir`, `scandir` and `file_get_contents` are functions
    that read `nodes`.
- **The handles and storages** (Directory, File, Storage, Store, Identifier,
  Entry, Collection) are immutable datatypes, as their `readonly` / constructor
  only fields are in PHP.
- **Queries** are functions of the filesystem state.
- **Every operation that changes the disk** is a method with
  `modifies fs`. It is proved against a specification function
  (`AfterCreate`, `AfterWrite`, `AfterDelete`, `ClearWalk`, `AfterStore`, …)
  that gives the outcome (success or the exception thrown) and the new state.
  The lemmas then prove what the library promises about those functions.
- **Loops** are kept as loops:
  - The `foreach` of `Directory::delete` is the method
    `BlobDirectory.Directory.DeleteChildren`. It recurses into sub-directories
    through `Delete`.
  - The `while` of `clearParents` is a loop in `BlobStorage.Storage.ClearParents`.
- **Exceptions** become `Err`/`Fail` values, with the message's data and the
  code (`Errors.Code`).

Some behaviours of the code are worth knowing, and the model proves them:

- **A key directly in the root.** `clearParents` for a file directly in the
  root examines `root/` (the empty segment after the root). That trims back to
  the root itself. So deleting the last key of a flat store removes the
  store's root directory, even when ignorable files such as `.DS_Store` are
  left in it (`KeyValue.FlatDeletePrunesRoot`). Deleting the last key
  `sub/leaf` removes `root/sub` and keeps the root
  (`KeyValue.NestedDeletePrunesDir`).
- **An empty namespace.** The root is `dir/`. A key's file is then
  `dir//<key>.<ext>`, whose `dirname` is `dir`, and `dir` does not start with
  `dir/`. So `delete` removes the file and then throws "not in storage"
  (`KeyValue.EmptyNamespaceDeleteFails`).
- **`keys()` does not need the dot.** Its filter only asks that a name end
  with the extension, with no dot before it, but it always strips the
  extension plus one more character. So a stray file `notesjson` yields the
  key `note`. `KeyValue.KeyOfListedName` states exactly when a listed name
  maps back to its own file.
- **`delete()` on the working directory fails.** It empties the directory
  first, then `rmdir` refuses a path that ends in `.`
  (`BlobDirectory.DeleteRemovesTree`).

## Model

| member | source | states |
|---|---|---|
| Os.FileSystem.Mkdir | src/Blob/Directory.php:69 | mkdir -p succeeds exactly on a new, storable path with no regular file on its way, and then adds the path and its missing ancestors as directories; otherwise nothing changes |
| Os.FileSystem.Put | src/Blob/File.php:168-180 | opening for writing succeeds exactly when the path names a non-directory whose parent directory exists, and then the file's whole content becomes the written text; otherwise nothing changes |
| Os.FileSystem.Unlink | src/Blob/File.php:196 | unlink succeeds exactly on a regular file and removes just that entry |
| Os.FileSystem.Rmdir | src/Blob/Directory.php:157 | rmdir succeeds exactly on an empty directory not named by '.' or '', and removes just that entry |
| Paths.RTrim | src/Blob/Directory.php:24 | rtrim: the result is a prefix of the input, does not end in a trimmed character, and only trimmed characters were dropped |
| Paths.Trim | src/KeyValue/Storage.php:48 | trim leaves no character of the set at either end of the result (what it removes, and from where, is Paths.TrimSpec) |
| Paths.TrimSpec | src/KeyValue/Storage.php:48 | trim: the result is the input with characters of the set removed from its two ends and nowhere else, and it neither starts nor ends with one of them |
| Paths.TrimmedTwice | src/Collection/Identifier.php:34 | trimming one set and then another removes only characters of either set, and only from the two ends |
| Paths.Split | src/Blob/Storage.php:96 | explode('/'): at least one piece, none containing the separator |
| Paths.JoinSplit | src/Blob/Storage.php:96-101 | implode('/', explode('/', s)) gives s back |
| Paths.SplitJoin | src/Blob/Storage.php:96-101 | explode('/', implode('/', segs)) gives the segments back when none contains the separator |
| Paths.DirnameChild | src/Blob/Storage.php:89 | dirname('d/name') is d for a d that does not end in '/' |
| Paths.DirnameDoubleSeparator | src/Blob/Storage.php:89-91 | dirname('d//name') is d: the doubled separator goes with the last name |
| Paths.Substr | src/Blob/Storage.php:95 | substr(s, start): the rest of s after start characters, '' past the end |
| Errors.Code | src/Blob/File.php:150 | the code each exception carries is 0, 400, 404 or 500, and only the "does not exist" exception carries 404 |
| BlobDirectory.NewDirectory | src/Blob/Directory.php:23-25 | the stored path is the given path with exactly its trailing '/' and '\' removed |
| BlobDirectory.DirectoryExistsMeaning | src/Blob/Directory.php:39-51 | exists() is true exactly when the path resolves to the working directory or to a directory entry; it fails with "not a directory" exactly when a regular file is found there |
| BlobDirectory.Directory.Create | src/Blob/Directory.php:59-77 | the outcome and the new filesystem are those of create(): an existing directory is kept, a file at the path fails with "not a directory", otherwise mkdir -p or "failed to create" |
| BlobDirectory.CreateYieldsDirectory | src/Blob/Directory.php:59-77 | create() succeeds exactly when a directory is there afterwards; a failure changes nothing; nothing that existed is changed; everything added is a directory; on success every ancestor is a directory |
| BlobDirectory.CreateIdempotent | src/Blob/Directory.php:60-64 | a second create() succeeds and changes nothing |
| BlobDirectory.Directory.List | src/Blob/Directory.php:101-127 | list() succeeds exactly when exists() does, a missing directory lists nothing, and a regular file at the path fails with "not a directory" |
| BlobDirectory.ListIsKeptFiles | src/Blob/Directory.php:101-127 | list(filter) of an existing directory is exactly the relative, '/'-joined paths of the regular files below it whose own name passes the filter; sub-directories are traversed but never listed; a missing directory lists nothing; a file at the path fails |
| BlobDirectory.ListedPathsAreFiles | src/Blob/Directory.php:106-121 | every listed path, appended to the directory, names a regular file whose name passes the filter |
| BlobDirectory.ListEmptyIff | src/Blob/Directory.php:101-127 | the listing is empty exactly when no kept file lies below the directory |
| BlobDirectory.Directory.Delete | src/Blob/Directory.php:139-165 | the outcome and the new filesystem are those of delete(): a missing directory is left alone; otherwise everything below is removed and then the directory itself |
| BlobDirectory.Directory.DeleteChildren | src/Blob/Directory.php:144-155 | the foreach loop removes every entry of the directory, sub-directories with all they hold, in whatever order scandir gives |
| BlobDirectory.DeleteRemovesTree | src/Blob/Directory.php:139-165 | delete() succeeds exactly on a missing directory or an existing one not resolving to '.'; on success nothing is left at or below the path; entries outside it never change and nothing is added |
| BlobDirectory.DeleteIdempotent | src/Blob/Directory.php:140-164 | deleting a deleted directory succeeds and changes nothing |
| BlobFile.FileExistsMeaning | src/Blob/File.php:40-52 | exists() is true exactly when a regular file entry is found through a path that can name a file; it fails with "not a file" exactly when the path resolves to a directory |
| BlobFile.File.Create | src/Blob/File.php:67-98 | the outcome and the new filesystem are those of create(): an existing file is kept, a directory fails with "not a file", otherwise the parent chain is created and then an empty file |
| BlobFile.CreateYieldsFile | src/Blob/File.php:67-98 | create() succeeds exactly when a regular file is there afterwards; an existing file keeps its content; a file it creates is empty; nothing that existed is changed |
| BlobFile.CreateInPlace | src/Blob/File.php:77-97 | create() of 'd/name' succeeds whenever d can be created as a directory and name can be a file name |
| BlobFile.File.Touch | src/Blob/File.php:108-120 | touch() is create() for a missing file and changes nothing for an existing one |
| BlobFile.TouchYieldsFile | src/Blob/File.php:108-120 | touch() succeeds exactly when a regular file is there afterwards; an existing file is untouched; a directory fails with "not a file" |
| BlobFile.File.Read | src/Blob/File.php:129-152 | read() succeeds exactly on an existing regular file and gives its content deserialized (raw without a serializer); otherwise "not a file" for a directory and "does not exist" for a missing file |
| BlobFile.ReadOutcome | src/Blob/File.php:129-152 | read() succeeds exactly on an existing regular file; a missing file fails with the 404 "does not exist" and nothing else carries 404 |
| BlobFile.File.Write | src/Blob/File.php:163-186 | the outcome and the new filesystem are those of write(v): a missing file is created first, then its whole content becomes the serialized value (or the string itself without a serializer); a non-string value without a serializer leaves the file emptied by fopen 'w' and fails with fwrite's TypeError |
| BlobFile.WriteReplacesContent | src/Blob/File.php:163-186 | write succeeds exactly when create() would and the value can be written; a successful write leaves exactly the encoded value in the file; a value fwrite refuses leaves the file empty and fails with the TypeError; writing an existing file succeeds unless the value is refused; a directory fails with "not a file"; no other entry changes |
| BlobFile.WriteThenRead | src/Blob/File.php:129-186 | write(v) then read() gives v back under a round-tripping serializer, or for a string without a serializer |
| BlobFile.File.Delete | src/Blob/File.php:194-206 | the outcome and the new filesystem are those of delete(): a missing file is left alone, otherwise unlink |
| BlobFile.DeleteRemovesFile | src/Blob/File.php:194-206 | delete() fails only on a directory, and then changes nothing; otherwise the file is gone and no other entry changes |
| BlobFile.DeleteIdempotent | src/Blob/File.php:194-206 | deleting a deleted file succeeds and changes nothing |
| BlobStorage.Open | src/Blob/Storage.php:24-26 | construction creates the root directory with its ancestors and fails exactly as that create() fails |
| BlobStorage.Storage.File | src/Blob/Storage.php:42-50 | file(name) is 'root/name' with the serializer bound: its path starts with the root and resolves to the root's names followed by the name's |
| BlobStorage.Storage.List | src/Blob/Storage.php:58-60 | list() is the root handle's directory listing, which BlobDirectory.ListIsKeptFiles pins down as exactly the kept regular files below it: empty without a root directory, "not a directory" on a file, and every listed name, below the root handle, a regular file whose own name passes the filter |
| BlobStorage.FileStaysInStorage | src/Blob/Storage.php:42-50 | for a root that does not end in '/' or '\', the parent directory of any file handed out below it starts with the root, so clearParents never reports it outside the storage (an empty-namespace root 'dir/' is the exception: see KeyValue.EmptyNamespaceDeleteFails) |
| BlobStorage.Storage.Purge | src/Blob/Storage.php:65-68 | purge() is the recursive delete of the root directory |
| BlobStorage.PurgeEmpties | src/Blob/Storage.php:58-68 | after a successful purge the storage lists nothing, and purging again succeeds and changes nothing |
| BlobStorage.Storage.ClearParents | src/Blob/Storage.php:85-127 | the result and the new filesystem are those of clearParents: an existing file throws "still exists", a parent outside the root throws "not in storage", otherwise the walk up the parent segments |
| BlobStorage.ClearWalkOnlyPrunes | src/Blob/Storage.php:100-123 | clearParents only prunes: nothing is added or changed; only directories and files safe to ignore are removed, and for a plain root only inside the root |
| BlobStorage.ClearWalkStaysBelow | src/Blob/Storage.php:100-123 | the walk touches nothing outside the directory of the first segment |
| BlobStorage.ClearWalkTrue | src/Blob/Storage.php:100-125 | when clearParents answers true, none of the directories it examined exists any more |
| BlobStorage.ClearWalkFalse | src/Blob/Storage.php:106-120 | when it answers false, it stopped at a directory that is missing or still lists a file not safe to ignore, and that directory and everything above it are as they were |
| BlobStorage.ClearWalkFirstLevel | src/Blob/Storage.php:100-123 | after any walk that answers, its first directory blocks, so running the walk again stops there at once and changes nothing |
| BlobStorage.ClearParentsWalksDirs | src/Blob/Storage.php:89-101 | for a missing file 'root/d1/…/dn/name' the walk examines exactly root/d1/…/dn, then its ancestors up to root/d1 |
| BlobStorage.FlatFileClearsRoot | src/Blob/Storage.php:95-110 | for a missing file directly in the root the directory examined is the root itself, and a root that is empty apart from files safe to ignore is deleted with everything in it |
| KeyValue.RootPath | src/KeyValue/Storage.php:48-53 | the root resolves to the trimmed directory's names followed by the trimmed namespace's names ('.' adds none) |
| KeyValue.Open | src/KeyValue/Storage.php:43-56 | construction keeps the trimmed directory and namespace and opens the blob storage on the root path, failing exactly as its create() fails |
| KeyValue.OpenedRootAgrees | src/KeyValue/Storage.php:48-53 | every root a store derives from a non-empty base directory, the empty-namespace root 'dir/' included, has a root handle that is non-empty and names the same entry |
| KeyValue.KeyFilePath | src/KeyValue/Storage.php:73-80 | the key's file resolves to the root's names followed by those of '<key>.<ext>', and dropping |ext|+1 characters from its path leaves 'root/<key>' |
| KeyValue.Store.Get | src/KeyValue/Storage.php:89-91 | get(key) succeeds exactly when has(key) is true, and then gives the file's content deserialized; an absent key is the 404 for its file |
| KeyValue.Store.Has | src/KeyValue/Storage.php:122-124 | has(key) is true exactly when the key's file is a regular file, and fails exactly when it is a directory |
| KeyValue.Store.Keys | src/KeyValue/Storage.php:131-135 | keys() is empty without a root directory and fails with "not a directory" on a file (what it lists: KeysComplete, KeysSound) |
| KeyValue.Store.Set | src/KeyValue/Storage.php:100-102 | set(key, v) is write(v) on the file 'root/key.ext' |
| KeyValue.SetThenGet | src/KeyValue/Storage.php:89-102 | after a successful set(key, v), get(key) gives v back under a round-tripping serializer and has(key) is true |
| KeyValue.SetExisting | src/KeyValue/Storage.php:100-102 | set on a present key always succeeds and changes no other entry |
| KeyValue.GetMissing | src/KeyValue/Storage.php:89-91 | get of an absent key fails with the 404 "File 'root/key.ext' does not exist" |
| KeyValue.Store.Delete | src/KeyValue/Storage.php:110-114 | delete(key) deletes the key's file and then clears its parents, failing as either step fails |
| KeyValue.DeleteShape | src/KeyValue/Storage.php:110-114 | a successful delete removed the key's file, whose parent lies in the root, and then ran the parent walk without error |
| KeyValue.DeleteThenHas | src/KeyValue/Storage.php:110-124 | after a successful delete(key), has(key) is false |
| KeyValue.DeleteTwice | src/KeyValue/Storage.php:110-114 | a second delete of the same key succeeds and changes nothing |
| KeyValue.KeysComplete | src/KeyValue/Storage.php:131-135 | for any root whose handle agrees with it (every opened root, the empty-namespace one included), every present key whose file name is storable is among keys() |
| KeyValue.KeysSound | src/KeyValue/Storage.php:131-135 | for any root whose handle agrees with it, every listed file whose name ends with the extension yields a key and is a regular file in the root |
| KeyValue.KeyOfListedName | src/KeyValue/Storage.php:131-135 | for any root whose handle agrees with it, the key derived from a listed name designates that file exactly when the name ends with '.' and the extension, and then has(key) is true |
| KeyValue.StripExtension | src/KeyValue/Storage.php:134 | dropping |ext|+1 characters and appending '.ext' restores a name exactly when it ends with '.ext' |
| KeyValue.Store.Purge | src/KeyValue/Storage.php:142-144 | purge() is the blob storage's purge |
| KeyValue.PurgeThenKeys | src/KeyValue/Storage.php:131-144 | after a successful purge keys() is empty, and purging again succeeds and changes nothing |
| KeyValue.FlatDeletePrunesRoot | src/KeyValue/Storage.php:110-114 | deleting the only key of a flat store removes the root directory with any ignorable files in it |
| KeyValue.NestedDeleteEffect | src/KeyValue/Storage.php:110-114 | deleting the last key 'sub/leaf' removes 'root/sub' with everything in it and nothing else |
| KeyValue.NestedDeletePrunesDir | src/KeyValue/Storage.php:110-114 | after that delete 'root/sub' is missing and the root is still a directory |
| KeyValue.EmptyNamespaceDeleteFails | src/KeyValue/Storage.php:48-53 | with an empty namespace, delete(key) removes the file and then fails with "Path 'dir' is not in storage 'dir/'" |
| CollectionEntry.Entry.Elements | src/Collection/_Entry.php:17-19 | an entry is the two-element array [key, value] |
| CollectionEntry.Entry.At | src/Collection/_Entry.php:17-19 | offsets 0 and 1 read the key and the value; any other offset reads null |
| CollectionEntry.Entry.Get | src/Collection/_Entry.php:27-32 | the properties 'key' and 'value' read offsets 0 and 1; any other name fails |
| CollectionEntry.Entry.Set | src/Collection/_Entry.php:41-43 | every property write fails with "Entry tuple is immutable" |
| CollectionEntry.UnpacksAsTuple | src/Collection/_Entry.spec.php:18-22 | unpacking gives the key and value back, and two entries that unpack alike are equal |
| CollectionIdentifier.Name | src/Collection/Identifier.php:74-75 | the captured group of a match is the non-empty, '}'-free text between its braces |
| CollectionIdentifier.Tokens | src/Collection/Identifier.php:74 | every match of /\{([^\}]+)\}/ found by the scan is a brace-delimited token |
| CollectionIdentifier.TokensIffMatch | src/Collection/Identifier.php:71-79 | the scan finds a token exactly when the expression matches somewhere in the segment, so getPlaceholderKeys is null exactly then |
| CollectionIdentifier.DedupSpec | src/Collection/Identifier.php:37-41 | merging the segments' token maps keeps every token exactly once, ordered by first appearance |
| CollectionIdentifier.StoredPattern | src/Collection/Identifier.php:34 | the stored pattern neither starts nor ends with '/' (what the trimming removes is CollectionIdentifier.StoredPatternTrimmed) |
| CollectionIdentifier.StoredPatternTrimmed | src/Collection/Identifier.php:34 | the stored pattern is the pattern with only whitespace and '/' removed, and only from its two ends; it neither starts nor ends with '/' |
| CollectionIdentifier.PlaceholdersSpec | src/Collection/Identifier.php:36-41 | the placeholders are the segments' tokens, each once, and there are none exactly when no segment matches |
| CollectionIdentifier.NewIdentifier | src/Collection/Identifier.php:33-49 | the constructor fails with the invalid-pattern exception exactly when no segment has a placeholder; otherwise the stored pattern, the parser, distinct placeholders that are exactly the segments' tokens, in the order of Placeholders (first appearance, as CollectionIdentifier.DedupSpec states), and keys that are their names, position by position |
| CollectionIdentifier.NoPlaceholderRefused | src/Collection/Identifier.spec.php:48-56 | 'posts/' is refused as having no placeholder |
| CollectionIdentifier.FieldTexts | src/Collection/Identifier.php:89 | the replacement of each key is the text of its parsed field, '' when the field is missing |
| CollectionIdentifier.Identifier.Parse | src/Collection/Identifier.php:87-93 | parse fails exactly when the parser throws, with its exception; otherwise the entry's value is the parsed record and its key the pattern with each placeholder replaced by its field's text |
| CollectionIdentifier.ReplaceAbsent | src/Collection/Identifier.php:90 | str_replace of a search string that does not occur leaves the subject unchanged |
| CollectionIdentifier.ReplaceHit | src/Collection/Identifier.php:90 | an occurrence at the front is replaced and the scan resumes after it |
| CollectionIdentifier.ReplaceOtherToken | src/Collection/Identifier.php:90 | a different placeholder at the front is passed over whole |
| CollectionIdentifier.ReplaceFills | src/Collection/Identifier.php:90 | replacing one placeholder of a template by text without '{' fills exactly that placeholder's holes |
| CollectionIdentifier.ReplaceAllFills | src/Collection/Identifier.php:90 | str_replace with arrays of placeholders and '{'-free texts fills every hole of every placeholder with its text, in order |
| CollectionIdentifier.KeyDependsOnNamedFields | src/Collection/Identifier.php:87-93 | the key depends only on the parsed fields that the keys name |
| CollectionIdentifier.PostsExample | src/Collection/Identifier.spec.php:9-46 | the pattern 'posts/{year}/{month}/{slug}-{id}' compiles to the placeholders {year}, {month}, {slug}, {id}, and the fields 2021, 01, hello-world, 1 give the key 'posts/2021/01/hello-world-1' |
| CollectionStorage.NewCollection | src/Collection/Storage.php:25-34 | identifiers that are not a list fail with "The identifiers must be an array."; a list builds the collection exactly when its pattern compiles, holding the key-value store it was given and exactly the identifier compiled from that pattern and parser, and otherwise fails with the invalid-pattern exception |
| CollectionStorage.NotAListRefused | src/Collection/Storage.php:29-33 | identifiers with a string key, or with keys out of order, are refused |
| CollectionStorage.Collection.KeyValue | src/Collection/Storage.php:55-61 | a key string is the entry (key, null); an item is parsed by the identifier |
| CollectionStorage.Collection.Get | src/Collection/Storage.php:69-71 | get(subject) passes on the parser's error, and otherwise is the key-value store's get of the subject's key (the deserialized content, see KeyValue.Store.Get): it succeeds exactly when the store has that key, and a 404 by key means the key is absent |
| CollectionStorage.Collection.Has | src/Collection/Storage.php:102-104 | has(subject) passes on the parser's error, and is otherwise true exactly when the subject's key file is a regular file |
| CollectionStorage.Collection.All | src/Collection/Storage.php:111-113 | all() is the key-value store's keys(), so KeyValue.KeysComplete and KeyValue.KeysSound describe what it lists; it is empty without a root directory and fails with "not a directory" on a file |
| CollectionStorage.StoreThenAll | src/Collection/Storage.spec.php:60-65 | after a successful store(item), all() lists the key store returned, whenever the root handle names the root and the key's file name is storable |
| CollectionStorage.ItemAndKeyAgree | src/Collection/Storage.php:69-104 | an item and the key it parses to address the same value for get, has and delete |
| CollectionStorage.Collection.Store | src/Collection/Storage.php:79-84 | store(item) parses the item, sets the parsed fields under the parsed key and returns that key; a parser error or a write error is the result |
| CollectionStorage.StoreThenGet | src/Collection/Storage.php:69-84 | after a successful store the returned key is the item's parsed key, get by that key or by the item gives the parsed record, and has(key) is true |
| CollectionStorage.StoreParserFails | src/Collection/Storage.php:79-80 | a parser that throws makes store fail with its exception and change nothing |
| CollectionStorage.StoreOverwrites | src/Collection/Storage.php:79-84 | storing an item whose key is present always succeeds and changes no other entry |
| CollectionStorage.GetMissing | src/Collection/Storage.spec.php:55-58 | get of a key that is not stored fails with the 404 for 'root/key.ext' |
| CollectionStorage.Collection.Delete | src/Collection/Storage.php:92-94 | delete(subject) is the key-value delete of the subject's key, or the parser's error |
| CollectionStorage.DeleteTwice | src/Collection/Storage.spec.php:48-53 | after a successful delete has is false, and deleting again succeeds and changes nothing |
| CollectionStorage.Collection.Purge | src/Collection/Storage.php:120-122 | purge() is the key-value store's purge |
| CollectionStorage.PurgeThenAll | src/Collection/Storage.spec.php:67-79 | after a successful purge all() is empty |

## Left out

- Logging (`LoggerAwareTrait`) and the `@codeCoverageIgnore` log lines have no effect on state, so they are not modelled.
- File locking is not modelled, and neither is concurrency: the filesystem changes only through the calls modelled here.
- Timestamps are not modelled. `touch($mtime, $atime)` is modelled for its effect on existence and content only.
- OS failures beyond the modelled ones are not modelled: a full disk, permissions, short writes, and `fopen`/`fread` failing on a readable file. The success predicates of `Os` describe a filesystem that never fails for those reasons.
- The concrete serializers (`JSONSerializer`, `PHPSerializer`) are not part of this model. A serializer is a pair of functions plus its extension, and the properties assume only that it round-trips.
- BlobDirectory.Directory.List: returns a set, so scandir's ascending order and the order of concatenation are not modelled; neither is the order of `keys()` and `all()`.
- The separator is '/'. The Windows `DIRECTORY_SEPARATOR` is not modelled; '\' is only trimmed where the code trims it.
- Paths are resolved relative to one working directory, so an absolute path and a relative one with the same names designate the same entry. Names `..`, names ending in '\' and empty names are never stored.
- The magic getters `__get` of Directory, Storage, Identifier and Collection Storage are read as the fields of the datatypes. For a name they do not match, PHP throws `UnhandledMatchError`; that is modelled for `Entry` only.
- PHP's `TypeError` and `ArgumentCountError` on constructor arguments are not modelled (the `TypeError` of `fwrite` on a non-string value is: see `BlobFile.File.Write`). That covers an identifiers list of the wrong length or type, and a parser that returns a scalar rather than an array or object.
- Arrays and objects are both `Value.Record`. `str_replace` with an object field, which PHP refuses to convert to a string, is modelled as the text 'Array'. Booleans and floats are not values of this model.
- An `Entry` is an `ArrayIterator` in PHP. Only its two offsets, its two properties and the refused property write are modelled; iteration and offset writes are not.
- CollectionIdentifier.Tokens: models `preg_match_all('/\{([^\}]+)\}/')` by a left-to-right scan for '{' followed by the first '}'. Other regular expressions and PCRE options are not modelled.
- A listing filter is a pure function of a name, as both filters the library passes are.
- CollectionStorage.ItemAndKeyAgree: holds, like the "get by the item" half of `CollectionStorage.StoreThenGet`, because the parser closure is modelled as a pure, total function of the item's fields. A PHP closure may read the clock or other state, and may change the object it is given: `store($obj)` hands the caller's object to it by handle, and `get($item)` runs it again. With such a parser, an item and its key need not address the same value.
- KeyValue.Store.Keys: keys() and all() are sets here. PHP's `array_map` keeps one key per listed file, so two files whose names lose to the same key (`note.json` and `notesjson` both give `note`) make PHP return that key twice, where the model holds it once.
- Errors.Code: a parser's exception is given code 0 here. A closure can throw any code, so "only the does-not-exist exception carries 404" holds for the library's own exceptions, not for whatever a parser throws.
