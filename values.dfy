/** The error taxonomy of the library and the results that carry it. */
module Errors {

  datatype Error =
    | NotADirectory(path: string)             // "Path '<path>' is not a directory", code 400
    | NotAFile(path: string)                  // "Path '<path>' is not a file", code 400
    | CreateDirectoryFailed(path: string)     // "Failed to create directory '<path>'", code 500
    | OpenFailed(path: string)                // "Failed to open file '<path>'", code 500
    | DeleteFailed(path: string)              // "Failed to delete '<path>'", code 500
    | DeleteDirectoryFailed(path: string)     // "Failed to delete directory '<path>'", code 500
    | NotFound(path: string)                  // "File '<path>' does not exist", code 404
    | StillExists(path: string)               // "File '<path>' still exists", code 400
    | NotInStorage(parents: string, root: string) // "Path '<parents>' is not in storage '<root>'", code 400
    | InvalidPattern                          // "Identifiers pattern expects at least one `{placeholder}`"
    | IdentifiersNotList                      // "The identifiers must be an array."
    | ImmutableEntry                          // "Entry tuple is immutable"
    | UnknownProperty(name: string)           // a magic getter's unmatched name
    | ParserFailed(message: string)           // whatever an identifier's parser closure throws
    | WriteTypeError                          // fwrite() given a non-string under strict_types

  /** The code each exception is thrown with. */
  function Code(e: Error): (c: int)
    ensures c in {0, 400, 404, 500}
    ensures c == 404 <==> e.NotFound?
  {
    match e
    case NotADirectory(_) => 400
    case NotAFile(_) => 400
    case CreateDirectoryFailed(_) => 500
    case OpenFailed(_) => 500
    case DeleteFailed(_) => 500
    case DeleteDirectoryFailed(_) => 500
    case NotFound(_) => 404
    case StillExists(_) => 400
    case NotInStorage(_, _) => 400
    case InvalidPattern => 500
    case IdentifiersNotList => 0
    case ImmutableEntry => 0
    case UnknownProperty(_) => 0
    case ParserFailed(_) => 0
    case WriteTypeError => 0
  }

  datatype Result<+T> = Ok(value: T) | Err(error: Error)

  datatype Outcome = Pass | Fail(error: Error)
}

/** The values the stores hold, and the pluggable serializer capability. */
module Values {

  /** A PHP value as far as the stores see it: null, a string, an integer or a record of fields. */
  datatype Option<+T> = None | Some(value: T)

  datatype Value = Null | Str(s: string) | Int(i: int) | Record(fields: map<string, Value>)

  /**
   * A serializer: a value-to-text codec and the file extension it is known by
   * ('json' for the JSON codec, 'php.txt' for the native one). The codecs
   * themselves are parameters; the stores only rely on RoundTrips.
   */
  datatype Serializer = Serializer(serialize: Value -> string, deserialize: string -> Value, extension: string)

  const JsonExtension: string := "json"
  const NativeExtension: string := "php.txt"

  /** deserialize(serialize(v)) == v for every value. */
  ghost predicate RoundTrips(s: Serializer)
  {
    forall v :: s.deserialize(s.serialize(v)) == v
  }

  /** The decimal digits of a natural number. */
  function Digits(n: nat): (r: string)
    ensures |r| >= 1
    ensures forall i | 0 <= i < |r| :: '0' <= r[i] <= '9'
  {
    if n < 10 then [(n as char) + '0'] else Digits(n / 10) + [((n % 10) as char) + '0']
  }

  /** The decimal text PHP gives an integer. */
  function IntText(i: int): string
  {
    if i < 0 then "-" + Digits(-i) else Digits(i)
  }

  /** The text str_replace substitutes for a value: null is '', an array 'Array'. */
  function Text(v: Value): string
  {
    match v
    case Null => ""
    case Str(s) => s
    case Int(i) => IntText(i)
    case Record(_) => "Array"
  }
}
