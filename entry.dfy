/** The immutable (key, value) pair a collection resolves an identifier to. */
module CollectionEntry {
  import opened Errors
  import opened Values

  /**
   * An entry: iterated as the two-element list [key, value], read through the
   * magic properties 'key' and 'value', and never assignable.
   */
  datatype Entry = Entry(key: string, value: Value)
  {
    /** The list the entry iterates over and unpacks to. */
    function Elements(): (r: seq<Value>)
      ensures |r| == 2 && r[0].Str? && r[0].s == key && r[1] == value
    {
      [Str(key), value]
    }

    /** $entry[i]: the element at an offset; any other offset reads as null. */
    function At(i: int): (r: Value)
      ensures 0 <= i < |Elements()| ==> r == Elements()[i]
      ensures !(0 <= i < |Elements()|) ==> r == Null
    {
      if i == 0 then Str(key) else if i == 1 then value else Null
    }

    /** The magic getter: 'key' reads element 0, 'value' element 1, and no other name matches. */
    function Get(name: string): (r: Result<Value>)
      ensures r.Ok? <==> name == "key" || name == "value"
      ensures name == "key" ==> r == Ok(At(0))
      ensures name == "value" ==> r == Ok(At(1))
      ensures r.Err? ==> r.error == UnknownProperty(name)
    {
      if name == "key" then Ok(Str(key))
      else if name == "value" then Ok(value)
      else Err(UnknownProperty(name))
    }

    /** The magic setter: every assignment is refused. */
    function Set(name: string, v: Value): (r: Result<Entry>)
      ensures r.Err? && r.error == ImmutableEntry
    {
      Err(ImmutableEntry)
    }
  }

  /** Unpacking [$key, $value] = $entry gives back exactly the pair it was built from. */
  lemma UnpacksAsTuple(e: Entry)
    ensures e.At(0) == Str(e.key) && e.At(1) == e.value
    ensures forall e': Entry :: e'.Elements() == e.Elements() ==> e' == e
  {
  }
}
