/**
 * A collection's identifier: a path pattern holding `{name}` placeholders,
 * compiled once, and a parser closure whose fields are substituted for the
 * placeholders to give an item its key.
 */
module CollectionIdentifier {
  import opened Paths
  import opened Errors
  import opened Values
  import opened CollectionEntry

  /**
   * The parser closure: it receives the item's fields and returns the fields
   * of the object it builds, or fails with the exception it throws.
   */
  type Parser = map<string, Value> -> Result<map<string, Value>>

  // ---------------------------------------------------------------------
  // Placeholder tokens: preg_match_all('/\{([^\}]+)\}/')
  // ---------------------------------------------------------------------

  /** The offset of the first c in s, or -1 when there is none. */
  function IndexOf(s: string, c: char): (i: int)
    ensures -1 <= i < |s|
    ensures i >= 0 ==> s[i] == c && c !in s[..i]
    ensures i == -1 ==> c !in s
  {
    if |s| == 0 then -1
    else if s[0] == c then 0
    else
      var j := IndexOf(s[1..], c);
      assert j >= 0 ==> s[..j + 1] == [s[0]] + s[1..][..j];
      if j == -1 then -1 else j + 1
  }

  /** A full match of the placeholder expression: '{', one or more characters other than '}', then '}'. */
  predicate IsToken(t: string)
  {
    |t| >= 3 && t[0] == '{' && t[|t| - 1] == '}' && '}' !in t[1..|t| - 1]
  }

  /** The captured group of a token: the name between the braces. */
  function Name(t: string): (n: string)
    requires IsToken(t)
    ensures n != "" && '}' !in n
    ensures t == "{" + n + "}"
  {
    t[1..|t| - 1]
  }

  /**
   * The expression has a match somewhere in s: a '{' followed, after at
   * least one character, by a '}' with no '}' in between.
   */
  ghost predicate HasMatch(s: string)
  {
    exists i, j | 0 <= i && i + 2 <= j < |s| :: s[i] == '{' && s[j] == '}' && '}' !in s[i + 1..j]
  }

  /**
   * The full matches of the expression, left to right and non-overlapping:
   * at a '{' the greedy class runs to the first '}', which must not be the
   * very next character; otherwise the scan moves on by one character.
   */
  function Tokens(s: string): (r: seq<string>)
    ensures forall i | 0 <= i < |r| :: IsToken(r[i])
    decreases |s|
  {
    if |s| == 0 then []
    else
      var j := IndexOf(s[1..], '}');
      if s[0] == '{' && j >= 1 then
        MatchIsToken(s, j);
        [s[..j + 2]] + Tokens(s[j + 2..])
      else Tokens(s[1..])
  }

  /** A '{' followed by a first '}' at least two characters on is a token. */
  lemma MatchIsToken(s: string, j: int)
    requires |s| > 0 && s[0] == '{' && 1 <= j < |s| - 1
    requires s[1..][j] == '}' && '}' !in s[1..][..j]
    ensures IsToken(s[..j + 2])
  {
    assert s[..j + 2][1..j + 1] == s[1..][..j];
  }

  /** array_merge over string keys: each token once, at the position where it first appears. */
  function Dedup(ts: seq<string>): seq<string>
    decreases |ts|
  {
    if |ts| == 0 then []
    else
      var d := Dedup(ts[..|ts| - 1]);
      if ts[|ts| - 1] in d then d else d + [ts[|ts| - 1]]
  }

  /** The first position of x in ts. */
  function FirstIndex(ts: seq<string>, x: string): (i: nat)
    requires x in ts
    ensures i < |ts| && ts[i] == x && x !in ts[..i]
  {
    if ts[0] == x then 0
    else
      var j := FirstIndex(ts[1..], x);
      assert ts[..j + 1] == [ts[0]] + ts[1..][..j];
      j + 1
  }

  // ---------------------------------------------------------------------
  // Compilation
  // ---------------------------------------------------------------------

  /** The stored pattern: whitespace-trimmed, then trimmed of leading and trailing '/'. */
  function StoredPattern(p: string): (r: string)
    ensures r == "" || (r[0] != Separator && r[|r| - 1] != Separator)
  {
    Trim(Trim(p, Whitespace), {Separator})
  }

  /**
   * The stored pattern is the pattern with only whitespace and '/' removed,
   * and only from its two ends; it neither starts nor ends with '/'.
   */
  lemma StoredPatternTrimmed(p: string)
    ensures TrimmedFrom(p, StoredPattern(p), Whitespace + {Separator})
    ensures var r := StoredPattern(p); r == "" || (r[0] != Separator && r[|r| - 1] != Separator)
  {
    var t := Trim(p, Whitespace);
    TrimSpec(p, Whitespace);
    TrimSpec(t, {Separator});
    TrimmedTwice(p, t, StoredPattern(p), Whitespace, {Separator});
  }

  /** explode('/', trim(pattern)): the segments whose placeholders are collected. */
  function Segments(pattern: string): seq<string>
  {
    Split(Trim(pattern, Whitespace))
  }

  /** Some segment yields the token t. */
  ghost predicate FoundIn(segs: seq<string>, t: string)
  {
    exists k | 0 <= k < |segs| :: t in Tokens(segs[k])
  }

  /** The tokens of every segment, segment after segment. */
  function SegmentTokens(segs: seq<string>): (r: seq<string>)
    ensures forall i | 0 <= i < |r| :: IsToken(r[i])
  {
    if |segs| == 0 then [] else Tokens(segs[0]) + SegmentTokens(segs[1..])
  }

  /** The concatenated tokens are exactly those some segment yields. */
  lemma {:induction false} SegmentTokensFound(segs: seq<string>)
    ensures forall t :: t in SegmentTokens(segs) <==> FoundIn(segs, t)
  {
    if |segs| > 0 {
      FoundInCons(segs);
      SegmentTokensFound(segs[1..]);
    }
  }

  lemma FoundInCons(segs: seq<string>)
    requires |segs| > 0
    ensures forall t :: FoundIn(segs, t) <==> t in Tokens(segs[0]) || FoundIn(segs[1..], t)
  {
    forall t ensures FoundIn(segs, t) <==> t in Tokens(segs[0]) || FoundIn(segs[1..], t) {
      if FoundIn(segs, t) {
        var k :| 0 <= k < |segs| && t in Tokens(segs[k]);
        if k > 0 {
          assert segs[1..][k - 1] == segs[k];
        }
      }
      if FoundIn(segs[1..], t) {
        var k :| 0 <= k < |segs[1..]| && t in Tokens(segs[1..][k]);
        assert segs[k + 1] == segs[1..][k];
      }
    }
  }

  /**
   * The placeholders a pattern compiles to: the tokens of its segments, each
   * once, in order of first appearance; none exactly when no segment matches.
   */
  function Placeholders(pattern: string): (r: seq<string>)
    ensures forall i | 0 <= i < |r| :: IsToken(r[i])
  {
    var ts := SegmentTokens(Segments(pattern));
    DedupKeeps(ts);
    Dedup(ts)
  }

  /** Deduplication only keeps tokens it was given. */
  lemma {:induction false} DedupKeeps(ts: seq<string>)
    ensures forall i | 0 <= i < |Dedup(ts)| :: Dedup(ts)[i] in ts
    decreases |ts|
  {
    if |ts| > 0 {
      var init := ts[..|ts| - 1];
      DedupKeeps(init);
      assert forall x | x in init :: x in ts;
    }
  }

  /**
   * The placeholders are the segments' tokens, each once; there are none
   * exactly when no segment matches the placeholder expression.
   */
  lemma PlaceholdersSpec(pattern: string)
    ensures var r := Placeholders(pattern);
      && (forall i, j | 0 <= i < j < |r| :: r[i] != r[j])
      && (forall t :: t in r <==> FoundIn(Segments(pattern), t))
      && (|r| == 0 <==> forall k | 0 <= k < |Segments(pattern)| :: !HasMatch(Segments(pattern)[k]))
  {
    var ts := SegmentTokens(Segments(pattern));
    DedupSpec(ts);
    SegmentTokensFound(Segments(pattern));
    NoTokensIff(Segments(pattern));
  }

  /**
   * A compiled identifier: the stored pattern, the placeholder tokens and
   * their names (array_keys and array_values of the merged matches), and the parser.
   */
  datatype Identifier = Identifier(pattern: string, placeholders: seq<string>, keys: seq<string>, parser: Parser)
  {
    /** What the constructor establishes about the compiled fields. */
    predicate Compiled()
    {
      && |placeholders| == |keys| >= 1
      && (forall i | 0 <= i < |placeholders| :: IsToken(placeholders[i]) && keys[i] == Name(placeholders[i]))
      && (forall i, j | 0 <= i < j < |placeholders| :: placeholders[i] != placeholders[j])
    }

    /**
     * parse(item): the parser's fields, the text of the field each key names
     * (null, hence '', when the field is missing), and the pattern with each
     * placeholder replaced in turn.
     */
    function Parse(item: map<string, Value>): (r: Result<Entry>)
      ensures r.Err? <==> parser(item).Err?
      ensures r.Err? ==> r.error == parser(item).error
      ensures r.Ok? ==> r.value.value == Record(parser(item).value)
      ensures r.Ok? ==> r.value.key == ReplaceAll(pattern, placeholders, FieldTexts(parser(item).value, keys))
    {
      match parser(item)
      case Err(e) => Err(e)
      case Ok(args) => Ok(Entry(ReplaceAll(pattern, placeholders, FieldTexts(args, keys)), Record(args)))
    }
  }

  /**
   * new Identifier(pattern, parser): the pattern stored trimmed, and the
   * placeholders of its segments, or InvalidPattern when there are none.
   */
  function NewIdentifier(p: string, parser: Parser): (r: Result<Identifier>)
    ensures r.Err? <==> forall k | 0 <= k < |Segments(StoredPattern(p))| :: !HasMatch(Segments(StoredPattern(p))[k])
    ensures r.Err? ==> r.error == InvalidPattern
    ensures r.Ok? ==> r.value.pattern == StoredPattern(p) && r.value.parser == parser && r.value.Compiled()
    ensures r.Ok? ==> forall t :: t in r.value.placeholders <==> FoundIn(Segments(StoredPattern(p)), t)
    ensures r.Ok? ==> r.value.placeholders == Placeholders(StoredPattern(p))
  {
    var pattern := StoredPattern(p);
    var ph := Placeholders(pattern);
    PlaceholdersSpec(pattern);
    if |ph| == 0 then Err(InvalidPattern)
    else Ok(Identifier(pattern, ph, KeyNames(ph), parser))
  }

  /** The keys: each placeholder's name. */
  function KeyNames(ph: seq<string>): (r: seq<string>)
    requires forall i | 0 <= i < |ph| :: IsToken(ph[i])
    ensures |r| == |ph| && forall i | 0 <= i < |ph| :: r[i] == Name(ph[i])
  {
    seq(|ph|, i requires 0 <= i < |ph| => Name(ph[i]))
  }

  // ---------------------------------------------------------------------
  // Substitution: str_replace(array, array, string)
  // ---------------------------------------------------------------------

  /** The value of a property, or null when the object has none. */
  function Field(args: map<string, Value>, k: string): Value
  {
    if k in args then args[k] else Null
  }

  /** The replacement text of every key, in key order. */
  function FieldTexts(args: map<string, Value>, keys: seq<string>): (r: seq<string>)
    ensures |r| == |keys|
    ensures forall i | 0 <= i < |keys| :: r[i] == Text(Field(args, keys[i]))
  {
    seq(|keys|, i requires 0 <= i < |keys| => Text(Field(args, keys[i])))
  }

  /** n occurs in s at offset i. */
  ghost predicate OccursAt(s: string, n: string, i: int)
  {
    0 <= i && i + |n| <= |s| && s[i..i + |n|] == n
  }

  /** n occurs in s. */
  ghost predicate Occurs(s: string, n: string)
  {
    exists i :: OccursAt(s, n, i)
  }

  /**
   * str_replace of one search string: every occurrence, scanning left to
   * right without overlap, replaced by `rep`; an empty search string is skipped.
   */
  function Replace(s: string, n: string, rep: string): string
    decreases |s|
  {
    if n == "" || |s| < |n| then s
    else if s[..|n|] == n then rep + Replace(s[|n|..], n, rep)
    else [s[0]] + Replace(s[1..], n, rep)
  }

  /**
   * str_replace with array search and replace: each search string in turn,
   * on the result of the previous one; a missing replacement is ''.
   */
  function ReplaceAll(s: string, search: seq<string>, rep: seq<string>): string
    decreases |search|
  {
    if |search| == 0 then s
    else
      var b := if |rep| > 0 then rep[0] else "";
      ReplaceAll(Replace(s, search[0], b), search[1..], if |rep| > 0 then rep[1..] else [])
  }

  // ---------------------------------------------------------------------
  // Lemmas
  // ---------------------------------------------------------------------

  /**
   * Deduplication keeps exactly the tokens it is given, each once, ordered by
   * the position where each first appears.
   */
  lemma {:induction false} DedupSpec(ts: seq<string>)
    ensures forall x :: x in Dedup(ts) <==> x in ts
    ensures forall i, j | 0 <= i < j < |Dedup(ts)| :: Dedup(ts)[i] != Dedup(ts)[j]
    ensures forall i, j | 0 <= i < j < |Dedup(ts)| :: FirstIndex(ts, Dedup(ts)[i]) < FirstIndex(ts, Dedup(ts)[j])
    decreases |ts|
  {
    if |ts| > 0 {
      var init := ts[..|ts| - 1];
      var x := ts[|ts| - 1];
      DedupSpec(init);
      assert ts == init + [x];
      FirstIndexSnoc(init, x);
    }
  }

  lemma FirstIndexSnoc(ts: seq<string>, x: string)
    ensures forall y | y in ts :: FirstIndex(ts + [x], y) == FirstIndex(ts, y)
    ensures x !in ts ==> FirstIndex(ts + [x], x) == |ts|
  {
    forall y | y in ts ensures FirstIndex(ts + [x], y) == FirstIndex(ts, y) {
      var i := FirstIndex(ts, y);
      assert (ts + [x])[..i] == ts[..i];
      FirstIndexUnique(ts + [x], y, i);
    }
    if x !in ts {
      assert (ts + [x])[..|ts|] == ts;
      FirstIndexUnique(ts + [x], x, |ts|);
    }
  }

  lemma FirstIndexUnique(ts: seq<string>, y: string, i: nat)
    requires i < |ts| && ts[i] == y && y !in ts[..i]
    ensures FirstIndex(ts, y) == i
  {
  }

  /** IndexOf finds the first occurrence. */
  lemma IndexOfFirst(s: string, c: char, k: nat)
    requires k < |s| && s[k] == c && c !in s[..k]
    ensures IndexOf(s, c) == k
  {
  }

  /** A scan finds a token exactly when the expression matches somewhere. */
  lemma {:induction false} TokensIffMatch(s: string)
    ensures Tokens(s) != [] <==> HasMatch(s)
    decreases |s|
  {
    if |s| == 0 {
      return;
    }
    var j := IndexOf(s[1..], '}');
    if s[0] == '{' && j >= 1 {
      FrontHit(s);
    } else {
      TokensIffMatch(s[1..]);
      MatchShift(s);
      MatchUnshift(s);
    }
  }

  /** When the scan takes a token at the front, the expression matches there. */
  lemma FrontHit(s: string)
    requires |s| >= 1 && s[0] == '{' && IndexOf(s[1..], '}') >= 1
    ensures HasMatch(s)
  {
    var j := IndexOf(s[1..], '}');
    assert s[j + 1] == '}' && s[1..j + 1] == s[1..][..j];
    assert 0 + 2 <= j + 1 < |s| && s[0] == '{' && s[j + 1] == '}' && '}' !in s[0 + 1..j + 1];
  }

  /** A match after the first character is a match of the whole string. */
  lemma MatchShift(s: string)
    requires |s| >= 1
    ensures HasMatch(s[1..]) ==> HasMatch(s)
  {
    if HasMatch(s[1..]) {
      var i, k :| 0 <= i && i + 2 <= k < |s[1..]| && s[1..][i] == '{' && s[1..][k] == '}' && '}' !in s[1..][i + 1..k];
      var t := s[1..];
      var u, v := s[i + 2..k + 1], t[i + 1..k];
      assert forall m | 0 <= m < |u| :: u[m] == v[m];
      assert u == v;
      assert i + 1 + 2 <= k + 1 < |s| && s[i + 1] == '{' && s[k + 1] == '}' && '}' !in s[i + 1 + 1..k + 1];
    }
  }

  /** When the scan takes no token at the front, every match lies after the first character. */
  lemma MatchUnshift(s: string)
    requires |s| >= 1 && !(s[0] == '{' && IndexOf(s[1..], '}') >= 1)
    ensures HasMatch(s) ==> HasMatch(s[1..])
  {
    if HasMatch(s) {
      var i, k :| 0 <= i && i + 2 <= k < |s| && s[i] == '{' && s[k] == '}' && '}' !in s[i + 1..k];
      FrontMatch(s, k);
      assert i != 0;
      assert s[1..][i - 1 + 1..k - 1] == s[i + 1..k];
      assert 0 <= i - 1 && i - 1 + 2 <= k - 1 < |s[1..]| && s[1..][i - 1] == '{' && s[1..][k - 1] == '}' && '}' !in s[1..][i - 1 + 1..k - 1];
    }
  }

  /** A match at the very front is one the scan's search for the first '}' finds. */
  lemma FrontMatch(s: string, k: nat)
    requires |s| >= 1
    ensures 2 <= k < |s| && s[0] == '{' && s[k] == '}' && '}' !in s[1..k] ==> IndexOf(s[1..], '}') == k - 1
  {
    if 2 <= k < |s| && s[0] == '{' && s[k] == '}' && '}' !in s[1..k] {
      assert s[1..][k - 1] == '}' && s[1..][..k - 1] == s[1..k];
      IndexOfFirst(s[1..], '}', k - 1);
    }
  }

  /** No segment yields a token exactly when no segment matches. */
  lemma NoTokensIff(segs: seq<string>)
    ensures |Dedup(SegmentTokens(segs))| == 0 <==> forall k | 0 <= k < |segs| :: !HasMatch(segs[k])
  {
    var ts := SegmentTokens(segs);
    DedupSpec(ts);
    SegmentTokensFound(segs);
    if |Dedup(ts)| == 0 {
      forall k | 0 <= k < |segs| ensures !HasMatch(segs[k]) {
        TokensIffMatch(segs[k]);
      }
    } else {
      var t := Dedup(ts)[0];
      assert t in ts;
      assert FoundIn(segs, t);
      var k :| 0 <= k < |segs| && t in Tokens(segs[k]);
      TokensIffMatch(segs[k]);
    }
  }

  /** A string without '{' yields no token, and a prefix without '{' is skipped by the scan. */
  lemma {:induction false} TokensSkip(a: string, b: string)
    requires '{' !in a
    ensures Tokens(a + b) == Tokens(b)
    decreases |a|
  {
    if |a| == 0 {
      assert a + b == b;
    } else {
      var s := a + b;
      assert s[0] == a[0] && a[0] != '{';
      assert Tokens(s) == Tokens(s[1..]);
      assert s[1..] == a[1..] + b;
      TokensSkip(a[1..], b);
    }
  }

  /** A token whose only '{' is its first character is scanned as one match. */
  lemma TokensLead(t: string, b: string)
    requires IsToken(t) && '{' !in t[1..]
    ensures Tokens(t + b) == [t] + Tokens(b)
  {
    var s := t + b;
    assert s[1..][|t| - 2] == '}';
    assert s[1..][..|t| - 2] == t[1..|t| - 1];
    IndexOfFirst(s[1..], '}', |t| - 2);
    assert s[..|t|] == t && s[|t|..] == b;
  }

  /** A list without repeats is its own deduplication. */
  lemma {:induction false} DedupDistinct(ts: seq<string>)
    requires forall i, j | 0 <= i < j < |ts| :: ts[i] != ts[j]
    ensures Dedup(ts) == ts
    decreases |ts|
  {
    if |ts| > 0 {
      var init := ts[..|ts| - 1];
      DedupDistinct(init);
      assert ts[|ts| - 1] !in init;
      assert init + [ts[|ts| - 1]] == ts;
    }
  }

  /** A replacement does nothing to a string the search string does not occur in. */
  lemma {:induction false} ReplaceAbsent(s: string, n: string, rep: string)
    requires !Occurs(s, n)
    ensures Replace(s, n, rep) == s
    decreases |s|
  {
    if n != "" && |s| >= |n| {
      assert s[0..0 + |n|] == s[..|n|];
      assert !OccursAt(s, n, 0);
      assert Replace(s, n, rep) == [s[0]] + Replace(s[1..], n, rep);
      forall i | OccursAt(s[1..], n, i) ensures OccursAt(s, n, i + 1) {
        assert s[1..][i..i + |n|] == s[i + 1..i + 1 + |n|];
      }
      ReplaceAbsent(s[1..], n, rep);
      assert [s[0]] + s[1..] == s;
    }
  }

  /** A prefix without the search string's first character is copied unchanged. */
  lemma {:induction false} ReplaceSkip(a: string, b: string, n: string, rep: string)
    requires n != "" && n[0] !in a
    ensures Replace(a + b, n, rep) == a + Replace(b, n, rep)
    decreases |a|
  {
    var s := a + b;
    if |a| == 0 {
      assert s == b;
    } else if |s| < |n| {
      ReplaceAbsentShort(s, n, rep);
      ReplaceAbsentShort(b, n, rep);
    } else {
      assert s[..|n|][0] == a[0];
      ReplaceMiss(s, n, rep);
      assert s[1..] == a[1..] + b;
      ReplaceSkip(a[1..], b, n, rep);
      ConsAssoc(a, Replace(b, n, rep));
    }
  }

  /** Where the search string does not start, one character is copied and the scan moves on. */
  lemma ReplaceMiss(s: string, n: string, rep: string)
    requires n != "" && |s| >= |n| && s[..|n|] != n
    ensures Replace(s, n, rep) == [s[0]] + Replace(s[1..], n, rep)
  {
  }

  lemma ConsAssoc(a: string, c: string)
    requires a != ""
    ensures [a[0]] + (a[1..] + c) == a + c
  {
    assert [a[0]] + a[1..] == a;
  }

  /** An occurrence at the front is replaced. */
  lemma ReplaceHit(b: string, n: string, rep: string)
    requires n != ""
    ensures Replace(n + b, n, rep) == rep + Replace(b, n, rep)
  {
    assert (n + b)[..|n|] == n && (n + b)[|n|..] == b;
  }

  /** A different token at the front is not an occurrence: its '}' comes at the wrong place. */
  lemma ReplaceOtherToken(t: string, b: string, n: string, rep: string)
    requires IsToken(t) && '{' !in t[1..]
    requires IsToken(n) && t != n
    ensures Replace(t + b, n, rep) == t + Replace(b, n, rep)
  {
    var s := t + b;
    if |s| < |n| {
      ReplaceAbsentShort(s, n, rep);
      ReplaceAbsentShort(b, n, rep);
    } else {
      TokenNotPrefix(t, b, n);
      ReplaceMiss(s, n, rep);
      assert s[1..] == t[1..] + b;
      ReplaceSkip(t[1..], b, n, rep);
      ConsAssoc(t, Replace(b, n, rep));
    }
  }

  /** A token followed by anything does not start with a different token. */
  lemma TokenNotPrefix(t: string, b: string, n: string)
    requires IsToken(t) && IsToken(n) && t != n
    requires |t + b| >= |n|
    ensures (t + b)[..|n|] != n
  {
    var s := t + b;
    if |n| < |t| {
      assert t[1..|t| - 1][|n| - 2] == t[|n| - 1];
      assert s[..|n|][|n| - 1] != n[|n| - 1];
    } else if |n| == |t| {
      assert s[..|n|] == t;
    } else {
      assert n[1..|n| - 1][|t| - 2] == n[|t| - 1];
      assert s[..|n|][|t| - 1] != n[|t| - 1];
    }
  }

  lemma ReplaceAbsentShort(s: string, n: string, rep: string)
    requires |s| < |n|
    ensures Replace(s, n, rep) == s
  {
  }

  // ---------------------------------------------------------------------
  // Templates: patterns whose only braces are their placeholders
  // ---------------------------------------------------------------------

  /** A pattern seen as literal text and placeholder holes. */
  datatype Piece = Lit(text: string) | Hole(token: string)

  function Render(ps: seq<Piece>): string
  {
    if |ps| == 0 then ""
    else (match ps[0] case Lit(x) => x case Hole(t) => t) + Render(ps[1..])
  }

  /** Literal text holds no '{', and every hole is a token whose only '{' is its first character. */
  predicate Simple(ps: seq<Piece>)
  {
    forall i | 0 <= i < |ps| ::
      match ps[i]
      case Lit(x) => '{' !in x
      case Hole(t) => IsToken(t) && '{' !in t[1..]
  }

  /** Every hole holding n filled with the literal text `rep`. */
  function Fill(ps: seq<Piece>, n: string, rep: string): seq<Piece>
  {
    seq(|ps|, i requires 0 <= i < |ps| => if ps[i] == Hole(n) then Lit(rep) else ps[i])
  }

  /** The holes of each search string filled in turn. */
  function FillAll(ps: seq<Piece>, search: seq<string>, rep: seq<string>): seq<Piece>
    decreases |search|
  {
    if |search| == 0 then ps
    else
      var b := if |rep| > 0 then rep[0] else "";
      FillAll(Fill(ps, search[0], b), search[1..], if |rep| > 0 then rep[1..] else [])
  }

  /**
   * Replacing a placeholder token in a simple template with text free of '{'
   * fills exactly that placeholder's holes, and the template stays simple.
   */
  lemma {:induction false} ReplaceFills(ps: seq<Piece>, n: string, rep: string)
    requires Simple(ps) && IsToken(n) && '{' !in rep
    ensures Replace(Render(ps), n, rep) == Render(Fill(ps, n, rep))
    ensures Simple(Fill(ps, n, rep))
    decreases |ps|
  {
    var f := Fill(ps, n, rep);
    if |ps| == 0 {
      assert Replace("", n, rep) == "";
    } else {
      assert Simple(ps[1..]) by {
        forall i | 0 <= i < |ps[1..]| ensures ps[1..][i] == ps[i + 1] {}
      }
      ReplaceFills(ps[1..], n, rep);
      var rest := Render(ps[1..]);
      assert f[1..] == Fill(ps[1..], n, rep);
      match ps[0]
      case Lit(x) =>
        assert '{' !in x by { assert Simple(ps); }
        ReplaceSkip(x, rest, n, rep);
      case Hole(t) =>
        assert IsToken(t) && '{' !in t[1..] by { assert Simple(ps); }
        if t == n {
          ReplaceHit(rest, n, rep);
        } else {
          ReplaceOtherToken(t, rest, n, rep);
        }
    }
  }

  /** str_replace over all placeholders of a simple template fills all their holes, in order. */
  lemma {:induction false} ReplaceAllFills(ps: seq<Piece>, search: seq<string>, rep: seq<string>)
    requires Simple(ps)
    requires forall i | 0 <= i < |search| :: IsToken(search[i])
    requires forall i | 0 <= i < |rep| :: '{' !in rep[i]
    ensures ReplaceAll(Render(ps), search, rep) == Render(FillAll(ps, search, rep))
    decreases |search|
  {
    if |search| > 0 {
      var b := if |rep| > 0 then rep[0] else "";
      ReplaceFills(ps, search[0], b);
      var rep' := if |rep| > 0 then rep[1..] else [];
      assert forall i | 0 <= i < |rep'| :: rep'[i] == rep[i + 1];
      ReplaceAllFills(Fill(ps, search[0], b), search[1..], rep');
    }
  }

  /** A pattern without any placeholder is refused ('posts/' is). */
  lemma NoPlaceholderRefused(parser: Parser)
    ensures NewIdentifier("posts/", parser) == Err(InvalidPattern)
  {
    NoPlaceholderSegments("posts/");
    assert Dedup([]) == [];
  }

  lemma NoPlaceholderSegments(p: string)
    requires p == "posts/"
    ensures SegmentTokens(Segments(StoredPattern(p))) == []
  {
    PostsStored();
    PostsSegments();
    PostsNoTokens();
  }

  lemma PostsSegments()
    ensures Segments("posts") == ["posts"]
  {
    TrimNoop("posts", Whitespace);
    SplitName("posts");
  }

  lemma PostsNoTokens()
    ensures SegmentTokens(["posts"]) == []
  {
    TokensOfNone("posts");
    assert SegmentTokens(["posts"]) == [] + SegmentTokens([]);
  }

  /** 'posts/' is stored as 'posts'. */
  lemma PostsStored()
    ensures StoredPattern("posts/") == "posts"
  {
    var p := "posts/";
    assert p[0] == 'p' && p[|p| - 1] == '/';
    TrimNoop(p, Whitespace);
    PostsSlashTrimmed();
  }

  lemma PostsSlashTrimmed()
    ensures Trim("posts/", {Separator}) == "posts"
  {
    var p := "posts/";
    assert p[..|p| - 1] == "posts";
    assert RTrim(p, {Separator}) == RTrim("posts", {Separator});
    TrimNoop("posts", {Separator});
  }

  // ---------------------------------------------------------------------
  // The worked example of the identifier's own tests. Evaluating the
  // compilation and substitution of one concrete pattern in a single proof
  // unfolds the string functions far too often for the verifier, so the
  // example is taken step by step: trimming, splitting into four segments,
  // the tokens of each segment, the eight pieces of the template, and the
  // fill. The fixed-arity helpers (Split4, SegmentTokens4, Concat4, Render8,
  // FillAll4) each take one of those steps for exactly this shape.
  // ---------------------------------------------------------------------

  /**
   * 'posts/{year}/{month}/{slug}-{id}' compiles to the placeholders
   * {year}, {month}, {slug}, {id}, and an item whose parsed fields are
   * year '2021', month '01', slug 'hello-world' and id 1 gets the key
   * 'posts/2021/01/hello-world-1'.
   */
  lemma PostsExample(parser: Parser, item: map<string, Value>)
    requires parser(item) == Ok(map["year" := Str("2021"), "month" := Str("01"), "slug" := Str("hello-world"), "id" := Int(1)])
    ensures NewIdentifier("posts/{year}/{month}/{slug}-{id}", parser).Ok?
    ensures var id := NewIdentifier("posts/{year}/{month}/{slug}-{id}", parser).value;
      && id.pattern == "posts/{year}/{month}/{slug}-{id}"
      && id.placeholders == ["{year}", "{month}", "{slug}", "{id}"]
      && id.keys == ["year", "month", "slug", "id"]
      && id.Parse(item) == Ok(Entry("posts/2021/01/hello-world-1", Record(parser(item).value)))
  {
    var p := "posts/{year}/{month}/{slug}-{id}";
    ExamplePlaceholders(p);
    var id := NewIdentifier(p, parser).value;
    ExampleKeys(id.placeholders, id.keys);
    ExampleKey(p, id.placeholders, id.keys, parser(item).value);
  }

  lemma TrimNoop(s: string, cs: set<char>)
    requires s == "" || (s[0] !in cs && s[|s| - 1] !in cs)
    ensures Trim(s, cs) == s
  {
  }

  lemma ExampleTrim(p: string)
    requires p == "posts/{year}/{month}/{slug}-{id}"
    ensures StoredPattern(p) == p && Trim(p, Whitespace) == p
  {
    assert p[0] == 'p' && p[|p| - 1] == '}';
    TrimNoop(p, Whitespace);
    TrimNoop(p, {Separator});
  }

  lemma Split4(a: string, b: string, c: string, d: string)
    requires Separator !in a && Separator !in b && Separator !in c && Separator !in d
    ensures Split(a + [Separator] + (b + [Separator] + (c + [Separator] + d))) == [a, b, c, d]
  {
    SplitAppend(a, b + [Separator] + (c + [Separator] + d));
    SplitAppend(b, c + [Separator] + d);
    SplitAppend(c, d);
    SplitName(a);
    SplitName(b);
    SplitName(c);
    SplitName(d);
  }

  lemma SegmentTokens4(a: string, b: string, c: string, d: string)
    ensures SegmentTokens([a, b, c, d]) == Tokens(a) + Tokens(b) + Tokens(c) + Tokens(d)
  {
    var segs := [a, b, c, d];
    assert segs[1..] == [b, c, d];
    assert [b, c, d][1..] == [c, d];
    assert [c, d][1..] == [d];
    assert [d][1..] == [];
    assert SegmentTokens([d]) == Tokens(d);
    assert SegmentTokens([c, d]) == Tokens(c) + Tokens(d);
    assert SegmentTokens([b, c, d]) == Tokens(b) + (Tokens(c) + Tokens(d));
    assert SegmentTokens(segs) == Tokens(a) + (Tokens(b) + (Tokens(c) + Tokens(d)));
  }

  lemma ExampleSplit(p: string)
    requires p == "posts/{year}/{month}/{slug}-{id}"
    ensures Split(p) == ["posts", "{year}", "{month}", "{slug}-{id}"]
  {
    assert p == "posts" + [Separator] + ("{year}" + [Separator] + ("{month}" + [Separator] + "{slug}-{id}"));
    Split4("posts", "{year}", "{month}", "{slug}-{id}");
  }

  lemma TokensOfOne(t: string)
    requires IsToken(t) && '{' !in t[1..]
    ensures Tokens(t) == [t]
  {
    TokensLead(t, "");
    assert t + "" == t;
  }

  lemma TokensOfNone(s: string)
    requires '{' !in s
    ensures Tokens(s) == []
  {
    TokensSkip(s, "");
    assert s + "" == s;
  }

  lemma ExampleLastSegment(s: string)
    requires s == "{slug}-{id}"
    ensures Tokens(s) == ["{slug}", "{id}"]
  {
    ExampleHoles();
    assert s == "{slug}" + ("-" + "{id}");
    TokensLead("{slug}", "-" + "{id}");
    TokensSkip("-", "{id}");
    TokensOfOne("{id}");
  }

  lemma ExampleSegmentTokens()
    ensures SegmentTokens(["posts", "{year}", "{month}", "{slug}-{id}"]) == ["{year}", "{month}", "{slug}", "{id}"]
  {
    ExampleHoles();
    TokensOfNone("posts");
    TokensOfOne("{year}");
    TokensOfOne("{month}");
    ExampleLastSegment("{slug}-{id}");
    SegmentTokens4("posts", "{year}", "{month}", "{slug}-{id}");
    Concat4(Tokens("posts"), Tokens("{year}"), Tokens("{month}"), Tokens("{slug}-{id}"), "{year}", "{month}", "{slug}", "{id}");
  }

  lemma Concat4(a: seq<string>, b: seq<string>, c: seq<string>, d: seq<string>, x: string, y: string, z: string, w: string)
    requires a == [] && b == [x] && c == [y] && d == [z, w]
    ensures a + b + c + d == [x, y, z, w]
  {
  }

  lemma ExamplePlaceholders(p: string)
    requires p == "posts/{year}/{month}/{slug}-{id}"
    ensures StoredPattern(p) == p
    ensures Placeholders(p) == ["{year}", "{month}", "{slug}", "{id}"]
  {
    ExampleSegments(p);
    ExampleTokensOfSegments(Segments(p));
  }

  lemma ExampleSegments(p: string)
    requires p == "posts/{year}/{month}/{slug}-{id}"
    ensures StoredPattern(p) == p
    ensures Segments(p) == ["posts", "{year}", "{month}", "{slug}-{id}"]
  {
    ExampleTrim(p);
    ExampleSplit(p);
  }

  lemma ExampleTokensOfSegments(segs: seq<string>)
    requires segs == ["posts", "{year}", "{month}", "{slug}-{id}"]
    ensures Dedup(SegmentTokens(segs)) == ["{year}", "{month}", "{slug}", "{id}"]
  {
    ExampleSegmentTokens();
    DistinctExample(["{year}", "{month}", "{slug}", "{id}"]);
  }

  lemma DistinctExample(ts: seq<string>)
    requires ts == ["{year}", "{month}", "{slug}", "{id}"]
    ensures Dedup(ts) == ts
  {
    assert forall i, j | 0 <= i < j < |ts| :: ts[i] != ts[j] by {
      assert ts[0][1] == 'y' && ts[1][1] == 'm' && ts[2][1] == 's' && ts[3][1] == 'i';
    }
    DedupDistinct(ts);
  }

  lemma ExampleKeys(ph: seq<string>, keys: seq<string>)
    requires ph == ["{year}", "{month}", "{slug}", "{id}"]
    requires |keys| == |ph| && forall i | 0 <= i < |ph| :: IsToken(ph[i]) && keys[i] == Name(ph[i])
    ensures keys == ["year", "month", "slug", "id"]
  {
    assert Name("{year}") == "year";
    assert Name("{month}") == "month";
    assert Name("{slug}") == "slug";
    assert Name("{id}") == "id";
  }

  lemma ExampleTexts(args: map<string, Value>, keys: seq<string>)
    requires args == map["year" := Str("2021"), "month" := Str("01"), "slug" := Str("hello-world"), "id" := Int(1)]
    requires keys == ["year", "month", "slug", "id"]
    ensures FieldTexts(args, keys) == ["2021", "01", "hello-world", "1"]
  {
    assert Text(Int(1)) == "1";
  }

  function PieceText(pc: Piece): string
  {
    match pc case Lit(x) => x case Hole(t) => t
  }

  lemma Render8(ps: seq<Piece>)
    requires |ps| == 8
    ensures Render(ps) == PieceText(ps[0]) + (PieceText(ps[1]) + (PieceText(ps[2]) + (PieceText(ps[3]) +
      (PieceText(ps[4]) + (PieceText(ps[5]) + (PieceText(ps[6]) + PieceText(ps[7])))))))
  {
    assert Render(ps[8..]) == "";
    assert Render(ps[7..]) == PieceText(ps[7]) + "";
    assert Render(ps[6..]) == PieceText(ps[6]) + Render(ps[7..]);
    assert Render(ps[5..]) == PieceText(ps[5]) + Render(ps[6..]);
    assert Render(ps[4..]) == PieceText(ps[4]) + Render(ps[5..]);
    assert Render(ps[3..]) == PieceText(ps[3]) + Render(ps[4..]);
    assert Render(ps[2..]) == PieceText(ps[2]) + Render(ps[3..]);
    assert Render(ps[1..]) == PieceText(ps[1]) + Render(ps[2..]);
  }

  lemma FillAll4(ps: seq<Piece>, ph: seq<string>, texts: seq<string>)
    requires |ph| == 4 && |texts| == 4
    ensures FillAll(ps, ph, texts) ==
      Fill(Fill(Fill(Fill(ps, ph[0], texts[0]), ph[1], texts[1]), ph[2], texts[2]), ph[3], texts[3])
  {
    var b1, b2, b3 := texts[1..], texts[2..], texts[3..];
    assert b1[1..] == b2 && b2[1..] == b3 && b3[1..] == [];
    assert ph[1..][1..] == ph[2..] && ph[2..][1..] == ph[3..] && ph[3..][1..] == [];
    var f1 := Fill(ps, ph[0], texts[0]);
    var f2 := Fill(f1, ph[1], texts[1]);
    var f3 := Fill(f2, ph[2], texts[2]);
    var f4 := Fill(f3, ph[3], texts[3]);
    assert FillAll(f4, [], []) == f4;
    assert FillAll(f3, ph[3..], b3) == f4;
    assert FillAll(f2, ph[2..], b2) == f4;
    assert FillAll(f1, ph[1..], b1) == f4;
  }

  lemma ExampleTemplate(ps: seq<Piece>)
    requires ps == [Lit("posts/"), Hole("{year}"), Lit("/"), Hole("{month}"), Lit("/"), Hole("{slug}"), Lit("-"), Hole("{id}")]
    ensures Render(ps) == "posts/{year}/{month}/{slug}-{id}"
    ensures Simple(ps)
  {
    Render8(ps);
    assert PieceText(ps[0]) == "posts/" && PieceText(ps[1]) == "{year}";
    assert PieceText(ps[2]) == "/" && PieceText(ps[3]) == "{month}";
    assert PieceText(ps[4]) == "/" && PieceText(ps[5]) == "{slug}";
    assert PieceText(ps[6]) == "-" && PieceText(ps[7]) == "{id}";
    TemplateText();
    ExampleSimple(ps);
  }

  lemma TemplateText()
    ensures "posts/" + ("{year}" + ("/" + ("{month}" + ("/" + ("{slug}" + ("-" + "{id}"))))))
      == "posts/{year}/{month}/{slug}-{id}"
  {
  }

  lemma ExampleSimple(ps: seq<Piece>)
    requires ps == [Lit("posts/"), Hole("{year}"), Lit("/"), Hole("{month}"), Lit("/"), Hole("{slug}"), Lit("-"), Hole("{id}")]
    ensures Simple(ps)
  {
    ExampleHoles();
    assert '{' !in "posts/" && '{' !in "/" && '{' !in "-";
  }

  lemma ExampleHoles()
    ensures IsToken("{year}") && '{' !in "{year}"[1..]
    ensures IsToken("{month}") && '{' !in "{month}"[1..]
    ensures IsToken("{slug}") && '{' !in "{slug}"[1..]
    ensures IsToken("{id}") && '{' !in "{id}"[1..]
  {
  }

  lemma ExampleFill(ps: seq<Piece>, ph: seq<string>, texts: seq<string>)
    requires ps == [Lit("posts/"), Hole("{year}"), Lit("/"), Hole("{month}"), Lit("/"), Hole("{slug}"), Lit("-"), Hole("{id}")]
    requires ph == ["{year}", "{month}", "{slug}", "{id}"]
    requires texts == ["2021", "01", "hello-world", "1"]
    ensures Render(FillAll(ps, ph, texts)) == "posts/2021/01/hello-world-1"
  {
    var f := [Lit("posts/"), Lit("2021"), Lit("/"), Lit("01"), Lit("/"), Lit("hello-world"), Lit("-"), Lit("1")];
    FillAll4(ps, ph, texts);
    ExampleFilled(ps, f);
    Render8(f);
    ExampleText();
  }

  lemma ExampleText()
    ensures "posts/" + ("2021" + ("/" + ("01" + ("/" + ("hello-world" + ("-" + "1")))))) == "posts/2021/01/hello-world-1"
  {
  }

  lemma ExampleFilled(ps: seq<Piece>, f: seq<Piece>)
    requires ps == [Lit("posts/"), Hole("{year}"), Lit("/"), Hole("{month}"), Lit("/"), Hole("{slug}"), Lit("-"), Hole("{id}")]
    requires f == [Lit("posts/"), Lit("2021"), Lit("/"), Lit("01"), Lit("/"), Lit("hello-world"), Lit("-"), Lit("1")]
    ensures Fill(Fill(Fill(Fill(ps, "{year}", "2021"), "{month}", "01"), "{slug}", "hello-world"), "{id}", "1") == f
  {
  }

  lemma ExampleKey(p: string, ph: seq<string>, keys: seq<string>, args: map<string, Value>)
    requires p == "posts/{year}/{month}/{slug}-{id}"
    requires ph == ["{year}", "{month}", "{slug}", "{id}"]
    requires keys == ["year", "month", "slug", "id"]
    requires args == map["year" := Str("2021"), "month" := Str("01"), "slug" := Str("hello-world"), "id" := Int(1)]
    ensures ReplaceAll(p, ph, FieldTexts(args, keys)) == "posts/2021/01/hello-world-1"
  {
    var texts := FieldTexts(args, keys);
    ExampleTexts(args, keys);
    var ps := [Lit("posts/"), Hole("{year}"), Lit("/"), Hole("{month}"), Lit("/"), Hole("{slug}"), Lit("-"), Hole("{id}")];
    ExampleTemplate(ps);
    ReplaceAllFills(ps, ph, texts);
    ExampleFill(ps, ph, texts);
  }

  /** The key depends only on the fields the keys name. */
  lemma KeyDependsOnNamedFields(id: Identifier, a: map<string, Value>, b: map<string, Value>)
    requires forall k | k in id.keys :: Field(a, k) == Field(b, k)
    ensures ReplaceAll(id.pattern, id.placeholders, FieldTexts(a, id.keys))
         == ReplaceAll(id.pattern, id.placeholders, FieldTexts(b, id.keys))
  {
    assert FieldTexts(a, id.keys) == FieldTexts(b, id.keys);
  }
}
