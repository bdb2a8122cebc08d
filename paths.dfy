/**
 * String paths as the storage layers build them, and the PHP string functions
 * (rtrim, trim, explode, implode, dirname, substr, str_ends_with, strpos === 0)
 * that the layers apply to them. The separator is fixed to '/'.
 */
module Paths {

  const Separator: char := '/'

  /** The characters the storage code strips with rtrim/trim: '/' and '\'. */
  const SlashChars: set<char> := {'/', '\\'}

  /** PHP trim()'s default set: space, tab, line feed, carriage return, NUL, vertical tab. */
  const Whitespace: set<char> := {' ', '\t', '\n', '\r', '\0', '\U{000B}'}

  /** rtrim(s, cs): the longest prefix of s that does not end with a character of cs. */
  function RTrim(s: string, cs: set<char>): (r: string)
    ensures |r| <= |s| && r == s[..|r|]
    ensures r == "" || r[|r| - 1] !in cs
    ensures forall i | |r| <= i < |s| :: s[i] in cs
    decreases |s|
  {
    if |s| > 0 && s[|s| - 1] in cs then RTrim(s[..|s| - 1], cs) else s
  }

  /** ltrim(s, cs): the longest suffix of s that does not start with a character of cs. */
  function LTrim(s: string, cs: set<char>): (r: string)
    ensures |r| <= |s| && r == s[|s| - |r|..]
    ensures r == "" || r[0] !in cs
    ensures forall i | 0 <= i < |s| - |r| :: s[i] in cs
    decreases |s|
  {
    if |s| > 0 && s[0] in cs then LTrim(s[1..], cs) else s
  }

  /** The n characters of s from offset k. */
  function Slice(s: string, k: nat, n: nat): string
    requires k + n <= |s|
  {
    s[k..k + n]
  }

  /** r is s with characters of cs removed from its two ends and nowhere else. */
  ghost predicate TrimmedFrom(s: string, r: string, cs: set<char>)
  {
    exists k: nat | k + |r| <= |s| ::
      && r == Slice(s, k, |r|)
      && (forall i | 0 <= i < k :: s[i] in cs)
      && (forall i | k + |r| <= i < |s| :: s[i] in cs)
  }

  /** trim(s, cs): both ends stripped. */
  function Trim(s: string, cs: set<char>): (r: string)
    ensures r == "" || (r[0] !in cs && r[|r| - 1] !in cs)
  {
    LTrim(RTrim(s, cs), cs)
  }

  /** trim removes characters of cs from the two ends and nowhere else, and leaves none at either end. */
  lemma TrimSpec(s: string, cs: set<char>)
    ensures TrimmedFrom(s, Trim(s, cs), cs)
    ensures var r := Trim(s, cs); r == "" || (r[0] !in cs && r[|r| - 1] !in cs)
  {
    var a := RTrim(s, cs);
    var r := LTrim(a, cs);
    var k := |a| - |r|;
    TrimWitness(s, a, r, cs);
  }

  lemma TrimWitness(s: string, a: string, r: string, cs: set<char>)
    requires a == RTrim(s, cs) && r == LTrim(a, cs)
    ensures var k := |a| - |r|;
      && k + |r| <= |s| && r == Slice(s, k, |r|)
      && (forall i | 0 <= i < k :: s[i] in cs)
      && (forall i | k + |r| <= i < |s| :: s[i] in cs)
  {
    var k := |a| - |r|;
    assert |a| <= |s| && a == s[..|a|];
    assert r == a[k..];
    forall j | 0 <= j < |r|
      ensures s[k + j] == r[j]
    {
      assert r[j] == a[k + j];
    }
    assert r == Slice(s, k, |r|);
    forall i | 0 <= i < k
      ensures s[i] in cs
    {
      assert a[i] in cs;
    }
  }

  /** Trimming twice is trimming once with both sets: the outer cut contains the inner one. */
  lemma TrimmedTwice(s: string, t: string, r: string, c1: set<char>, c2: set<char>)
    requires TrimmedFrom(s, t, c1) && TrimmedFrom(t, r, c2)
    ensures TrimmedFrom(s, r, c1 + c2)
  {
    var k1: nat :| k1 + |t| <= |s| && t == Slice(s, k1, |t|)
      && (forall i | 0 <= i < k1 :: s[i] in c1) && (forall i | k1 + |t| <= i < |s| :: s[i] in c1);
    var k2: nat :| k2 + |r| <= |t| && r == Slice(t, k2, |r|)
      && (forall i | 0 <= i < k2 :: t[i] in c2) && (forall i | k2 + |r| <= i < |t| :: t[i] in c2);
    TrimmedAtCompose(s, t, r, c1, c2, k1, k2);
    assert r == Slice(s, k1 + k2, |r|);
  }

  lemma TrimmedAtCompose(s: string, t: string, r: string, c1: set<char>, c2: set<char>, k1: nat, k2: nat)
    requires k1 + |t| <= |s| && t == s[k1..k1 + |t|]
    requires forall i | 0 <= i < k1 :: s[i] in c1
    requires forall i | k1 + |t| <= i < |s| :: s[i] in c1
    requires k2 + |r| <= |t| && r == t[k2..k2 + |r|]
    requires forall i | 0 <= i < k2 :: t[i] in c2
    requires forall i | k2 + |r| <= i < |t| :: t[i] in c2
    ensures var k := k1 + k2;
      && k + |r| <= |s| && r == s[k..k + |r|]
      && (forall i | 0 <= i < k :: s[i] in c1 + c2)
      && (forall i | k + |r| <= i < |s| :: s[i] in c1 + c2)
  {
    var k := k1 + k2;
    forall j | 0 <= j < |r|
      ensures s[k + j] == r[j]
    {
      assert r[j] == t[k2 + j] && t[k2 + j] == s[k1 + (k2 + j)];
    }
    assert r == s[k..k + |r|];
    forall i | 0 <= i < k
      ensures s[i] in c1 + c2
    {
      if i >= k1 {
        assert s[i] == t[i - k1] && t[i - k1] in c2;
      }
    }
    forall i | k + |r| <= i < |s|
      ensures s[i] in c1 + c2
    {
      if i < k1 + |t| {
        assert s[i] == t[i - k1] && t[i - k1] in c2;
      }
    }
  }

  /** Strips the trailing run of characters different from '/', i.e. the last name. */
  function DropLastName(s: string): (r: string)
    ensures |r| <= |s| && r == s[..|r|]
    ensures r == "" || r[|r| - 1] == Separator
    ensures forall i | |r| <= i < |s| :: s[i] != Separator
    decreases |s|
  {
    if |s| > 0 && s[|s| - 1] != Separator then DropLastName(s[..|s| - 1]) else s
  }

  /**
   * PHP dirname(): '' stays '', a path of slashes only gives '/', a single name
   * gives '.', otherwise the path up to its last name with the slashes before
   * that name removed ('/' when nothing is left).
   */
  function Dirname(p: string): string
  {
    if p == "" then ""
    else
      var a := RTrim(p, {Separator});
      if a == "" then "/"
      else
        var b := DropLastName(a);
        if b == "" then "."
        else
          var c := RTrim(b, {Separator});
          if c == "" then "/" else c
  }

  /** explode('/', s): the pieces between separators, empty pieces included. */
  function Split(s: string): (r: seq<string>)
    ensures |r| >= 1
    ensures forall i | 0 <= i < |r| :: Separator !in r[i]
    decreases |s|
  {
    if |s| == 0 then [""]
    else
      var rest := Split(s[1..]);
      if s[0] == Separator then [""] + rest
      else [[s[0]] + rest[0]] + rest[1..]
  }

  /** implode('/', segs). */
  function Join(segs: seq<string>): string
  {
    if |segs| == 0 then ""
    else if |segs| == 1 then segs[0]
    else segs[0] + [Separator] + Join(segs[1..])
  }

  /** A name a filesystem entry can have under the '/' separator. */
  predicate ValidName(n: string)
  {
    n != "" && n != "." && Separator !in n
  }

  /** The names of a split path, with the empty and '.' pieces the OS ignores dropped. */
  function Names(pieces: seq<string>): (r: seq<string>)
    requires forall i | 0 <= i < |pieces| :: Separator !in pieces[i]
    ensures |r| <= |pieces|
    ensures forall i | 0 <= i < |r| :: ValidName(r[i])
  {
    if pieces == [] then []
    else
      (if pieces[0] == "" || pieces[0] == "." then [] else [pieces[0]]) + Names(pieces[1..])
  }

  /**
   * How the operating system resolves a path string to a sequence of names:
   * 'a//b/', './a/b' and 'a/b' all name the same entry.
   */
  function Resolve(path: string): (r: seq<string>)
    ensures forall i | 0 <= i < |r| :: ValidName(r[i])
  {
    Names(Split(path))
  }

  /** The last piece of explode('/', s): what follows the last separator. */
  function LastPiece(s: string): (r: string)
    ensures Separator !in r
  {
    var pieces := Split(s);
    pieces[|pieces| - 1]
  }

  /** strpos(s, prefix) === 0. */
  predicate StartsWith(s: string, prefix: string)
  {
    |prefix| <= |s| && s[..|prefix|] == prefix
  }

  /** str_ends_with(s, suffix). */
  predicate EndsWith(s: string, suffix: string)
  {
    |suffix| <= |s| && s[|s| - |suffix|..] == suffix
  }

  /** substr(s, start) for a non-negative start (PHP 8: '' past the end). */
  function Substr(s: string, start: nat): (r: string)
    ensures start <= |s| ==> s == s[..start] + r
    ensures start >= |s| ==> r == ""
  {
    if start <= |s| then s[start..] else ""
  }

  /** substr(s, 0, -n): s without its last n characters ('' when s is not longer than n). */
  function DropLast(s: string, n: nat): (r: string)
    ensures n < |s| ==> |r| == |s| - n && s == r + s[|s| - n..]
    ensures n >= |s| ==> r == ""
  {
    if n < |s| then s[..|s| - n] else ""
  }

  // ---------------------------------------------------------------------
  // Lemmas
  // ---------------------------------------------------------------------

  lemma {:induction false} SplitName(s: string)
    requires Separator !in s
    ensures Split(s) == [s]
    decreases |s|
  {
    if |s| > 0 {
      SplitName(s[1..]);
      assert [s[0]] + s[1..] == s;
    }
  }

  /** explode distributes over a separator. */
  lemma {:induction false} SplitAppend(a: string, b: string)
    ensures Split(a + [Separator] + b) == Split(a) + Split(b)
    decreases |a|
  {
    var s := a + [Separator] + b;
    if |a| == 0 {
      assert s[1..] == b;
    } else {
      assert s[1..] == a[1..] + [Separator] + b;
      SplitAppend(a[1..], b);
    }
  }

  /** implode inverts explode. */
  lemma {:induction false} JoinSplit(s: string)
    ensures Join(Split(s)) == s
    decreases |s|
  {
    if |s| > 0 {
      var rest := Split(s[1..]);
      JoinSplit(s[1..]);
      if s[0] == Separator {
        assert Join([""] + rest) == "" + [Separator] + Join(rest) by {
          assert ([""] + rest)[1..] == rest;
        }
        assert [s[0]] + s[1..] == s;
      } else {
        var r := [[s[0]] + rest[0]] + rest[1..];
        if |rest| == 1 {
          assert Join(r) == [s[0]] + rest[0];
        } else {
          assert r[1..] == rest[1..];
          assert Join(rest) == rest[0] + [Separator] + Join(rest[1..]);
        }
        assert [s[0]] + s[1..] == s;
      }
    }
  }

  /** explode inverts implode on separator-free pieces. */
  lemma {:induction false} SplitJoin(segs: seq<string>)
    requires |segs| >= 1
    requires forall i | 0 <= i < |segs| :: Separator !in segs[i]
    ensures Split(Join(segs)) == segs
    decreases |segs|
  {
    if |segs| == 1 {
      SplitName(segs[0]);
    } else {
      SplitJoin(segs[1..]);
      SplitAppend(segs[0], Join(segs[1..]));
      SplitName(segs[0]);
    }
  }

  lemma {:induction false} NamesAppend(a: seq<string>, b: seq<string>)
    requires forall i | 0 <= i < |a| :: Separator !in a[i]
    requires forall i | 0 <= i < |b| :: Separator !in b[i]
    ensures Names(a + b) == Names(a) + Names(b)
    decreases |a|
  {
    if a != [] {
      assert (a + b)[1..] == a[1..] + b;
      NamesAppend(a[1..], b);
    } else {
      assert a + b == b;
    }
  }

  /** Appending '/name...' to a path extends its resolution. */
  lemma ResolveAppend(a: string, b: string)
    ensures Resolve(a + [Separator] + b) == Resolve(a) + Resolve(b)
  {
    SplitAppend(a, b);
    NamesAppend(Split(a), Split(b));
  }

  lemma ResolveName(n: string)
    requires ValidName(n)
    ensures Resolve(n) == [n]
  {
    SplitName(n);
  }

  /** Joining valid names and resolving gives the names back. */
  lemma {:induction false} ResolveJoin(segs: seq<string>)
    requires forall i | 0 <= i < |segs| :: ValidName(segs[i])
    ensures Resolve(Join(segs)) == segs
    decreases |segs|
  {
    if |segs| == 0 {
    } else if |segs| == 1 {
      ResolveName(segs[0]);
    } else {
      ResolveJoin(segs[1..]);
      ResolveAppend(segs[0], Join(segs[1..]));
      ResolveName(segs[0]);
    }
  }

  /** Join of a non-empty sequence whose last piece is `last`. */
  lemma {:induction false} JoinSnoc(segs: seq<string>, last: string)
    requires |segs| >= 1
    ensures Join(segs + [last]) == Join(segs) + [Separator] + last
    decreases |segs|
  {
    if |segs| == 1 {
      assert (segs + [last])[1..] == [last];
    } else {
      assert (segs + [last])[1..] == segs[1..] + [last];
      JoinSnoc(segs[1..], last);
    }
  }

  /** The last piece of 'a/b' is the last piece of b. */
  lemma LastPieceAppend(a: string, b: string)
    ensures LastPiece(a + [Separator] + b) == LastPiece(b)
  {
    SplitAppend(a, b);
  }

  lemma LastPieceName(n: string)
    requires Separator !in n
    ensures LastPiece(n) == n
  {
    SplitName(n);
  }

  /** dirname of 'd/name' is d when d is a non-empty path not ending in '/'. */
  lemma DirnameChild(d: string, name: string)
    requires d != "" && d[|d| - 1] != Separator
    requires name != "" && Separator !in name
    ensures Dirname(d + [Separator] + name) == d
  {
    var p := d + [Separator] + name;
    assert p[|p| - 1] == name[|name| - 1];
    assert RTrim(p, {Separator}) == p;
    var b := DropLastName(p);
    assert |b| == |d| + 1 by {
      assert p[|d|] == Separator;
      assert forall i | |d| < i < |p| :: p[i] == name[i - |d| - 1];
    }
    assert b == d + [Separator];
    assert RTrim(b, {Separator}) == RTrim(d, {Separator}) by {
      assert b[..|b| - 1] == d;
    }
  }

  /** The last piece of implode('/', names) is the last name. */
  lemma {:induction false} LastPieceOfJoin(segs: seq<string>)
    requires |segs| >= 1
    requires forall i | 0 <= i < |segs| :: Separator !in segs[i]
    ensures LastPiece(Join(segs)) == segs[|segs| - 1]
  {
    SplitJoin(segs);
  }

  /** dirname('a/b') still starts with a, when neither a nor b ends in '/'. */
  lemma DirnameKeepsPrefix(a: string, b: string)
    requires a != "" && a[|a| - 1] != Separator
    requires b != "" && b[|b| - 1] != Separator
    ensures StartsWith(Dirname(a + [Separator] + b), a)
  {
    var p := a + [Separator] + b;
    assert p[|p| - 1] == b[|b| - 1];
    assert RTrim(p, {Separator}) == p;
    var r := DropLastName(p);
    assert p[|a|] == Separator;
    assert |r| > |a|;
    var c := RTrim(r, {Separator});
    assert r[|a| - 1] == a[|a| - 1];
    assert |c| >= |a|;
    assert c[..|a|] == r[..|a|] == a;
  }

  /** The last character of implode('/', names) is the last character of the last name. */
  lemma JoinLastChar(segs: seq<string>)
    requires |segs| >= 1 && segs[|segs| - 1] != ""
    ensures var j := Join(segs); j != "" && j[|j| - 1] == segs[|segs| - 1][|segs[|segs| - 1]| - 1]
  {
    if |segs| >= 2 {
      assert segs == segs[..|segs| - 1] + [segs[|segs| - 1]];
      JoinSnoc(segs[..|segs| - 1], segs[|segs| - 1]);
    }
  }

  lemma SeparatedAssoc(a: string, b: string, c: string)
    ensures a + [Separator] + (b + [Separator] + c) == (a + [Separator] + b) + [Separator] + c
  {
  }

  /** Appending separator-free text extends the last piece and keeps the number of pieces. */
  lemma {:induction false} LastPieceSuffix(s: string, t: string)
    requires Separator !in t
    ensures |Split(s + t)| == |Split(s)|
    ensures LastPiece(s + t) == LastPiece(s) + t
    decreases |s|
  {
    if |s| == 0 {
      assert s + t == t;
      SplitName(t);
    } else {
      var u := s + t;
      assert u[0] == s[0];
      assert u[1..] == s[1..] + t;
      LastPieceSuffix(s[1..], t);
      SplitCons(u);
      SplitCons(s);
      PiecesStep(s[0], Split(s[1..]), Split(u[1..]), t);
    }
  }

  /** One step of explode('/'): the first character opens a new piece or extends the first one. */
  function PieceStep(c: char, r: seq<string>): seq<string>
    requires |r| >= 1
  {
    if c == Separator then [""] + r else [[c] + r[0]] + r[1..]
  }

  lemma SplitCons(s: string)
    requires s != ""
    ensures Split(s) == PieceStep(s[0], Split(s[1..]))
  {
  }

  /** A step keeps the number of pieces equal and text appended to the last piece. */
  lemma PiecesStep(c: char, r: seq<string>, r': seq<string>, t: string)
    requires |r| >= 1 && |r'| == |r| && r'[|r'| - 1] == r[|r| - 1] + t
    ensures var p, p' := PieceStep(c, r), PieceStep(c, r');
      |p'| == |p| && p'[|p'| - 1] == p[|p| - 1] + t
  {
    if c != Separator && |r| == 1 {
      assert [c] + (r[0] + t) == ([c] + r[0]) + t;
    }
  }

  /** dirname() of 'd//name' is d: the doubled separator before the last name is dropped with it. */
  lemma DirnameDoubleSeparator(d: string, name: string)
    requires d != "" && d[|d| - 1] != Separator
    requires name != "" && Separator !in name
    ensures Dirname(d + [Separator, Separator] + name) == d
  {
    var p := d + [Separator, Separator] + name;
    assert p[|p| - 1] == name[|name| - 1];
    assert RTrim(p, {Separator}) == p;
    var b := DropLastName(p);
    assert p[|d| + 1] == Separator;
    assert forall i | |d| + 2 <= i < |p| :: p[i] == name[i - |d| - 2];
    assert |b| == |d| + 2;
    assert b == d + [Separator, Separator];
    var c := RTrim(b, {Separator});
    assert b[|d| - 1] == d[|d| - 1];
    assert |c| == |d|;
    assert c == d;
  }
}
