/**
  POSIX path functions as the host library (posixpath) computes them, on
  strings: isabs, join, dirname, normpath, abspath and relpath, with the
  string splitting and joining they are built from.  The working directory
  that abspath and relpath consult is a parameter.
 */
module Paths {
  import opened Wrappers

  const Sep: char := '/'
  const CurDir: string := "."
  const ParDir: string := ".."

  // ---------------------------------------------------------------------
  // str.split(sep) and sep.join(parts)
  // ---------------------------------------------------------------------

  /** `s.split(sep)`: the pieces between separators, never an empty list. */
  function Split(s: string, sep: char): (r: seq<string>)
    ensures |r| >= 1
    ensures forall i :: 0 <= i < |r| ==> sep !in r[i]
    decreases |s|
  {
    if s == [] then [""]
    else
      var rest := Split(s[1..], sep);
      if s[0] == sep then [""] + rest
      else [[s[0]] + rest[0]] + rest[1..]
  }

  /** `sep.join(parts)`. */
  function JoinWith(parts: seq<string>, sep: char): string
  {
    if parts == [] then ""
    else if |parts| == 1 then parts[0]
    else parts[0] + [sep] + JoinWith(parts[1..], sep)
  }

  lemma {:induction false} SplitNoSep(s: string, sep: char)
    requires sep !in s
    ensures Split(s, sep) == [s]
    decreases |s|
  {
    if s != [] {
      SplitNoSep(s[1..], sep);
      assert [s[0]] + s[1..] == s;
    }
  }

  /** One step of Split: the first character either starts a new piece or extends the first piece. */
  lemma SplitCons(c: char, t: string, sep: char)
    ensures Split([c] + t, sep) ==
      if c == sep then [""] + Split(t, sep)
      else [[c] + Split(t, sep)[0]] + Split(t, sep)[1..]
  {
    assert ([c] + t)[1..] == t;
  }

  /** Putting a piece in front of a list of pieces commutes with appending more pieces. */
  lemma ConsPieces(c: char, sep: char, A: seq<string>, B: seq<string>)
    requires |A| >= 1
    ensures (if c == sep then [""] + (A + B) else [[c] + (A + B)[0]] + (A + B)[1..]) ==
      (if c == sep then [""] + A else [[c] + A[0]] + A[1..]) + B
  {
    if c != sep {
      assert (A + B)[0] == A[0];
      assert (A + B)[1..] == A[1..] + B;
    }
  }

  /** The inductive step of SplitConcat: a character put in front of both sides. */
  lemma SplitConsConcat(c: char, t: string, b: string, sep: char)
    requires Split(t + [sep] + b, sep) == Split(t, sep) + Split(b, sep)
    ensures Split([c] + (t + [sep] + b), sep) == Split([c] + t, sep) + Split(b, sep)
  {
    SplitCons(c, t + [sep] + b, sep);
    SplitCons(c, t, sep);
    ConsPieces(c, sep, Split(t, sep), Split(b, sep));
  }

  /** Splitting at a separator splits the two halves independently. */
  lemma {:induction false} SplitConcat(a: string, b: string, sep: char)
    ensures Split(a + [sep] + b, sep) == Split(a, sep) + Split(b, sep)
    decreases |a|
  {
    if a == [] {
      assert a + [sep] + b == [sep] + b;
      SplitCons(sep, b, sep);
    } else {
      SplitConcat(a[1..], b, sep);
      assert a + [sep] + b == [a[0]] + (a[1..] + [sep] + b);
      assert a == [a[0]] + a[1..];
      SplitConsConcat(a[0], a[1..], b, sep);
    }
  }

  /** Joining what was split gives back the original string. */
  lemma {:induction false} JoinSplit(s: string, sep: char)
    ensures JoinWith(Split(s, sep), sep) == s
    decreases |s|
  {
    if s != [] {
      JoinSplit(s[1..], sep);
      var rest := Split(s[1..], sep);
      assert JoinWith(rest, sep) == s[1..];
      assert s == [s[0]] + s[1..];
      if s[0] == sep {
        var parts := [""] + rest;
        assert Split(s, sep) == parts;
        assert parts[1..] == rest;
        assert JoinWith(parts, sep) == "" + [sep] + JoinWith(rest, sep);
      } else if |rest| == 1 {
        assert Split(s, sep) == [[s[0]] + rest[0]];
      } else {
        var first := [s[0]] + rest[0];
        var parts := [first] + rest[1..];
        assert Split(s, sep) == parts;
        assert parts[1..] == rest[1..];
        assert JoinWith(parts, sep) == first + [sep] + JoinWith(rest[1..], sep);
        assert JoinWith(rest, sep) == rest[0] + [sep] + JoinWith(rest[1..], sep);
      }
    }
  }

  /** Splitting what was joined gives back the parts, when no part holds the separator. */
  lemma {:induction false} SplitJoin(parts: seq<string>, sep: char)
    requires |parts| >= 1
    requires forall i :: 0 <= i < |parts| ==> sep !in parts[i]
    ensures Split(JoinWith(parts, sep), sep) == parts
    decreases |parts|
  {
    SplitNoSep(parts[0], sep);
    if |parts| > 1 {
      SplitJoin(parts[1..], sep);
      SplitConcat(parts[0], JoinWith(parts[1..], sep), sep);
      assert parts == [parts[0]] + parts[1..];
    }
  }

  lemma {:induction false} JoinWithSnoc(parts: seq<string>, x: string, sep: char)
    requires |parts| >= 1
    ensures JoinWith(parts + [x], sep) == JoinWith(parts, sep) + [sep] + x
    decreases |parts|
  {
    if |parts| > 1 {
      JoinWithSnoc(parts[1..], x, sep);
      assert (parts + [x])[1..] == parts[1..] + [x];
    } else {
      assert (parts + [x])[1..] == [x];
    }
  }

  // ---------------------------------------------------------------------
  // isabs, join, dirname
  // ---------------------------------------------------------------------

  /** `os.path.isabs`. */
  predicate IsAbs(p: string)
  {
    |p| > 0 && p[0] == Sep
  }

  /** Two-argument `os.path.join`. */
  function Join(a: string, b: string): (r: string)
  {
    if IsAbs(b) then b
    else if a == "" || a[|a| - 1] == Sep then a + b
    else a + [Sep] + b
  }

  /** `os.path.join(first, *rest)`: Join applied from left to right. */
  function JoinFrom(path: string, rest: seq<string>): string
    decreases |rest|
  {
    if rest == [] then path else JoinFrom(Join(path, rest[0]), rest[1..])
  }

  /** `str.rfind(c)`: the last index holding `c`, or -1. */
  function RFind(s: string, c: char): (r: int)
    ensures -1 <= r < |s|
    ensures r >= 0 ==> s[r] == c
    ensures forall j :: r < j < |s| ==> s[j] != c
    decreases |s|
  {
    if s == [] then -1
    else if s[|s| - 1] == c then |s| - 1
    else RFind(s[..|s| - 1], c)
  }

  /** `str.rstrip(c)`. */
  function RStripChar(s: string, c: char): (r: string)
    ensures r <= s
    ensures r == [] || r[|r| - 1] != c
    ensures forall j :: |r| <= j < |s| ==> s[j] == c
    decreases |s|
  {
    if s != [] && s[|s| - 1] == c then RStripChar(s[..|s| - 1], c) else s
  }

  predicate AllSep(s: string)
  {
    forall j :: 0 <= j < |s| ==> s[j] == Sep
  }

  /** `os.path.dirname`: everything before the last separator, with trailing separators dropped unless only separators remain. */
  function Dirname(p: string): (r: string)
  {
    var head := p[..RFind(p, Sep) + 1];
    if head != "" && !AllSep(head) then RStripChar(head, Sep) else head
  }

  // ---------------------------------------------------------------------
  // normpath
  // ---------------------------------------------------------------------

  /** How many leading separators normpath keeps: two exactly when the path starts with two but not three, else one when absolute. */
  function InitialSlashes(p: string): nat
  {
    if !IsAbs(p) then 0
    else if |p| >= 2 && p[1] == Sep && !(|p| >= 3 && p[2] == Sep) then 2
    else 1
  }

  function Slashes(n: nat): string
  {
    seq(n, _ => Sep)
  }

  /** The component loop of normpath: drop empty and "." components, let ".." cancel the previous component. */
  function Resolve(comps: seq<string>, rooted: bool, acc: seq<string>): seq<string>
    decreases |comps|
  {
    if comps == [] then acc
    else
      var c := comps[0];
      var next :=
        if c == "" || c == CurDir then acc
        else if c != ParDir || (!rooted && acc == []) || (acc != [] && acc[|acc| - 1] == ParDir) then acc + [c]
        else if acc != [] then acc[..|acc| - 1]
        else acc;
      Resolve(comps[1..], rooted, next)
  }

  /** `os.path.normpath`. */
  function NormPath(p: string): (r: string)
  {
    if p == "" then CurDir
    else
      var n := InitialSlashes(p);
      var s := Slashes(n) + JoinWith(Resolve(Split(p, Sep), n > 0, []), Sep);
      if s == "" then CurDir else s
  }

  /** `os.path.abspath`, with the working directory as a parameter. */
  function AbsPath(cwd: string, p: string): string
  {
    NormPath(if IsAbs(p) then p else Join(cwd, p))
  }

  // ---------------------------------------------------------------------
  // relpath
  // ---------------------------------------------------------------------

  function NonEmpty(parts: seq<string>): (r: seq<string>)
    ensures forall i :: 0 <= i < |r| ==> r[i] != ""
    decreases |parts|
  {
    if parts == [] then []
    else if parts[0] == "" then NonEmpty(parts[1..])
    else [parts[0]] + NonEmpty(parts[1..])
  }

  /** Length of the longest common prefix of two component lists (`commonprefix`). */
  function CommonPrefixLength(a: seq<string>, b: seq<string>): (n: nat)
    ensures n <= |a| && n <= |b|
    ensures a[..n] == b[..n]
    ensures n < |a| && n < |b| ==> a[n] != b[n]
    decreases |a|
  {
    if a == [] || b == [] || a[0] != b[0] then 0
    else
      var k := CommonPrefixLength(a[1..], b[1..]);
      assert a[..k + 1] == [a[0]] + a[1..][..k];
      assert b[..k + 1] == [b[0]] + b[1..][..k];
      k + 1
  }

  /** `os.path.relpath(p)` relative to the working directory; None stands for the ValueError raised on an empty path. */
  function RelPath(cwd: string, p: string): Option<string>
  {
    if p == "" then None
    else
      var startList := NonEmpty(Split(AbsPath(cwd, CurDir), Sep));
      var pathList := NonEmpty(Split(AbsPath(cwd, p), Sep));
      var i := CommonPrefixLength(startList, pathList);
      var relList := seq(|startList| - i, _ => ParDir) + pathList[i..];
      if relList == [] then Some(CurDir) else Some(JoinFrom(relList[0], relList[1..]))
  }
}
