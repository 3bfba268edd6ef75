/**
  Properties of the POSIX path functions: normpath yields a canonical path
  and is idempotent, abspath yields an absolute canonical path, dirname
  undoes join, relpath of a plain relative path is its normpath, and relpath of
  any path leads back to it from the working directory.
 */
module PathLemmas {
  import opened Wrappers
  import opened Paths

  /** Every component is non-empty and free of separators. */
  ghost predicate SlashFree(xs: seq<string>)
  {
    forall i :: 0 <= i < |xs| ==> xs[i] != "" && Sep !in xs[i]
  }

  /** The component lists normpath produces: no "", no ".", and ".." only as a leading run of a relative path. */
  ghost predicate Canonical(xs: seq<string>, rooted: bool)
  {
    && SlashFree(xs)
    && (forall i :: 0 <= i < |xs| ==> xs[i] != CurDir)
    && (forall i :: 0 <= i < |xs| && xs[i] == ParDir ==> !rooted)
    && (forall i, j :: 0 <= j < i < |xs| && xs[i] == ParDir ==> xs[j] == ParDir)
  }

  function Empties(k: nat): seq<string>
  {
    seq(k, _ => "")
  }

  // ---------------------------------------------------------------------
  // the component loop of normpath
  // ---------------------------------------------------------------------

  lemma {:induction false} ResolveAppend(xs: seq<string>, ys: seq<string>, rooted: bool, acc: seq<string>)
    ensures Resolve(xs + ys, rooted, acc) == Resolve(ys, rooted, Resolve(xs, rooted, acc))
    decreases |xs|
  {
    if xs != [] {
      assert (xs + ys)[0] == xs[0] && (xs + ys)[1..] == xs[1..] + ys;
      var c := xs[0];
      var next :=
        if c == "" || c == CurDir then acc
        else if c != ParDir || (!rooted && acc == []) || (acc != [] && acc[|acc| - 1] == ParDir) then acc + [c]
        else if acc != [] then acc[..|acc| - 1]
        else acc;
      ResolveAppend(xs[1..], ys, rooted, next);
    } else {
      assert xs + ys == ys;
    }
  }

  lemma {:induction false} ResolveSkipsEmpties(k: nat, xs: seq<string>, rooted: bool, acc: seq<string>)
    ensures Resolve(Empties(k) + xs, rooted, acc) == Resolve(xs, rooted, acc)
    decreases k
  {
    if k > 0 {
      assert (Empties(k) + xs)[0] == "";
      assert (Empties(k) + xs)[1..] == Empties(k - 1) + xs;
      ResolveSkipsEmpties(k - 1, xs, rooted, acc);
    } else {
      assert Empties(k) + xs == xs;
    }
  }

  /** The loop keeps its accumulator canonical. */
  lemma {:induction false} ResolveCanonical(comps: seq<string>, rooted: bool, acc: seq<string>)
    requires Canonical(acc, rooted)
    requires forall i :: 0 <= i < |comps| ==> Sep !in comps[i]
    ensures Canonical(Resolve(comps, rooted, acc), rooted)
    decreases |comps|
  {
    if comps != [] {
      var c := comps[0];
      var next :=
        if c == "" || c == CurDir then acc
        else if c != ParDir || (!rooted && acc == []) || (acc != [] && acc[|acc| - 1] == ParDir) then acc + [c]
        else if acc != [] then acc[..|acc| - 1]
        else acc;
      if c != "" && c != CurDir && c == ParDir && acc != [] && acc[|acc| - 1] == ParDir {
        assert forall j :: 0 <= j < |acc| ==> acc[j] == ParDir by {
          forall j | 0 <= j < |acc| ensures acc[j] == ParDir {
            if j < |acc| - 1 {
              assert acc[|acc| - 1] == ParDir;
            }
          }
        }
      }
      assert Canonical(next, rooted);
      ResolveCanonical(comps[1..], rooted, next);
    }
  }

  /** The loop leaves canonical input untouched. */
  lemma {:induction false} ResolveIdentity(xs: seq<string>, rooted: bool, acc: seq<string>)
    requires Canonical(acc + xs, rooted)
    ensures Resolve(xs, rooted, acc) == acc + xs
    decreases |xs|
  {
    if xs != [] {
      var c := xs[0];
      assert c == (acc + xs)[|acc|];
      if c == ParDir {
        assert !rooted;
        if acc != [] {
          assert acc[|acc| - 1] == (acc + xs)[|acc| - 1];
        }
      }
      assert acc + xs == (acc + [c]) + xs[1..];
      ResolveIdentity(xs[1..], rooted, acc + [c]);
    }
  }

  /** Without ".." components the loop only filters, whatever `rooted` is. */
  lemma {:induction false} ResolveNoParDir(xs: seq<string>, rooted: bool, rooted': bool, acc: seq<string>)
    requires ParDir !in xs
    ensures Resolve(xs, rooted, acc) == acc + Resolve(xs, rooted', [])
    decreases |xs|
  {
    if xs != [] {
      var c := xs[0];
      assert c != ParDir by { assert xs[0] in xs; }
      assert ParDir !in xs[1..] by { assert forall y :: y in xs[1..] ==> y in xs; }
      if c == "" || c == CurDir {
        ResolveNoParDir(xs[1..], rooted, rooted', acc);
        ResolveNoParDir(xs[1..], rooted', rooted', []);
      } else {
        assert Resolve(xs, rooted, acc) == Resolve(xs[1..], rooted, acc + [c]);
        assert Resolve(xs, rooted', []) == Resolve(xs[1..], rooted', [] + [c]);
        assert [] + [c] == [c];
        ResolveNoParDir(xs[1..], rooted, rooted', acc + [c]);
        ResolveNoParDir(xs[1..], rooted', rooted', [c]);
      }
    }
  }

  // ---------------------------------------------------------------------
  // splitting slashes and joined components
  // ---------------------------------------------------------------------

  lemma {:induction false} SplitSlashes(k: nat, s: string)
    ensures Split(Slashes(k) + s, Sep) == Empties(k) + Split(s, Sep)
    decreases k
  {
    if k > 0 {
      var t := Slashes(k) + s;
      assert t[0] == Sep;
      assert t[1..] == Slashes(k - 1) + s;
      SplitSlashes(k - 1, s);
      assert Empties(k) == [""] + Empties(k - 1);
    } else {
      assert Slashes(k) + s == s;
    }
  }

  lemma {:induction false} NonEmptyAppend(a: seq<string>, b: seq<string>)
    ensures NonEmpty(a + b) == NonEmpty(a) + NonEmpty(b)
    decreases |a|
  {
    if a != [] {
      assert (a + b)[0] == a[0] && (a + b)[1..] == a[1..] + b;
      NonEmptyAppend(a[1..], b);
    } else {
      assert a + b == b;
    }
  }

  lemma {:induction false} NonEmptyEmpties(k: nat)
    ensures NonEmpty(Empties(k)) == []
    decreases k
  {
    if k > 0 {
      assert Empties(k)[1..] == Empties(k - 1);
      NonEmptyEmpties(k - 1);
    }
  }

  lemma {:induction false} NonEmptyOfSlashFree(xs: seq<string>)
    requires SlashFree(xs)
    ensures NonEmpty(xs) == xs
    decreases |xs|
  {
    if xs != [] {
      NonEmptyOfSlashFree(xs[1..]);
    }
  }

  lemma JoinWithFirst(xs: seq<string>)
    requires |xs| >= 1 && xs[0] != ""
    ensures JoinWith(xs, Sep) != "" && JoinWith(xs, Sep)[0] == xs[0][0]
  {
  }

  /** The components of a slash-separated join of canonical components, behind any number of leading slashes. */
  lemma SplitOfRooted(k: nat, xs: seq<string>)
    requires SlashFree(xs)
    ensures NonEmpty(Split(Slashes(k) + JoinWith(xs, Sep), Sep)) == xs
    ensures xs != [] ==> Split(Slashes(k) + JoinWith(xs, Sep), Sep) == Empties(k) + xs
    ensures xs == [] ==> Split(Slashes(k) + JoinWith(xs, Sep), Sep) == Empties(k) + [""]
  {
    SplitSlashes(k, JoinWith(xs, Sep));
    NonEmptyEmpties(k);
    if xs == [] {
      assert Split("", Sep) == [""];
      NonEmptyAppend(Empties(k), [""]);
    } else {
      SplitJoin(xs, Sep);
      NonEmptyAppend(Empties(k), xs);
      NonEmptyOfSlashFree(xs);
    }
  }

  // ---------------------------------------------------------------------
  // normpath
  // ---------------------------------------------------------------------

  /** What normpath returns: its leading slashes, then the canonical components joined by slashes, or "." when that is empty. */
  lemma NormPathShape(p: string)
    requires p != ""
    ensures Canonical(Resolve(Split(p, Sep), InitialSlashes(p) > 0, []), InitialSlashes(p) > 0)
    ensures var n, c := InitialSlashes(p), Resolve(Split(p, Sep), InitialSlashes(p) > 0, []);
      NormPath(p) == if n == 0 && c == [] then CurDir else Slashes(n) + JoinWith(c, Sep)
  {
    var n := InitialSlashes(p);
    ResolveCanonical(Split(p, Sep), n > 0, []);
    var c := Resolve(Split(p, Sep), n > 0, []);
    if c != [] {
      JoinWithFirst(c);
    }
  }

  /** normpath of an absolute path is absolute. */
  lemma NormPathAbsolute(p: string)
    requires IsAbs(p)
    ensures IsAbs(NormPath(p))
  {
    NormPathShape(p);
  }

  /** The leading slashes normpath writes are the ones it keeps when it reads them back. */
  lemma InitialSlashesKept(n: nat, c: seq<string>)
    requires n <= 2 && (c != [] ==> c[0] != "" && c[0][0] != Sep)
    ensures InitialSlashes(Slashes(n) + JoinWith(c, Sep)) == n
  {
    var q := Slashes(n) + JoinWith(c, Sep);
    if c != [] {
      JoinWithFirst(c);
    }
    if n == 1 {
      assert q[0] == Sep;
      assert |q| >= 2 ==> q[1] == JoinWith(c, Sep)[0];
    } else if n == 2 {
      assert q[0] == Sep && q[1] == Sep;
      assert |q| >= 3 ==> q[2] == JoinWith(c, Sep)[0];
    } else {
      assert q == JoinWith(c, Sep);
    }
  }

  /** normpath is idempotent: a normalised path is its own normal form. */
  lemma NormPathIdempotent(p: string)
    ensures NormPath(NormPath(p)) == NormPath(p)
  {
    NormPathOfCurDir();
    if p != "" {
      NormPathShape(p);
      var n := InitialSlashes(p);
      var c := Resolve(Split(p, Sep), n > 0, []);
      if !(n == 0 && c == []) {
        NormPathOfNormalForm(n, c);
      }
    }
  }

  lemma NormPathOfCurDir()
    ensures NormPath(CurDir) == CurDir
  {
    assert Split(CurDir, Sep) == [CurDir] by { SplitNoSep(CurDir, Sep); }
    assert InitialSlashes(CurDir) == 0;
    assert Resolve([CurDir], false, []) == Resolve([], false, []) == [];
    assert Slashes(0) == "";
  }

  /** What normpath writes (leading slashes, then canonical components) it leaves unchanged. */
  lemma NormPathOfNormalForm(n: nat, c: seq<string>)
    requires n <= 2 && Canonical(c, n > 0) && !(n == 0 && c == [])
    ensures NormPath(Slashes(n) + JoinWith(c, Sep)) == Slashes(n) + JoinWith(c, Sep)
  {
    var q := Slashes(n) + JoinWith(c, Sep);
    if c != [] {
      JoinWithFirst(c);
    }
    InitialSlashesKept(n, c);
    SplitOfRooted(n, c);
    if c == [] {
      ResolveSkipsEmpties(n, [""], n > 0, []);
    } else {
      ResolveSkipsEmpties(n, c, n > 0, []);
      ResolveIdentity(c, n > 0, []);
    }
    assert Resolve(Split(q, Sep), n > 0, []) == c;
  }

  /** The components of the normal form of an absolute path: the slashes drop out. */
  lemma ComponentsOfAbsolute(p: string)
    requires IsAbs(p)
    ensures NonEmpty(Split(NormPath(p), Sep)) == Resolve(Split(p, Sep), true, [])
  {
    NormPathShape(p);
    var n := InitialSlashes(p);
    SplitOfRooted(n, Resolve(Split(p, Sep), true, []));
  }

  /** abspath yields an absolute path in normal form, given an absolute working directory. */
  lemma AbsPathCanonical(cwd: string, p: string)
    requires IsAbs(cwd)
    ensures IsAbs(AbsPath(cwd, p))
    ensures NormPath(AbsPath(cwd, p)) == AbsPath(cwd, p)
  {
    var q := if IsAbs(p) then p else Join(cwd, p);
    assert IsAbs(q);
    NormPathAbsolute(q);
    NormPathIdempotent(q);
  }

  // ---------------------------------------------------------------------
  // join, dirname, relpath
  // ---------------------------------------------------------------------

  /** Joining a relative path to a non-empty base resolves the base's components first, then the relative ones. */
  lemma ResolveJoin(base: string, k: string, rooted: bool)
    requires base != "" && !IsAbs(k)
    ensures Resolve(Split(Join(base, k), Sep), rooted, [])
         == Resolve(Split(k, Sep), rooted, Resolve(Split(base, Sep), rooted, []))
  {
    if base[|base| - 1] == Sep {
      var b' := base[..|base| - 1];
      assert base == b' + [Sep] + "";
      assert Join(base, k) == b' + [Sep] + k;
      SplitConcat(b', k, Sep);
      SplitConcat(b', "", Sep);
      assert Split("", Sep) == [""];
      ResolveAppend(Split(b', Sep), Split(k, Sep), rooted, []);
      ResolveAppend(Split(b', Sep), [""], rooted, []);
    } else {
      SplitConcat(base, k, Sep);
      ResolveAppend(Split(base, Sep), Split(k, Sep), rooted, []);
    }
  }

  /** Joining a relative path keeps the base as a prefix. */
  lemma JoinKeepsBase(base: string, rel: string)
    requires !IsAbs(rel)
    ensures base <= Join(base, rel)
  {
  }

  /** dirname undoes joining a single file name onto a directory. */
  lemma DirnameOfJoin(d: string, name: string)
    requires name != "" && Sep !in name
    requires d == "" || d[|d| - 1] != Sep
    ensures Dirname(Join(d, name)) == d
  {
    var p := Join(d, name);
    if d == "" {
      assert p == name;
      assert RFind(p, Sep) == -1;
    } else {
      assert p == d + [Sep] + name;
      assert p[|d|] == Sep;
      assert forall j :: |d| < j < |p| ==> p[j] != Sep by {
        forall j | |d| < j < |p| ensures p[j] != Sep {
          assert p[j] == name[j - |d| - 1];
        }
      }
      assert RFind(p, Sep) == |d|;
      var head := p[..|d| + 1];
      assert head == d + [Sep];
      assert !AllSep(head) by { assert head[|d| - 1] != Sep; }
      assert head[..|head| - 1] == d;
      assert RStripChar(head, Sep) == RStripChar(d, Sep);
    }
  }

  /** A slash-separated join of slash-free components neither is empty nor ends in a slash. */
  lemma JoinWithLast(pre: seq<string>)
    requires |pre| >= 1 && SlashFree(pre)
    ensures var j := JoinWith(pre, Sep); j != "" && j[|j| - 1] != Sep
  {
    var j := JoinWith(pre, Sep);
    var last := pre[|pre| - 1];
    if |pre| == 1 {
      assert j == last;
    } else {
      JoinWithSnoc(pre[..|pre| - 1], last, Sep);
      assert pre[..|pre| - 1] + [last] == pre;
      assert j[|j| - 1] == last[|last| - 1];
    }
    assert last[|last| - 1] in last;
  }

  /** os.path.join of such a join and one more slash-free component puts a slash between them. */
  lemma JoinStep(pre: seq<string>, x: string)
    requires |pre| >= 1 && SlashFree(pre) && x != "" && Sep !in x
    ensures Join(JoinWith(pre, Sep), x) == JoinWith(pre + [x], Sep)
  {
    var j := JoinWith(pre, Sep);
    JoinWithLast(pre);
    assert !IsAbs(x) by { assert x[0] in x; }
    assert Join(j, x) == j + [Sep] + x;
    JoinWithSnoc(pre, x, Sep);
  }

  /** Moving the first element of one list to the end of another keeps their concatenation. */
  lemma MoveFirst<T>(pre: seq<T>, rest: seq<T>)
    requires rest != []
    ensures (pre + [rest[0]]) + rest[1..] == pre + rest
  {
    assert rest == [rest[0]] + rest[1..];
  }

  lemma {:induction false} JoinFromSlashFree(pre: seq<string>, rest: seq<string>)
    requires |pre| >= 1
    requires SlashFree(pre) && SlashFree(rest)
    ensures JoinFrom(JoinWith(pre, Sep), rest) == JoinWith(pre + rest, Sep)
    decreases |rest|
  {
    if rest == [] {
      assert pre + rest == pre;
    } else {
      var x := rest[0];
      JoinStep(pre, x);
      assert SlashFree(pre + [x]) && SlashFree(rest[1..]);
      JoinFromSlashFree(pre + [x], rest[1..]);
      MoveFirst(pre, rest);
    }
  }

  /** relpath's start list is the working directory's own components. */
  lemma StartListOfCwd(cwd: string)
    requires IsAbs(cwd)
    ensures NonEmpty(Split(AbsPath(cwd, CurDir), Sep)) == Resolve(Split(cwd, Sep), true, [])
  {
    var dot := Join(cwd, CurDir);
    assert IsAbs(dot);
    ComponentsOfAbsolute(dot);
    ResolveJoin(cwd, CurDir, true);
    assert Split(CurDir, Sep) == [CurDir] by { SplitNoSep(CurDir, Sep); }
    assert Resolve([CurDir], true, Resolve(Split(cwd, Sep), true, [])) == Resolve(Split(cwd, Sep), true, []);
  }

  /** relpath's path list for a relative key without "..": the working directory's components, then the key's. */
  lemma PathListOfPlainRelative(cwd: string, key: string)
    requires IsAbs(cwd)
    requires !IsAbs(key)
    requires ParDir !in Split(key, Sep)
    ensures NonEmpty(Split(AbsPath(cwd, key), Sep))
         == Resolve(Split(cwd, Sep), true, []) + Resolve(Split(key, Sep), false, [])
  {
    var full := Join(cwd, key);
    assert IsAbs(full);
    ComponentsOfAbsolute(full);
    ResolveJoin(cwd, key, true);
    ResolveNoParDir(Split(key, Sep), true, false, Resolve(Split(cwd, Sep), true, []));
  }

  /** normpath of a relative path: its components joined by slashes, or "." when none remain. */
  lemma NormPathOfRelative(key: string)
    requires key != "" && !IsAbs(key)
    ensures SlashFree(Resolve(Split(key, Sep), false, []))
    ensures var k := Resolve(Split(key, Sep), false, []);
      NormPath(key) == if k == [] then CurDir else JoinWith(k, Sep)
  {
    NormPathShape(key);
    assert InitialSlashes(key) == 0;
    assert Slashes(0) == "";
  }

  /** Joining one slash-free component list with os.path.join is joining it with slashes. */
  lemma JoinAllSlashFree(k: seq<string>)
    requires k != [] && SlashFree(k)
    ensures JoinFrom(k[0], k[1..]) == JoinWith(k, Sep)
  {
    assert k == [k[0]] + k[1..];
    JoinFromSlashFree([k[0]], k[1..]);
    assert JoinWith([k[0]], Sep) == k[0];
  }

  /**
    relpath of a relative path without ".." components is that path's
    normal form, whatever the (absolute) working directory.
   */
  lemma RelPathOfPlainRelative(cwd: string, key: string)
    requires IsAbs(cwd)
    requires key != "" && !IsAbs(key)
    requires ParDir !in Split(key, Sep)
    ensures RelPath(cwd, key) == Some(NormPath(key))
  {
    var c0 := Resolve(Split(cwd, Sep), true, []);
    var k := Resolve(Split(key, Sep), false, []);
    var startList := NonEmpty(Split(AbsPath(cwd, CurDir), Sep));
    var pathList := NonEmpty(Split(AbsPath(cwd, key), Sep));
    StartListOfCwd(cwd);
    PathListOfPlainRelative(cwd, key);
    var i := CommonPrefixLength(startList, pathList);
    assert i == |c0|;
    var relList := seq(|startList| - i, _ => ParDir) + pathList[i..];
    assert relList == k;
    NormPathOfRelative(key);
    if k != [] {
      JoinAllSlashFree(k);
    }
  }

  /** The component list of an absolute path abspath produces is canonical. */
  lemma CanonicalComponents(cwd: string, p: string)
    requires IsAbs(cwd)
    ensures Canonical(NonEmpty(Split(AbsPath(cwd, p), Sep)), true)
  {
    var a := AbsPath(cwd, p);
    AbsPathCanonical(cwd, p);
    ComponentsOfAbsolute(a);
    ResolveCanonical(Split(a, Sep), true, []);
  }

  function Ups(k: nat): seq<string>
  {
    seq(k, _ => ParDir)
  }

  /** Under a root, each ".." drops one component of a list that holds no "..". */
  lemma {:induction false} ResolveUps(k: nat, acc: seq<string>)
    requires k <= |acc|
    requires forall i :: 0 <= i < |acc| ==> acc[i] != ParDir
    ensures Resolve(Ups(k), true, acc) == acc[..|acc| - k]
    decreases k
  {
    if k > 0 {
      assert Ups(k)[0] == ParDir && Ups(k)[1..] == Ups(k - 1);
      var next := acc[..|acc| - 1];
      assert Resolve(Ups(k), true, acc) == Resolve(Ups(k - 1), true, next);
      ResolveUps(k - 1, next);
      assert next[..|next| - (k - 1)] == acc[..|acc| - k];
    }
  }

  lemma SharedPrefix<T>(a: seq<T>, b: seq<T>, i: nat)
    requires i <= |a| && i <= |b| && a[..i] == b[..i]
    ensures a[..i] + b[i..] == b
  {
    assert b == b[..i] + b[i..];
  }

  /** The ".." run climbs from the start list to the common prefix, and the rest of the path list follows. */
  lemma ResolveRelList(startList: seq<string>, pathList: seq<string>, i: nat)
    requires Canonical(startList, true) && Canonical(pathList, true)
    requires i <= |startList| && i <= |pathList| && startList[..i] == pathList[..i]
    ensures Resolve(Ups(|startList| - i) + pathList[i..], true, startList) == pathList
  {
    var prefix := startList[..i];
    SharedPrefix(startList, pathList, i);
    assert forall k :: 0 <= k < |startList| ==> startList[k] != ParDir;
    ResolveUps(|startList| - i, startList);
    assert startList[..|startList| - (|startList| - i)] == prefix;
    ResolveAppend(Ups(|startList| - i), pathList[i..], true, startList);
    ResolveIdentity(pathList[i..], true, prefix);
  }

  /** A non-empty list of slash-free components, joined by slashes, is relative and resolves onto the working directory's components. */
  lemma AbsPathOfJoined(cwd: string, relList: seq<string>)
    requires IsAbs(cwd) && relList != [] && SlashFree(relList)
    ensures !IsAbs(JoinWith(relList, Sep))
    ensures NonEmpty(Split(AbsPath(cwd, JoinWith(relList, Sep)), Sep))
         == Resolve(relList, true, Resolve(Split(cwd, Sep), true, []))
  {
    JoinWithFirst(relList);
    var rel := JoinWith(relList, Sep);
    SplitJoin(relList, Sep);
    var full := Join(cwd, rel);
    assert IsAbs(full);
    ComponentsOfAbsolute(full);
    ResolveJoin(cwd, rel, true);
  }

  /** relpath in terms of the two component lists: ".." for each start component past the common prefix, then the rest of the path. */
  lemma RelPathShape(cwd: string, key: string, startList: seq<string>, pathList: seq<string>)
    requires key != ""
    requires startList == NonEmpty(Split(AbsPath(cwd, CurDir), Sep))
    requires pathList == NonEmpty(Split(AbsPath(cwd, key), Sep))
    ensures var i := CommonPrefixLength(startList, pathList);
      var relList := Ups(|startList| - i) + pathList[i..];
      RelPath(cwd, key) == if relList == [] then Some(CurDir) else Some(JoinFrom(relList[0], relList[1..]))
  {
    var i := CommonPrefixLength(startList, pathList);
    assert Ups(|startList| - i) == seq(|startList| - i, _ => ParDir);
  }

  /** When something remains after the common prefix, relpath's list joined by slashes leads back to the path list. */
  lemma RelListLeadsBack(cwd: string, startList: seq<string>, pathList: seq<string>, i: nat)
    requires IsAbs(cwd) && startList == Resolve(Split(cwd, Sep), true, [])
    requires Canonical(startList, true) && Canonical(pathList, true)
    requires i <= |startList| && i <= |pathList| && startList[..i] == pathList[..i]
    requires Ups(|startList| - i) + pathList[i..] != []
    ensures var relList := Ups(|startList| - i) + pathList[i..];
      && JoinFrom(relList[0], relList[1..]) == JoinWith(relList, Sep)
      && !IsAbs(JoinWith(relList, Sep))
      && NonEmpty(Split(AbsPath(cwd, JoinWith(relList, Sep)), Sep)) == pathList
  {
    var relList := Ups(|startList| - i) + pathList[i..];
    assert SlashFree(relList);
    JoinAllSlashFree(relList);
    AbsPathOfJoined(cwd, relList);
    ResolveRelList(startList, pathList, i);
  }

  /**
    relpath leads back: for a non-empty key and an absolute working
    directory, relpath gives a relative path which, made absolute from the
    same working directory, has the key's own components.
   */
  lemma RelPathLeadsBack(cwd: string, key: string)
    requires IsAbs(cwd) && key != ""
    ensures RelPath(cwd, key).Some?
    ensures !IsAbs(RelPath(cwd, key).value)
    ensures NonEmpty(Split(AbsPath(cwd, RelPath(cwd, key).value), Sep)) == NonEmpty(Split(AbsPath(cwd, key), Sep))
  {
    var startList := NonEmpty(Split(AbsPath(cwd, CurDir), Sep));
    var pathList := NonEmpty(Split(AbsPath(cwd, key), Sep));
    CanonicalComponents(cwd, CurDir);
    CanonicalComponents(cwd, key);
    RelPathShape(cwd, key, startList, pathList);
    var i := CommonPrefixLength(startList, pathList);
    if Ups(|startList| - i) + pathList[i..] == [] {
      assert startList == startList[..i] == pathList[..i] == pathList;
    } else {
      StartListOfCwd(cwd);
      RelListLeadsBack(cwd, startList, pathList, i);
    }
  }
}
