/**
  The override order of a whole load, includes and all.  The files a load
  handles are recorded in the order they are read (an include target
  twice in a row), and once the load has raised nothing its parser is,
  apart from the INCLUDE/paths option the include check removes, what
  merging those files in that order gives.  So every value, in a section
  or among the DEFAULT values, is the one from the last file read that
  sets it.
 */
module OverrideProperties {
  import opened Wrappers
  import opened ConfigStore
  import opened Resolver
  import opened Loader
  import opened LoaderProperties
  import IncludeProperties

  /** The parser with INCLUDE/paths removed, as the include check leaves it. */
  function WithoutPaths(p: Store): (r: Store)
    ensures r.defaults == p.defaults && r.sections.Keys == p.sections.Keys
    ensures forall s | s in p.sections && s != IncludeSection :: r.sections[s] == p.sections[s]
    ensures IncludeSection in p.sections ==> r.sections[IncludeSection] == p.sections[IncludeSection] - {PathsOption}
  {
    if IncludeSection in p.sections then RemoveOption(p, IncludeSection, PathsOption) else p
  }

  /** Parsers that agree apart from INCLUDE/paths hold the same value for every other option. */
  lemma WithoutPathsAgree(p: Store, q: Store, s: string, o: string)
    requires WithoutPaths(p) == WithoutPaths(q)
    requires !(s == IncludeSection && o == PathsOption)
    ensures p.defaults == q.defaults
    ensures s in p.sections && o in p.sections[s] <==> s in q.sections && o in q.sections[s]
    ensures s in p.sections && o in p.sections[s] ==> p.sections[s][o] == q.sections[s][o]
  {
    if s in p.sections && s == IncludeSection {
      assert o in p.sections[s] <==> o in WithoutPaths(p).sections[s];
      assert o in q.sections[s] <==> o in WithoutPaths(q).sections[s];
      if o in p.sections[s] {
        assert p.sections[s][o] == WithoutPaths(p).sections[s][o];
        assert q.sections[s][o] == WithoutPaths(q).sections[s][o];
      }
    } else if s in p.sections {
      assert p.sections[s] == WithoutPaths(p).sections[s];
      assert q.sections[s] == WithoutPaths(q).sections[s];
    }
  }

  // ---------------------------------------------------------------------
  // merging, up to INCLUDE/paths
  // ---------------------------------------------------------------------

  /** The options a parser holds in a section, none when the section is absent. */
  function SectionOf(p: Store, s: string): Options
  {
    if s in p.sections then p.sections[s] else map[]
  }

  lemma MergedSection(p: Store, c: Store, s: string)
    requires s in Merge(p, c).sections
    ensures Merge(p, c).sections[s] == SectionOf(p, s) + SectionOf(c, s)
  {
  }

  /** Maps that agree except at `k` still agree except at `k` once the same map is laid over both. */
  lemma UnionMinus<K, V>(a: map<K, V>, b: map<K, V>, c: map<K, V>, k: K)
    requires a - {k} == b - {k}
    ensures (a + c) - {k} == (b + c) - {k}
  {
    var l, r := (a + c) - {k}, (b + c) - {k};
    forall x | x != k
      ensures x in a <==> x in b
      ensures x in a ==> a[x] == b[x]
    {
      assert x in a <==> x in a - {k};
      assert x in b <==> x in b - {k};
      if x in a {
        assert a[x] == (a - {k})[x];
        assert b[x] == (b - {k})[x];
      }
    }
    assert l.Keys == r.Keys;
    forall x | x in l
      ensures l[x] == r[x]
    {
    }
  }

  lemma MergeSectionRespects(p: Store, q: Store, c: Store, s: string)
    requires WithoutPaths(p) == WithoutPaths(q)
    requires s in Merge(p, c).sections
    ensures s in Merge(q, c).sections
    ensures WithoutPaths(Merge(p, c)).sections[s] == WithoutPaths(Merge(q, c)).sections[s]
  {
    assert p.sections.Keys == WithoutPaths(p).sections.Keys == q.sections.Keys;
    MergedSection(p, c, s);
    MergedSection(q, c, s);
    if s == IncludeSection {
      assert SectionOf(p, s) - {PathsOption} == SectionOf(q, s) - {PathsOption};
      UnionMinus(SectionOf(p, s), SectionOf(q, s), SectionOf(c, s), PathsOption);
    } else if s in p.sections {
      assert SectionOf(p, s) == WithoutPaths(p).sections[s] == WithoutPaths(q).sections[s] == SectionOf(q, s);
    }
  }

  /** Reading a file over parsers that agree apart from INCLUDE/paths gives parsers that still agree. */
  lemma MergeRespects(p: Store, q: Store, c: Store)
    requires WithoutPaths(p) == WithoutPaths(q)
    ensures WithoutPaths(Merge(p, c)) == WithoutPaths(Merge(q, c))
  {
    MergedSectionsAgree(p, q, c);
    assert p.defaults == q.defaults;
  }

  lemma MergedSectionsAgree(p: Store, q: Store, c: Store)
    requires WithoutPaths(p) == WithoutPaths(q)
    ensures WithoutPaths(Merge(p, c)).sections == WithoutPaths(Merge(q, c)).sections
  {
    var wp, wq := WithoutPaths(Merge(p, c)), WithoutPaths(Merge(q, c));
    assert p.sections.Keys == WithoutPaths(p).sections.Keys == q.sections.Keys;
    forall s | s in wp.sections
      ensures s in wq.sections && wp.sections[s] == wq.sections[s]
    {
      MergeSectionRespects(p, q, c, s);
    }
  }

  /** Removing INCLUDE/paths changes nothing the comparison looks at. */
  lemma RemoveRespects(p: Store)
    requires IncludeSection in p.sections
    ensures WithoutPaths(RemoveOption(p, IncludeSection, PathsOption)) == WithoutPaths(p)
  {
    var r := RemoveOption(p, IncludeSection, PathsOption);
    assert r.sections[IncludeSection] - {PathsOption} == p.sections[IncludeSection] - {PathsOption};
    assert WithoutPaths(r).sections == WithoutPaths(p).sections;
  }

  lemma {:induction false} MergeAllRespects(env: Env, p: Store, q: Store, paths: seq<string>)
    requires WithoutPaths(p) == WithoutPaths(q)
    ensures WithoutPaths(MergeAll(env, p, paths)) == WithoutPaths(MergeAll(env, q, paths))
    decreases |paths|
  {
    if paths != [] {
      var c := Contribution(env, paths[0]);
      MergeRespects(p, q, c);
      MergeAllRespects(env, Merge(p, c), Merge(q, c), paths[1..]);
    }
  }

  lemma {:induction false} MergeAllAppend(env: Env, p: Store, xs: seq<string>, ys: seq<string>)
    ensures MergeAll(env, p, xs + ys) == MergeAll(env, MergeAll(env, p, xs), ys)
    decreases |xs|
  {
    if xs == [] {
      assert xs + ys == ys;
    } else {
      assert (xs + ys)[0] == xs[0] && (xs + ys)[1..] == xs[1..] + ys;
      MergeAllAppend(env, Merge(p, Contribution(env, xs[0])), xs[1..], ys);
    }
  }

  lemma MergeAllCons(env: Env, p: Store, x: string, rest: seq<string>)
    ensures MergeAll(env, p, [x] + rest) == MergeAll(env, Merge(p, Contribution(env, x)), rest)
  {
    assert ([x] + rest)[0] == x && ([x] + rest)[1..] == rest;
  }

  /** Reading the same file twice in a row is reading it once. */
  lemma MergeTwice(p: Store, c: Store)
    ensures Merge(Merge(p, c), c) == Merge(p, c)
  {
    var m := Merge(p, c);
    var mm := Merge(m, c);
    UnionTwice(p.defaults, c.defaults);
    assert mm.sections.Keys == m.sections.Keys;
    forall s | s in mm.sections
      ensures mm.sections[s] == m.sections[s]
    {
      MergedSection(m, c, s);
      MergedSection(p, c, s);
      UnionTwice(SectionOf(p, s), SectionOf(c, s));
    }
    assert mm.sections == m.sections;
  }

  lemma UnionTwice<K, V>(a: map<K, V>, c: map<K, V>)
    ensures (a + c) + c == a + c
  {
  }

  lemma MergeDuplicate(env: Env, p: Store, u: string, rest: seq<string>)
    ensures MergeAll(env, p, [u] + ([u] + rest)) == MergeAll(env, p, [u] + rest)
  {
    var c := Contribution(env, u);
    MergeAllCons(env, p, u, [u] + rest);
    MergeAllCons(env, Merge(p, c), u, rest);
    MergeTwice(p, c);
    MergeAllCons(env, p, u, rest);
  }

  /** What a successful read leaves: the parser with the file's contribution merged in. */
  lemma ReadMerges(env: Env, parser: Store, f: string)
    requires Read(env, parser, f).ReadDone?
    ensures Read(env, parser, f).parser == Merge(parser, Contribution(env, f))
  {
    if !(Exists(env, f) && env.fs[FileKey(env, f)].Parsed?) {
      MergeNothing(parser);
    }
  }

  // ---------------------------------------------------------------------
  // the handled list is the read order
  // ---------------------------------------------------------------------

  lemma SliceStep<T>(xs: seq<T>, x: T, ys: seq<T>)
    requires xs + [x] <= ys
    ensures xs <= ys && ys[|xs|..] == [x] + ys[|xs| + 1..]
  {
    assert ys[|xs|] == x;
  }

  lemma SliceConcat<T>(a: seq<T>, b: seq<T>, c: seq<T>)
    requires a <= b && b <= c
    ensures a <= c && c[|a|..] == b[|a|..] + c[|b|..]
  {
  }

  /**
    When nothing was raised, the handled list grew, and apart from
    INCLUDE/paths the parser is the old parser with the newly handled
    files merged in the order they were handled.
   */
  predicate ReadInOrder(env: Env, st: LoadState, o: Outcome)
  {
    o.raised == None ==>
      && st.parsedFiles <= o.state.parsedFiles
      && WithoutPaths(o.state.parser) == WithoutPaths(MergeAll(env, st.parser, o.state.parsedFiles[|st.parsedFiles|..]))
  }

  lemma {:induction false} HandleRcFileInOrder(env: Env, st: LoadState, f: string, optional: bool, fuel: nat)
    ensures ReadInOrder(env, st, HandleRcFile(env, st, f, optional, fuel))
    ensures HandleRcFile(env, st, f, optional, fuel).raised == None ==>
      st.parsedFiles + [f] <= HandleRcFile(env, st, f, optional, fuel).state.parsedFiles
    decreases fuel, 3, 0
  {
    var recorded := st.(parsedFiles := st.parsedFiles + [f]);
    match Read(env, st.parser, f)
    case ReadRaised(_) =>
    case ReadDone(parser, success) =>
      if success || optional {
        var read := recorded.(parser := parser);
        ReadMerges(env, st.parser, f);
        CheckIncludesInOrder(env, read, f, fuel);
        var o := CheckIncludes(env, read, f, fuel);
        assert HandleRcFile(env, st, f, optional, fuel) == o;
        if o.raised == None {
          SliceStep(st.parsedFiles, f, o.state.parsedFiles);
          MergeAllCons(env, st.parser, f, o.state.parsedFiles[|read.parsedFiles|..]);
        }
      }
  }

  lemma {:induction false} CheckIncludesInOrder(env: Env, st: LoadState, f: string, fuel: nat)
    ensures ReadInOrder(env, st, CheckIncludes(env, st, f, fuel))
    decreases fuel, 2, 0
  {
    match Get(st.parser, IncludeSection, PathsOption)
    case Found(paths) =>
      var cleared := st.(parser := RemoveOption(st.parser, IncludeSection, PathsOption));
      IncludeEachInOrder(env, cleared, f, Lines(paths), fuel);
      var o := IncludeEach(env, cleared, f, Lines(paths), fuel);
      if o.raised == None {
        RemoveRespects(st.parser);
        MergeAllRespects(env, cleared.parser, st.parser, o.state.parsedFiles[|st.parsedFiles|..]);
      }
    case _ =>
      assert st.parsedFiles[|st.parsedFiles|..] == [];
  }

  lemma {:induction false} IncludeEachInOrder(env: Env, st: LoadState, f: string, entries: seq<string>, fuel: nat)
    ensures ReadInOrder(env, st, IncludeEach(env, st, f, entries, fuel))
    decreases fuel, 1, |entries|
  {
    if entries == [] {
      assert st.parsedFiles[|st.parsedFiles|..] == [];
    } else {
      IncludeEntryInOrder(env, st, f, entries[0], fuel);
      var o1 := IncludeEntry(env, st, f, entries[0], fuel);
      if o1.raised == None {
        IncludeEachInOrder(env, o1.state, f, entries[1..], fuel);
        var o2 := IncludeEach(env, o1.state, f, entries[1..], fuel);
        if o2.raised == None {
          var n1 := o1.state.parsedFiles[|st.parsedFiles|..];
          var n2 := o2.state.parsedFiles[|o1.state.parsedFiles|..];
          SliceConcat(st.parsedFiles, o1.state.parsedFiles, o2.state.parsedFiles);
          MergeAllRespects(env, o1.state.parser, MergeAll(env, st.parser, n1), n2);
          MergeAllAppend(env, st.parser, n1, n2);
        }
      }
    }
  }

  lemma {:induction false} IncludeEntryInOrder(env: Env, st: LoadState, f: string, entry: string, fuel: nat)
    ensures ReadInOrder(env, st, IncludeEntry(env, st, f, entry, fuel))
    decreases fuel, 0, 0
  {
    var u := IncludeTarget(env.cwd, f, entry);
    if u !in st.parsedFiles && fuel > 0 {
      var recorded := st.(parsedFiles := st.parsedFiles + [u]);
      var next := fuel - 1;
      IncludeProperties.EntryStep(env, st, f, entry, fuel, next, u);
      HandleRcFileInOrder(env, recorded, u, true, next);
      var o := HandleRcFile(env, recorded, u, true, next);
      if o.raised == None {
        var rest := o.state.parsedFiles[|recorded.parsedFiles| + 1..];
        SliceStep(recorded.parsedFiles, u, o.state.parsedFiles);
        SliceStep(st.parsedFiles, u, o.state.parsedFiles);
        assert o.state.parsedFiles[|st.parsedFiles|..] == [u] + ([u] + rest);
        MergeDuplicate(env, st.parser, u, rest);
      }
    }
  }

  lemma {:induction false} LoadFilesInOrderWithIncludes(env: Env, st: LoadState, files: seq<Candidate>, fuel: nat)
    ensures ReadInOrder(env, st, LoadFiles(env, st, files, fuel))
    decreases |files|
  {
    if files == [] {
      assert st.parsedFiles[|st.parsedFiles|..] == [];
    } else {
      HandleRcFileInOrder(env, st, files[0].path, files[0].optional, fuel);
      var o1 := HandleRcFile(env, st, files[0].path, files[0].optional, fuel);
      if o1.raised == None {
        LoadFilesInOrderWithIncludes(env, o1.state, files[1..], fuel);
        var o2 := LoadFiles(env, o1.state, files[1..], fuel);
        if o2.raised == None {
          var n1 := o1.state.parsedFiles[|st.parsedFiles|..];
          var n2 := o2.state.parsedFiles[|o1.state.parsedFiles|..];
          SliceConcat(st.parsedFiles, o1.state.parsedFiles, o2.state.parsedFiles);
          MergeAllRespects(env, o1.state.parser, MergeAll(env, st.parser, n1), n2);
          MergeAllAppend(env, st.parser, n1, n2);
        }
      }
    }
  }

  /**
    A load that raises nothing ends with the parser that merging every
    handled file, in the order handled, over the initial parser gives,
    apart from INCLUDE/paths.
   */
  lemma LoadIsMergeInReadOrder(env: Env, configFile: Option<string>, addRcFiles: seq<string>, skip: seq<SkipEntry>, fuel: nat)
    requires Load(env, configFile, addRcFiles, skip, fuel).raised == None
    ensures var o := Load(env, configFile, addRcFiles, skip, fuel);
      WithoutPaths(o.state.parser) == WithoutPaths(MergeAll(env, InitialParser(env.home), o.state.parsedFiles))
  {
    var st0 := LoadState(InitialParser(env.home), []);
    LoadFilesInOrderWithIncludes(env, st0, Candidates(env.home, configFile, addRcFiles, skip), fuel);
    var o := Load(env, configFile, addRcFiles, skip, fuel);
    assert o.state.parsedFiles[|st0.parsedFiles|..] == o.state.parsedFiles;
  }

  /** Every file the filesystem holds as parsed contents is a store ConfigParser could build. */
  ghost predicate FilesWellFormed(env: Env)
  {
    forall k | k in env.fs && env.fs[k].Parsed? :: WellFormed(env.fs[k].contents)
  }

  lemma {:induction false} MergeAllWellFormed(env: Env, p: Store, paths: seq<string>)
    requires FilesWellFormed(env) && WellFormed(p)
    ensures WellFormed(MergeAll(env, p, paths))
    decreases |paths|
  {
    if paths != [] {
      MergeAllWellFormed(env, Merge(p, Contribution(env, paths[0])), paths[1..]);
    }
  }

  /** A load that raises nothing over well-formed files ends with no section named DEFAULT. */
  lemma LoadedWellFormed(env: Env, configFile: Option<string>, addRcFiles: seq<string>, skip: seq<SkipEntry>, fuel: nat)
    requires FilesWellFormed(env)
    requires Load(env, configFile, addRcFiles, skip, fuel).raised == None
    ensures WellFormed(Load(env, configFile, addRcFiles, skip, fuel).state.parser)
  {
    LoadIsMergeInReadOrder(env, configFile, addRcFiles, skip, fuel);
    MergeAllWellFormed(env, InitialParser(env.home), Load(env, configFile, addRcFiles, skip, fuel).state.parsedFiles);
  }

  // ---------------------------------------------------------------------
  // which file a loaded value comes from
  // ---------------------------------------------------------------------

  /**
    After a load that raises nothing, an option of a section (other than
    INCLUDE/paths) holds the value of the last handled file that sets it.
   */
  lemma LoadedValue(env: Env, configFile: Option<string>, addRcFiles: seq<string>, skip: seq<SkipEntry>, fuel: nat,
                    j: nat, s: string, o: string)
    requires Load(env, configFile, addRcFiles, skip, fuel).raised == None
    requires !(s == IncludeSection && o == PathsOption)
    requires var files := Load(env, configFile, addRcFiles, skip, fuel).state.parsedFiles;
      j < |files| && Sets(env, files[j], s, o) && forall k :: j < k < |files| ==> !Sets(env, files[k], s, o)
    ensures var r := Load(env, configFile, addRcFiles, skip, fuel);
      && s in r.state.parser.sections && o in r.state.parser.sections[s]
      && r.state.parser.sections[s][o] == Contribution(env, r.state.parsedFiles[j]).sections[s][o]
  {
    var r := Load(env, configFile, addRcFiles, skip, fuel);
    var merged := MergeAll(env, InitialParser(env.home), r.state.parsedFiles);
    LoadIsMergeInReadOrder(env, configFile, addRcFiles, skip, fuel);
    LastFileWins(env, InitialParser(env.home), r.state.parsedFiles, j, s, o);
    WithoutPathsAgree(merged, r.state.parser, s, o);
  }

  /** After a load that raises nothing, an option (other than INCLUDE/paths) no handled file sets is absent. */
  lemma LoadedUnset(env: Env, configFile: Option<string>, addRcFiles: seq<string>, skip: seq<SkipEntry>, fuel: nat,
                    s: string, o: string)
    requires Load(env, configFile, addRcFiles, skip, fuel).raised == None
    requires !(s == IncludeSection && o == PathsOption)
    requires var files := Load(env, configFile, addRcFiles, skip, fuel).state.parsedFiles;
      forall k :: 0 <= k < |files| ==> !Sets(env, files[k], s, o)
    ensures var r := Load(env, configFile, addRcFiles, skip, fuel).state.parser;
      !(s in r.sections && o in r.sections[s])
  {
    var r := Load(env, configFile, addRcFiles, skip, fuel);
    var merged := MergeAll(env, InitialParser(env.home), r.state.parsedFiles);
    LoadIsMergeInReadOrder(env, configFile, addRcFiles, skip, fuel);
    KeepsValue(env, InitialParser(env.home), r.state.parsedFiles, s, o);
    WithoutPathsAgree(merged, r.state.parser, s, o);
  }

  /** After a load that raises nothing, a DEFAULT value is the one from the last handled file that sets it. */
  lemma LoadedDefault(env: Env, configFile: Option<string>, addRcFiles: seq<string>, skip: seq<SkipEntry>, fuel: nat,
                      j: nat, o: string)
    requires Load(env, configFile, addRcFiles, skip, fuel).raised == None
    requires var files := Load(env, configFile, addRcFiles, skip, fuel).state.parsedFiles;
      j < |files| && SetsDefault(env, files[j], o) && forall k :: j < k < |files| ==> !SetsDefault(env, files[k], o)
    ensures var r := Load(env, configFile, addRcFiles, skip, fuel);
      o in r.state.parser.defaults && r.state.parser.defaults[o] == Contribution(env, r.state.parsedFiles[j]).defaults[o]
  {
    var r := Load(env, configFile, addRcFiles, skip, fuel);
    LoadIsMergeInReadOrder(env, configFile, addRcFiles, skip, fuel);
    LastFileWinsDefault(env, InitialParser(env.home), r.state.parsedFiles, j, o);
  }

  /**
    After a load that raises nothing, a DEFAULT value no handled file sets
    is the initial one: `home` is the home directory, anything else is absent.
   */
  lemma LoadedDefaultUnset(env: Env, configFile: Option<string>, addRcFiles: seq<string>, skip: seq<SkipEntry>, fuel: nat,
                           o: string)
    requires Load(env, configFile, addRcFiles, skip, fuel).raised == None
    requires var files := Load(env, configFile, addRcFiles, skip, fuel).state.parsedFiles;
      forall k :: 0 <= k < |files| ==> !SetsDefault(env, files[k], o)
    ensures var r := Load(env, configFile, addRcFiles, skip, fuel).state.parser;
      (o in r.defaults <==> o == HomeVariable) && (o == HomeVariable ==> r.defaults[o] == env.home)
  {
    var r := Load(env, configFile, addRcFiles, skip, fuel);
    LoadIsMergeInReadOrder(env, configFile, addRcFiles, skip, fuel);
    KeepsDefault(env, InitialParser(env.home), r.state.parsedFiles, o);
  }

  // ---------------------------------------------------------------------
  // which file answers map_counterpart
  // ---------------------------------------------------------------------

  /**
    `map_counterpart` answers with the COUNTERPART_MAP entry of the last
    file read that has one for the string, includes and all, once the load
    raises nothing.
   */
  lemma MapCounterpartFollowsReadOrder(env: Env, known: string, configFile: Option<string>, fuel: nat, j: nat)
    requires Load(env, configFile, [], HomeSkipList(configFile.Some?), fuel).raised == None
    requires var files := Load(env, configFile, [], HomeSkipList(configFile.Some?), fuel).state.parsedFiles;
      j < |files| && Sets(env, files[j], MapSection, known) && forall k :: j < k < |files| ==> !Sets(env, files[k], MapSection, known)
    ensures var files := Load(env, configFile, [], HomeSkipList(configFile.Some?), fuel).state.parsedFiles;
      Loader.MapCounterpart(env, known, configFile, fuel) == Ok(Contribution(env, files[j]).sections[MapSection][known])
  {
    LoadedValue(env, configFile, [], HomeSkipList(configFile.Some?), fuel, j, MapSection, known);
  }

  /**
    Without includes, an entry of COUNTERPART_MAP in the supplied config
    file (in ./.counterc when none is supplied) is the answer of
    `map_counterpart`, whatever the home rc file says.
   */
  lemma ConfigFileTakesPrecedence(env: Env, known: string, configFile: Option<string>, fuel: nat)
    requires IncludeFree(env)
    requires Sets(env, LocalRcFile(configFile), MapSection, known)
    ensures Loader.MapCounterpart(env, known, configFile, fuel) ==
      Ok(Contribution(env, LocalRcFile(configFile)).sections[MapSection][known])
  {
    var paths := [HomeRcFilePath(env.home), LocalRcFile(configFile)];
    LoadHomeThenLocal(env, configFile, fuel);
    LastFileWins(env, InitialParser(env.home), paths, 1, MapSection, known);
  }

  /** Without includes, and with the config file (or ./.counterc) readable, the mapping merges the home rc file and then that file. */
  lemma LoadHomeThenLocal(env: Env, configFile: Option<string>, fuel: nat)
    requires IncludeFree(env)
    requires Exists(env, LocalRcFile(configFile)) && env.fs[FileKey(env, LocalRcFile(configFile))].Parsed?
    ensures Loader.GetCounterpartMapping(env, configFile, configFile.Some?, fuel) ==
      Ok(CounterpartMapping(MergeAll(env, InitialParser(env.home), [HomeRcFilePath(env.home), LocalRcFile(configFile)])))
  {
    var files := Candidates(env.home, configFile, [], []);
    var st0 := LoadState(InitialParser(env.home), []);
    SkipHomeIgnored(env, configFile, fuel);
    CandidateOrder(env.home, configFile, []);
    assert Available(env, files);
    InitialParserIsQuiet(env.home);
    LoadFilesInOrder(env, st0, files, fuel);
    assert PathsOf(files) == [HomeRcFilePath(env.home), LocalRcFile(configFile)];
  }
}
