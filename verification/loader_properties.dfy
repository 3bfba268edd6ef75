/**
  Properties of loading: how include entries are split, the order and
  filtering of the candidate files, which files must exist, and the
  override order of the files read.
 */
module LoaderProperties {
  import opened Wrappers
  import opened Paths
  import opened ConfigStore
  import opened Resolver
  import opened Loader

  // ---------------------------------------------------------------------
  // include entries
  // ---------------------------------------------------------------------

  /** No whitespace at either end. */
  predicate Stripped(s: string)
  {
    s == [] || (s[0] !in WhiteSpace && s[|s| - 1] !in WhiteSpace)
  }

  lemma StripKeepsStripped(s: string)
    requires Stripped(s)
    ensures Strip(s) == s
  {
    assert LeadingSpaces(s) == 0;
    assert StripLeading(s) == s;
    assert s == [] || s[|s| - 1] !in WhiteSpace;
  }

  lemma StripIsStripped(s: string)
    ensures Stripped(Strip(s))
    ensures forall c | c in Strip(s) :: c in s
  {
    var t := StripLeading(s);
    var r := StripTrailing(t);
    if r != [] {
      assert r[0] == t[0];
    }
    forall c | c in r
      ensures c in s
    {
      var j :| 0 <= j < |r| && r[j] == c;
      assert t[j] == c;
      assert s[|s| - |t| + j] == c;
    }
  }

  /** Every entry is stripped and holds no newline. */
  lemma LinesAreStripped(paths: string)
    ensures forall i :: 0 <= i < |Lines(paths)| ==> Stripped(Lines(paths)[i]) && '\n' !in Lines(paths)[i]
  {
    var parts := Split(paths, '\n');
    forall i | 0 <= i < |parts|
      ensures Stripped(Lines(paths)[i]) && '\n' !in Lines(paths)[i]
    {
      StripIsStripped(parts[i]);
    }
  }

  /** Writing stripped, newline-free entries one per line and splitting them again gives them back. */
  lemma LinesRoundTrip(entries: seq<string>)
    requires |entries| >= 1
    requires forall i :: 0 <= i < |entries| ==> Stripped(entries[i]) && '\n' !in entries[i]
    ensures Lines(JoinWith(entries, '\n')) == entries
  {
    SplitJoin(entries, '\n');
    forall i | 0 <= i < |entries|
      ensures Strip(entries[i]) == entries[i]
    {
      StripKeepsStripped(entries[i]);
    }
  }

  // ---------------------------------------------------------------------
  // candidate files
  // ---------------------------------------------------------------------

  /** The candidates whose path is not in the skip list, in their order. */
  function Drop(files: seq<Candidate>, skip: seq<SkipEntry>): (r: seq<Candidate>)
    ensures |r| <= |files|
    decreases |files|
  {
    if files == [] then []
    else if SkipPath(files[0].path) in skip then Drop(files[1..], skip)
    else [files[0]] + Drop(files[1..], skip)
  }

  lemma {:induction false} KeepDrop(listed: seq<(string, Origin)>, configFile: Option<string>, addRcFiles: seq<string>, skip: seq<SkipEntry>)
    ensures Keep(listed, configFile, addRcFiles, skip) == Drop(Keep(listed, configFile, addRcFiles, []), skip)
    decreases |listed|
  {
    if listed != [] {
      KeepDrop(listed[1..], configFile, addRcFiles, skip);
      var rest := Keep(listed[1..], configFile, addRcFiles, []);
      var c := Candidate(listed[0].0, IsOptional(listed[0].0, listed[0].1, configFile, addRcFiles));
      assert Keep(listed, configFile, addRcFiles, []) == [c] + rest;
      assert ([c] + rest)[1..] == rest;
    }
  }

  lemma {:induction false} KeepAll(listed: seq<(string, Origin)>, configFile: Option<string>, addRcFiles: seq<string>)
    ensures Keep(listed, configFile, addRcFiles, []) ==
      seq(|listed|, i requires 0 <= i < |listed| => Candidate(listed[i].0, IsOptional(listed[i].0, listed[i].1, configFile, addRcFiles)))
    decreases |listed|
  {
    if listed != [] {
      KeepAll(listed[1..], configFile, addRcFiles);
    }
  }

  /**
    With nothing skipped the candidates are the home rc file, then the
    config file (or .counterc), then every added file, in that order; only
    a supplied config file and the added files are required.
   */
  lemma CandidateOrder(home: string, configFile: Option<string>, addRcFiles: seq<string>)
    ensures var files := Candidates(home, configFile, addRcFiles, []);
      && |files| == 2 + |addRcFiles|
      && files[0] == Candidate(HomeRcFilePath(home), HomeRcFilePath(home) !in addRcFiles)
      && files[1] == Candidate(LocalRcFile(configFile), !ConfigGiven(configFile) && LocalRcFile(configFile) !in addRcFiles)
      && forall i :: 0 <= i < |addRcFiles| ==> files[2 + i] == Candidate(addRcFiles[i], false)
  {
    var listed := [(HomeRcFilePath(home), HomeRc), (LocalRcFile(configFile), LocalRc)]
                  + seq(|addRcFiles|, i requires 0 <= i < |addRcFiles| => (addRcFiles[i], AddedRc));
    KeepAll(listed, configFile, addRcFiles);
    assert forall i :: 0 <= i < |addRcFiles| ==> listed[2 + i] == (addRcFiles[i], AddedRc);
  }

  /** The skip list removes exactly the candidates whose path it names and keeps the others in order. */
  lemma CandidatesSkip(home: string, configFile: Option<string>, addRcFiles: seq<string>, skip: seq<SkipEntry>)
    ensures Candidates(home, configFile, addRcFiles, skip) == Drop(Candidates(home, configFile, addRcFiles, []), skip)
  {
    var listed := [(HomeRcFilePath(home), HomeRc), (LocalRcFile(configFile), LocalRc)]
                  + seq(|addRcFiles|, i requires 0 <= i < |addRcFiles| => (addRcFiles[i], AddedRc));
    KeepDrop(listed, configFile, addRcFiles, skip);
  }

  lemma {:induction false} DropNothing(files: seq<Candidate>, skip: seq<SkipEntry>)
    requires forall e | e in skip :: !e.SkipPath?
    ensures Drop(files, skip) == files
    decreases |files|
  {
    if files != [] {
      DropNothing(files[1..], skip);
    }
  }

  /**
    The skip list built for skip_home holds no path, so it removes nothing:
    the home rc file is read either way.
   */
  lemma SkipHomeIgnored(env: Env, configFile: Option<string>, fuel: nat)
    ensures Loader.GetCounterpartMapping(env, configFile, true, fuel) == Loader.GetCounterpartMapping(env, configFile, false, fuel)
  {
    CandidatesSkip(env.home, configFile, [], [HomeRcProperty]);
    DropNothing(Candidates(env.home, configFile, [], []), [HomeRcProperty]);
  }

  // ---------------------------------------------------------------------
  // required and optional files
  // ---------------------------------------------------------------------

  /** No INCLUDE/paths is waiting to be expanded, and none can appear through DEFAULT. */
  predicate Quiet(parser: Store)
  {
    && PathsOption !in parser.defaults
    && (IncludeSection in parser.sections ==> PathsOption !in parser.sections[IncludeSection])
  }

  lemma QuietHasNoInclude(parser: Store)
    requires Quiet(parser)
    ensures !Get(parser, IncludeSection, PathsOption).Found?
  {
  }

  /**
    A required file that does not exist raises FileNotFound, one that
    exists but cannot be read raises IOError, and one that cannot be parsed
    raises ParsingError whether required or not.
   */
  lemma RequiredFileErrors(env: Env, st: LoadState, f: string, optional: bool, fuel: nat)
    ensures !optional && !Exists(env, f) ==>
      HandleRcFile(env, st, f, optional, fuel) == Outcome(st.(parsedFiles := st.parsedFiles + [f]), Some(FileNotFound(f)))
    ensures !optional && Exists(env, f) && env.fs[FileKey(env, f)] == Unreadable ==>
      HandleRcFile(env, st, f, optional, fuel) == Outcome(st.(parsedFiles := st.parsedFiles + [f]), Some(IOError(f)))
    ensures Exists(env, f) && env.fs[FileKey(env, f)] == Malformed ==>
      HandleRcFile(env, st, f, optional, fuel) == Outcome(st.(parsedFiles := st.parsedFiles + [f]), Some(ParsingError(f)))
  {
  }

  /** An optional file that does not exist or cannot be read is recorded and otherwise skipped. */
  lemma OptionalFileMayBeMissing(env: Env, st: LoadState, f: string, fuel: nat)
    requires Quiet(st.parser)
    requires !Exists(env, f) || env.fs[FileKey(env, f)] == Unreadable
    ensures HandleRcFile(env, st, f, true, fuel) == Outcome(st.(parsedFiles := st.parsedFiles + [f]), None)
  {
    QuietHasNoInclude(st.parser);
  }

  lemma InitialParserIsQuiet(home: string)
    ensures Quiet(InitialParser(home))
    ensures IncludeSection !in InitialParser(home).sections
  {
  }

  /**
    A supplied config file that does not exist makes the load raise
    FileNotFound, once the home rc file, which is read first and is
    optional, has been handled without an exception.
   */
  lemma ExplicitConfigMissing(env: Env, configFile: Option<string>, fuel: nat)
    requires ConfigGiven(configFile)
    requires HandleRcFile(env, LoadState(InitialParser(env.home), []), HomeRcFilePath(env.home), true, fuel).raised == None
    requires !Exists(env, configFile.value)
    ensures Load(env, configFile, [], [], fuel).raised == Some(FileNotFound(configFile.value))
  {
    var files := Candidates(env.home, configFile, [], []);
    CandidateOrder(env.home, configFile, []);
    var st0 := LoadState(InitialParser(env.home), []);
    var st1 := HandleRcFile(env, st0, files[0].path, true, fuel).state;
    RequiredFileErrors(env, st1, files[1].path, false, fuel);
    assert files[1..][0] == files[1];
    assert LoadFiles(env, st0, files, fuel) == LoadFiles(env, st1, files[1..], fuel);
  }

  /** Without a config file, neither the home rc file nor ./.counterc needs to exist. */
  lemma DefaultFilesMayBeMissing(env: Env, fuel: nat)
    requires !Exists(env, HomeRcFilePath(env.home))
    requires !Exists(env, RcFileBasename)
    ensures Load(env, None, [], [], fuel) ==
      Outcome(LoadState(InitialParser(env.home), [HomeRcFilePath(env.home), RcFileBasename]), None)
  {
    var files := Candidates(env.home, None, [], []);
    CandidateOrder(env.home, None, []);
    var st0 := LoadState(InitialParser(env.home), []);
    InitialParserIsQuiet(env.home);
    OptionalFileMayBeMissing(env, st0, files[0].path, fuel);
    var st1 := HandleRcFile(env, st0, files[0].path, true, fuel).state;
    OptionalFileMayBeMissing(env, st1, files[1].path, fuel);
    assert files[1..][0] == files[1] && files[1..][1..] == [];
    assert LoadFiles(env, st0, files, fuel) == LoadFiles(env, st1, files[1..], fuel);
  }

  // ---------------------------------------------------------------------
  // override order
  // ---------------------------------------------------------------------

  /** No file in the filesystem declares an INCLUDE section or fails to parse. */
  predicate IncludeFree(env: Env)
  {
    forall k | k in env.fs :: env.fs[k] != Malformed && (env.fs[k].Parsed? ==> IncludeSection !in env.fs[k].contents.sections)
  }

  /** Every required candidate exists and parses. */
  predicate Available(env: Env, files: seq<Candidate>)
  {
    forall i :: 0 <= i < |files| ==> files[i].optional || (Exists(env, files[i].path) && env.fs[FileKey(env, files[i].path)].Parsed?)
  }

  /** The contents a file contributes: what it declares if it parses, nothing otherwise. */
  function Contribution(env: Env, f: string): Store
  {
    if Exists(env, f) && env.fs[FileKey(env, f)].Parsed? then env.fs[FileKey(env, f)].contents
    else EmptyStore(map[])
  }

  /** The parser after merging the contribution of every path, in order. */
  function MergeAll(env: Env, parser: Store, paths: seq<string>): Store
    decreases |paths|
  {
    if paths == [] then parser else MergeAll(env, Merge(parser, Contribution(env, paths[0])), paths[1..])
  }

  function PathsOf(files: seq<Candidate>): seq<string>
  {
    seq(|files|, i requires 0 <= i < |files| => files[i].path)
  }

  /**
    Without includes, loading merges the candidates in order, each over
    everything before it, and records every candidate path.
   */
  lemma {:induction false} LoadFilesInOrder(env: Env, st: LoadState, files: seq<Candidate>, fuel: nat)
    requires IncludeSection !in st.parser.sections
    requires IncludeFree(env) && Available(env, files)
    ensures LoadFiles(env, st, files, fuel) ==
      Outcome(LoadState(MergeAll(env, st.parser, PathsOf(files)), st.parsedFiles + PathsOf(files)), None)
    decreases |files|
  {
    if files != [] {
      var f := files[0].path;
      var o := HandleRcFile(env, st, f, files[0].optional, fuel);
      HandleAvailable(env, st, files[0], fuel);
      assert Available(env, files[1..]) by {
        assert forall i :: 0 <= i < |files[1..]| ==> files[1..][i] == files[i + 1];
      }
      LoadFilesInOrder(env, o.state, files[1..], fuel);
      assert PathsOf(files) == [f] + PathsOf(files[1..]);
      assert PathsOf(files)[0] == f && PathsOf(files)[1..] == PathsOf(files[1..]);
      AppendAssoc(st.parsedFiles, f, PathsOf(files[1..]));
    }
  }

  /** One available candidate, in a store and filesystem without includes, is merged and recorded. */
  lemma HandleAvailable(env: Env, st: LoadState, c: Candidate, fuel: nat)
    requires IncludeSection !in st.parser.sections
    requires IncludeFree(env)
    requires c.optional || (Exists(env, c.path) && env.fs[FileKey(env, c.path)].Parsed?)
    ensures HandleRcFile(env, st, c.path, c.optional, fuel) ==
      Outcome(LoadState(Merge(st.parser, Contribution(env, c.path)), st.parsedFiles + [c.path]), None)
  {
    var f := c.path;
    var merged := Merge(st.parser, Contribution(env, f));
    if Exists(env, f) && env.fs[FileKey(env, f)].Parsed? {
      assert Read(env, st.parser, f) == ReadDone(merged, true);
      assert IncludeSection !in merged.sections;
    } else {
      MergeNothing(st.parser);
      assert Read(env, st.parser, f) == ReadDone(st.parser, false) by {
        if Exists(env, f) {
          assert env.fs[FileKey(env, f)] == Unreadable;
        }
      }
    }
  }

  lemma AppendAssoc<T>(xs: seq<T>, x: T, ys: seq<T>)
    ensures xs + [x] + ys == xs + ([x] + ys)
  {
  }

  lemma MergeNothing(parser: Store)
    ensures Merge(parser, EmptyStore(map[])) == parser
  {
    var r := Merge(parser, EmptyStore(map[]));
    assert r.defaults == parser.defaults;
    forall s | s in parser.sections
      ensures r.sections[s] == parser.sections[s]
    {
    }
    assert r.sections == parser.sections;
  }

  /** The file at `path` sets `option` in `section`. */
  predicate Sets(env: Env, path: string, section: string, option: string)
  {
    var c := Contribution(env, path); section in c.sections && option in c.sections[section]
  }

  /** The file at `path` sets `option` among its DEFAULT values. */
  predicate SetsDefault(env: Env, path: string, option: string)
  {
    option in Contribution(env, path).defaults
  }

  /** A value is the one from the last file that sets it. */
  lemma {:induction false} LastFileWins(env: Env, parser: Store, paths: seq<string>, j: nat, s: string, o: string)
    requires j < |paths| && Sets(env, paths[j], s, o)
    requires forall k :: j < k < |paths| ==> !Sets(env, paths[k], s, o)
    ensures var r := MergeAll(env, parser, paths);
      s in r.sections && o in r.sections[s] && r.sections[s][o] == Contribution(env, paths[j]).sections[s][o]
    decreases |paths|
  {
    var next := Merge(parser, Contribution(env, paths[0]));
    if j == 0 {
      KeepsValue(env, next, paths[1..], s, o);
    } else {
      LastFileWins(env, next, paths[1..], j - 1, s, o);
    }
  }

  /** A value no file sets keeps whatever the parser held before, present or absent. */
  lemma {:induction false} KeepsValue(env: Env, parser: Store, paths: seq<string>, s: string, o: string)
    requires forall k :: 0 <= k < |paths| ==> !Sets(env, paths[k], s, o)
    ensures var r := MergeAll(env, parser, paths);
      && (s in r.sections && o in r.sections[s] <==> s in parser.sections && o in parser.sections[s])
      && (s in parser.sections && o in parser.sections[s] ==> r.sections[s][o] == parser.sections[s][o])
    decreases |paths|
  {
    if paths != [] {
      KeepsValue(env, Merge(parser, Contribution(env, paths[0])), paths[1..], s, o);
    }
  }

  /** A DEFAULT value is the one from the last file that sets it. */
  lemma {:induction false} LastFileWinsDefault(env: Env, parser: Store, paths: seq<string>, j: nat, o: string)
    requires j < |paths| && SetsDefault(env, paths[j], o)
    requires forall k :: j < k < |paths| ==> !SetsDefault(env, paths[k], o)
    ensures var r := MergeAll(env, parser, paths);
      o in r.defaults && r.defaults[o] == Contribution(env, paths[j]).defaults[o]
    decreases |paths|
  {
    var next := Merge(parser, Contribution(env, paths[0]));
    if j == 0 {
      KeepsDefault(env, next, paths[1..], o);
    } else {
      LastFileWinsDefault(env, next, paths[1..], j - 1, o);
    }
  }

  /** A DEFAULT value no file sets keeps whatever the parser held before, present or absent. */
  lemma {:induction false} KeepsDefault(env: Env, parser: Store, paths: seq<string>, o: string)
    requires forall k :: 0 <= k < |paths| ==> !SetsDefault(env, paths[k], o)
    ensures var r := MergeAll(env, parser, paths);
      && (o in r.defaults <==> o in parser.defaults)
      && (o in parser.defaults ==> r.defaults[o] == parser.defaults[o])
    decreases |paths|
  {
    if paths != [] {
      KeepsDefault(env, Merge(parser, Contribution(env, paths[0])), paths[1..], o);
    }
  }
}
