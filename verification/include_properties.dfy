/**
  Properties of include expansion: the list of handled files only grows,
  a recursion error names a file already handled, and with finitely many
  files declaring INCLUDE/paths the expansion always ends by itself, so
  the recursion limit is never reached once it exceeds their number.
 */
module IncludeProperties {
  import opened Wrappers
  import opened Paths
  import opened ConfigStore
  import opened Loader
  import opened LoaderProperties
  import PathLemmas

  // ---------------------------------------------------------------------
  // the handled-files list
  // ---------------------------------------------------------------------

  /** The list of handled files only grows, and a recursion error names a file on it. */
  predicate Grows(st: LoadState, o: Outcome)
  {
    && st.parsedFiles <= o.state.parsedFiles
    && (o.raised.Some? && o.raised.value.RecursionInConfigFile? ==> o.raised.value.path in o.state.parsedFiles)
  }

  lemma {:induction false} HandleRcFileGrows(env: Env, st: LoadState, f: string, optional: bool, fuel: nat)
    ensures Grows(st, HandleRcFile(env, st, f, optional, fuel))
    decreases fuel, 3, 0
  {
    var recorded := st.(parsedFiles := st.parsedFiles + [f]);
    match Read(env, recorded.parser, f)
    case ReadRaised(_) =>
    case ReadDone(parser, success) =>
      if success || optional {
        CheckIncludesGrows(env, recorded.(parser := parser), f, fuel);
      }
  }

  lemma {:induction false} CheckIncludesGrows(env: Env, st: LoadState, f: string, fuel: nat)
    ensures Grows(st, CheckIncludes(env, st, f, fuel))
    decreases fuel, 2, 0
  {
    match Get(st.parser, IncludeSection, PathsOption)
    case Found(paths) =>
      var cleared := st.(parser := RemoveOption(st.parser, IncludeSection, PathsOption));
      IncludeEachGrows(env, cleared, f, Lines(paths), fuel);
    case _ =>
  }

  lemma {:induction false} IncludeEachGrows(env: Env, st: LoadState, f: string, entries: seq<string>, fuel: nat)
    ensures Grows(st, IncludeEach(env, st, f, entries, fuel))
    decreases fuel, 1, |entries|
  {
    if entries != [] {
      IncludeEntryGrows(env, st, f, entries[0], fuel);
      var o := IncludeEntry(env, st, f, entries[0], fuel);
      if o.raised.None? {
        IncludeEachGrows(env, o.state, f, entries[1..], fuel);
      }
    }
  }

  lemma {:induction false} IncludeEntryGrows(env: Env, st: LoadState, f: string, entry: string, fuel: nat)
    ensures Grows(st, IncludeEntry(env, st, f, entry, fuel))
    decreases fuel, 0, 0
  {
    var usePath := IncludeTarget(env.cwd, f, entry);
    if usePath !in st.parsedFiles && fuel > 0 {
      HandleRcFileGrows(env, st.(parsedFiles := st.parsedFiles + [usePath]), usePath, true, fuel - 1);
    }
  }

  // ---------------------------------------------------------------------
  // include targets
  // ---------------------------------------------------------------------

  /**
    Seen from an absolute working directory, an include target is an
    absolute normalised path: it is its own filesystem key.
   */
  lemma IncludeTargetIsKey(env: Env, f: string, entry: string)
    requires IsAbs(env.cwd)
    ensures var u := IncludeTarget(env.cwd, f, entry);
      IsAbs(u) && NormPath(u) == u && FileKey(env, u) == u
  {
    var x := if IsAbs(entry) then entry else AbsPath(env.cwd, Join(Dirname(f), entry));
    if !IsAbs(entry) {
      PathLemmas.AbsPathCanonical(env.cwd, Join(Dirname(f), entry));
    }
    PathLemmas.NormPathAbsolute(x);
    PathLemmas.NormPathIdempotent(x);
  }

  // ---------------------------------------------------------------------
  // termination of include expansion
  // ---------------------------------------------------------------------

  /** The file names INCLUDE/paths in a section of its own (DEFAULT aside). */
  predicate Declares(c: Store)
  {
    IncludeSection in c.sections && PathsOption in c.sections[IncludeSection]
  }

  predicate DeclaresAt(env: Env, k: string)
  {
    k in env.fs && env.fs[k].Parsed? && Declares(env.fs[k].contents)
  }

  /** The files that declare includes. */
  function Declaring(env: Env): set<string>
  {
    set k | k in env.fs.Keys && DeclaresAt(env, k)
  }

  /** The files that declare includes and have not been handled yet. */
  function Pending(env: Env, parsed: seq<string>): set<string>
  {
    set k | k in env.fs.Keys && DeclaresAt(env, k) && k !in parsed
  }

  /** No file sets `paths` among its DEFAULT values. */
  predicate NoDefaultPaths(env: Env)
  {
    forall k | k in env.fs && env.fs[k].Parsed? :: PathsOption !in env.fs[k].contents.defaults
  }

  predicate Settled(env: Env)
  {
    IsAbs(env.cwd) && NoDefaultPaths(env)
  }

  /** The recursion limit was not reached, the handled list grew, and nothing is left pending. */
  predicate Bounded(st: LoadState, o: Outcome)
  {
    && o.raised != Some(RecursionLimit)
    && st.parsedFiles <= o.state.parsedFiles
    && (o.raised == None ==> Quiet(o.state.parser))
  }

  lemma {:induction false} SubsetCard<T>(a: set<T>, b: set<T>)
    requires a <= b
    ensures |a| <= |b|
    decreases |b|
  {
    if a != {} {
      var x :| x in a;
      SubsetCard(a - {x}, b - {x});
    }
  }

  lemma PrefixTrans<T>(a: seq<T>, b: seq<T>, c: seq<T>)
    requires a <= b && b <= c
    ensures a <= c
  {
  }

  lemma PendingShrinks(env: Env, before: seq<string>, after: seq<string>)
    requires before <= after
    ensures |Pending(env, after)| <= |Pending(env, before)| <= |Declaring(env)|
  {
    assert Pending(env, after) <= Pending(env, before);
    SubsetCard(Pending(env, after), Pending(env, before));
    SubsetCard(Pending(env, before), Declaring(env));
  }

  lemma PendingRemove(env: Env, parsed: seq<string>, u: string)
    requires DeclaresAt(env, u) && u !in parsed
    ensures |Pending(env, parsed + [u] + [u])| == |Pending(env, parsed)| - 1
  {
    assert Pending(env, parsed + [u] + [u]) == Pending(env, parsed) - {u};
  }

  lemma MergeQuiet(parser: Store, c: Store)
    requires Quiet(parser) && PathsOption !in c.defaults && !Declares(c)
    ensures Quiet(Merge(parser, c))
  {
  }

  lemma MergeKeepsDefaults(parser: Store, c: Store)
    requires PathsOption !in parser.defaults && PathsOption !in c.defaults
    ensures PathsOption !in Merge(parser, c).defaults
  {
  }

  lemma {:induction false} HandleRcFileBounded(env: Env, st: LoadState, f: string, optional: bool, fuel: nat)
    requires Settled(env) && Quiet(st.parser)
    requires DeclaresAt(env, FileKey(env, f)) ==> fuel > |Pending(env, st.parsedFiles + [f])|
    ensures Bounded(st, HandleRcFile(env, st, f, optional, fuel))
    decreases fuel, 3, 0
  {
    var recorded := st.(parsedFiles := st.parsedFiles + [f]);
    match Read(env, st.parser, f)
    case ReadRaised(_) =>
    case ReadDone(parser, success) =>
      if success || optional {
        var read := recorded.(parser := parser);
        if Exists(env, f) && env.fs[FileKey(env, f)].Parsed? {
          var c := env.fs[FileKey(env, f)].contents;
          MergeKeepsDefaults(st.parser, c);
          if !Declares(c) {
            MergeQuiet(st.parser, c);
          }
        }
        CheckIncludesBounded(env, read, f, fuel);
      }
  }

  lemma {:induction false} CheckIncludesBounded(env: Env, st: LoadState, f: string, fuel: nat)
    requires Settled(env)
    requires PathsOption !in st.parser.defaults
    requires IncludeSection in st.parser.sections && PathsOption in st.parser.sections[IncludeSection] ==>
      fuel > |Pending(env, st.parsedFiles)|
    ensures Bounded(st, CheckIncludes(env, st, f, fuel))
    decreases fuel, 2, 0
  {
    match Get(st.parser, IncludeSection, PathsOption)
    case Found(paths) =>
      var cleared := st.(parser := RemoveOption(st.parser, IncludeSection, PathsOption));
      IncludeEachBounded(env, cleared, f, Lines(paths), fuel);
    case _ =>
  }

  lemma {:induction false} IncludeEachBounded(env: Env, st: LoadState, f: string, entries: seq<string>, fuel: nat)
    requires Settled(env) && Quiet(st.parser)
    requires fuel > |Pending(env, st.parsedFiles)|
    ensures Bounded(st, IncludeEach(env, st, f, entries, fuel))
    decreases fuel, 1, |entries|
  {
    if entries != [] {
      IncludeEntryBounded(env, st, f, entries[0], fuel);
      var o := IncludeEntry(env, st, f, entries[0], fuel);
      if o.raised.None? {
        PendingShrinks(env, st.parsedFiles, o.state.parsedFiles);
        IncludeEachBounded(env, o.state, f, entries[1..], fuel);
      }
    }
  }

  lemma {:induction false} IncludeEntryBounded(env: Env, st: LoadState, f: string, entry: string, fuel: nat)
    requires Settled(env) && Quiet(st.parser)
    requires fuel > |Pending(env, st.parsedFiles)|
    ensures Bounded(st, IncludeEntry(env, st, f, entry, fuel))
    decreases fuel, 0, 0
  {
    var usePath := IncludeTarget(env.cwd, f, entry);
    if usePath !in st.parsedFiles {
      var recorded := st.(parsedFiles := st.parsedFiles + [usePath]);
      IncludeTargetIsKey(env, f, entry);
      if DeclaresAt(env, usePath) {
        PendingRemove(env, st.parsedFiles, usePath);
      } else {
        assert !DeclaresAt(env, FileKey(env, usePath));
      }
      var next := fuel - 1;
      EntryStep(env, st, f, entry, fuel, next, usePath);
      HandleRcFileBounded(env, recorded, usePath, true, next);
      PrefixTrans(st.parsedFiles, recorded.parsedFiles, HandleRcFile(env, recorded, usePath, true, next).state.parsedFiles);
    }
  }

  lemma {:induction false} LoadFilesBounded(env: Env, st: LoadState, files: seq<Candidate>, fuel: nat)
    requires Settled(env) && Quiet(st.parser)
    requires fuel > |Declaring(env)|
    ensures Bounded(st, LoadFiles(env, st, files, fuel))
    decreases |files|
  {
    if files != [] {
      PendingShrinks(env, [], st.parsedFiles + [files[0].path]);
      HandleRcFileBounded(env, st, files[0].path, files[0].optional, fuel);
      var o := HandleRcFile(env, st, files[0].path, files[0].optional, fuel);
      if o.raised.None? {
        LoadFilesBounded(env, o.state, files[1..], fuel);
      }
    }
  }

  /**
    When no file puts `paths` among its DEFAULT values, a recursion limit
    larger than the number of files declaring INCLUDE/paths is never
    reached: every nested include handles a declaring file not handled
    before.
   */
  lemma NoRecursionLimit(env: Env, configFile: Option<string>, addRcFiles: seq<string>, skip: seq<SkipEntry>, fuel: nat)
    requires IsAbs(env.cwd) && NoDefaultPaths(env)
    requires fuel > |Declaring(env)|
    ensures Load(env, configFile, addRcFiles, skip, fuel).raised != Some(RecursionLimit)
  {
    InitialParserIsQuiet(env.home);
    LoadFilesBounded(env, LoadState(InitialParser(env.home), []), Candidates(env.home, configFile, addRcFiles, skip), fuel);
  }

  // ---------------------------------------------------------------------
  // single entries and small configurations
  // ---------------------------------------------------------------------

  /** A target already handled raises RecursionInConfigFile before anything is read. */
  lemma AlreadyHandledIsRecursion(env: Env, st: LoadState, f: string, entry: string, fuel: nat)
    requires IncludeTarget(env.cwd, f, entry) in st.parsedFiles
    ensures IncludeEntry(env, st, f, entry, fuel) == Outcome(st, Some(RecursionInConfigFile(f, IncludeTarget(env.cwd, f, entry))))
  {
  }

  /**
    An entry listed twice in a row raises RecursionInConfigFile the second
    time, once the first has been handled without an exception: its target
    is on the list of handled files by then.
   */
  lemma RepeatedEntryIsRecursion(env: Env, st: LoadState, f: string, entry: string, fuel: nat)
    requires IncludeEntry(env, st, f, entry, fuel).raised == None
    ensures IncludeEach(env, st, f, [entry, entry], fuel) ==
      Outcome(IncludeEntry(env, st, f, entry, fuel).state, Some(RecursionInConfigFile(f, IncludeTarget(env.cwd, f, entry))))
  {
    var u := IncludeTarget(env.cwd, f, entry);
    var o := IncludeEntry(env, st, f, entry, fuel);
    var next := fuel - 1;
    EntryStep(env, st, f, entry, fuel, next, u);
    var recorded := st.(parsedFiles := st.parsedFiles + [u]);
    HandleRcFileGrows(env, recorded, u, true, next);
    assert o.state.parsedFiles[|st.parsedFiles|] == recorded.parsedFiles[|st.parsedFiles|] == u;
    AlreadyHandledIsRecursion(env, o.state, f, entry, fuel);
    assert [entry, entry][1..] == [entry];
    IncludeEachSingle(env, o.state, f, entry, fuel);
  }

  /** `paths` holding a bare line break gives two empty entries, the same entry twice. */
  lemma LinesOfLineBreak()
    ensures Lines("\n") == ["", ""]
  {
    assert "\n" == "" + ['\n'] + "";
    SplitConcat("", "", '\n');
    assert Split("", '\n') == [""];
  }

  /**
    A target not handled before that does not exist (or cannot be read) is
    skipped without error; it is recorded twice, once by the include loop
    and once when it is handled.
   */
  lemma MissingIncludeSkipped(env: Env, st: LoadState, f: string, entry: string, fuel: nat)
    requires Quiet(st.parser) && fuel > 0
    requires var u := IncludeTarget(env.cwd, f, entry);
      u !in st.parsedFiles && (!Exists(env, u) || env.fs[FileKey(env, u)] == Unreadable)
    ensures var u := IncludeTarget(env.cwd, f, entry);
      IncludeEntry(env, st, f, entry, fuel) == Outcome(st.(parsedFiles := st.parsedFiles + [u, u]), None)
  {
    var u := IncludeTarget(env.cwd, f, entry);
    OptionalFileMayBeMissing(env, st.(parsedFiles := st.parsedFiles + [u]), u, fuel - 1);
    assert st.parsedFiles + [u] + [u] == st.parsedFiles + [u, u];
  }

  /** A file that holds nothing but an INCLUDE section naming one path. */
  function IncludeOnly(target: string): Store
  {
    Store(map[], map[IncludeSection := map[PathsOption := target]])
  }

  /** A usable absolute, normalised, single-line include entry. */
  predicate PlainTarget(p: string)
  {
    IsAbs(p) && NormPath(p) == p && Stripped(p) && '\n' !in p
  }

  lemma HandleIncludeOnly(env: Env, st: LoadState, f: string, target: string, optional: bool, fuel: nat)
    requires Quiet(st.parser) && PlainTarget(target)
    requires FileKey(env, f) in env.fs && env.fs[FileKey(env, f)] == Parsed(IncludeOnly(target))
    ensures var merged := Merge(st.parser, IncludeOnly(target));
      var next := LoadState(RemoveOption(merged, IncludeSection, PathsOption), st.parsedFiles + [f]);
      && Quiet(next.parser)
      && HandleRcFile(env, st, f, optional, fuel) == IncludeEntry(env, next, f, target, fuel)
  {
    var merged := Merge(st.parser, IncludeOnly(target));
    var next := LoadState(RemoveOption(merged, IncludeSection, PathsOption), st.parsedFiles + [f]);
    assert Lines(target) == [target] by {
      LinesRoundTrip([target]);
      assert JoinWith([target], '\n') == target;
    }
    assert Read(env, st.parser, f) == ReadDone(merged, true);
    assert Get(merged, IncludeSection, PathsOption) == Found(target);
    assert CheckIncludes(env, LoadState(merged, st.parsedFiles + [f]), f, fuel) == IncludeEach(env, next, f, [target], fuel);
    IncludeEachSingle(env, next, f, target, fuel);
  }

  lemma IncludeEachSingle(env: Env, st: LoadState, f: string, entry: string, fuel: nat)
    ensures IncludeEach(env, st, f, [entry], fuel) == IncludeEntry(env, st, f, entry, fuel)
  {
    var o := IncludeEntry(env, st, f, entry, fuel);
    if o.raised.None? {
      assert IncludeEach(env, o.state, f, [entry][1..], fuel) == Outcome(o.state, None);
    }
  }

  /**
    Two files that include each other: handling the first handles the
    second, whose entry names the first again, which raises
    RecursionInConfigFile.
   */
  lemma MutualIncludeIsRecursion(env: Env, st: LoadState, a: string, b: string, optional: bool, fuel: nat)
    requires IsAbs(env.cwd) && Quiet(st.parser) && fuel > 0
    requires PlainTarget(a) && PlainTarget(b) && a != b
    requires a !in st.parsedFiles && b !in st.parsedFiles
    requires a in env.fs && env.fs[a] == Parsed(IncludeOnly(b))
    requires b in env.fs && env.fs[b] == Parsed(IncludeOnly(a))
    ensures HandleRcFile(env, st, a, optional, fuel).raised == Some(RecursionInConfigFile(b, a))
  {
    var st2 := LoadState(RemoveOption(Merge(st.parser, IncludeOnly(b)), IncludeSection, PathsOption), st.parsedFiles + [a] + [b]);
    var next := fuel - 1;
    IncludeForward(env, st, a, b, optional, fuel, next);
    IncludeBackIsRecursion(env, st2, a, b, next);
  }

  /** The first half of MutualIncludeIsRecursion: a file whose only entry names a new file hands over to it. */
  lemma IncludeForward(env: Env, st: LoadState, a: string, b: string, optional: bool, fuel: nat, next: nat)
    requires IsAbs(env.cwd) && Quiet(st.parser) && fuel == next + 1
    requires PlainTarget(a) && PlainTarget(b) && a != b && b !in st.parsedFiles
    requires a in env.fs && env.fs[a] == Parsed(IncludeOnly(b))
    ensures var st2 := LoadState(RemoveOption(Merge(st.parser, IncludeOnly(b)), IncludeSection, PathsOption), st.parsedFiles + [a] + [b]);
      && Quiet(st2.parser)
      && HandleRcFile(env, st, a, optional, fuel) == HandleRcFile(env, st2, b, true, next)
  {
    assert FileKey(env, a) == a && IncludeTarget(env.cwd, a, b) == b;
    var st1 := LoadState(RemoveOption(Merge(st.parser, IncludeOnly(b)), IncludeSection, PathsOption), st.parsedFiles + [a]);
    HandleIncludeOnly(env, st, a, b, optional, fuel);
    EntryStep(env, st1, a, b, fuel, next, b);
  }

  /** The second half of MutualIncludeIsRecursion: a file whose only entry names a file already handled. */
  lemma IncludeBackIsRecursion(env: Env, st: LoadState, a: string, b: string, fuel: nat)
    requires Quiet(st.parser) && PlainTarget(a) && a in st.parsedFiles
    requires b in env.fs && env.fs[b] == Parsed(IncludeOnly(a)) && PlainTarget(b)
    ensures HandleRcFile(env, st, b, true, fuel).raised == Some(RecursionInConfigFile(b, a))
  {
    assert FileKey(env, b) == b && IncludeTarget(env.cwd, b, a) == a;
    var next := LoadState(RemoveOption(Merge(st.parser, IncludeOnly(a)), IncludeSection, PathsOption), st.parsedFiles + [b]);
    HandleIncludeOnly(env, st, b, a, true, fuel);
    assert a in next.parsedFiles;
    AlreadyHandledIsRecursion(env, next, b, a, fuel);
  }

  lemma NormPathDE()
    ensures NormPath("/d/e") == "/d/e"
  {
    SplitDE();
    ResolveDE();
    JoinDE();
    assert InitialSlashes("/d/e") == 1 && Slashes(1) == "/";
  }

  lemma SplitDE()
    ensures Split("/d/e", Sep) == ["", "d", "e"]
  {
    assert "/d/e" == "" + [Sep] + ("d" + [Sep] + "e");
    SplitConcat("", "d" + [Sep] + "e", Sep);
    SplitConcat("d", "e", Sep);
    SplitNoSep("d", Sep);
    SplitNoSep("e", Sep);
  }

  lemma ResolveDE()
    ensures Resolve(["", "d", "e"], true, []) == ["d", "e"]
  {
  }

  lemma JoinDE()
    ensures JoinWith(["d", "e"], Sep) == "d/e"
  {
  }

  lemma EntryStep(env: Env, st: LoadState, f: string, entry: string, fuel: nat, next: nat, u: string)
    requires IncludeTarget(env.cwd, f, entry) == u && u !in st.parsedFiles && fuel == next + 1
    ensures IncludeEntry(env, st, f, entry, fuel) == HandleRcFile(env, st.(parsedFiles := st.parsedFiles + [u]), u, true, next)
  {
  }

  lemma NormPathA()
    ensures NormPath("/a") == "/a"
  {
    assert Split("/a", Sep) == ["", "a"] by {
      assert "/a" == "" + [Sep] + "a";
      SplitConcat("", "a", Sep);
      SplitNoSep("a", Sep);
    }
    assert Resolve(["", "a"], true, []) == ["a"];
  }

  lemma LinesDE()
    ensures Lines("d/e") == ["d/e"]
  {
    assert 'd' !in WhiteSpace && 'e' !in WhiteSpace;
    assert Stripped("d/e");
    LinesRoundTrip(["d/e"]);
    assert JoinWith(["d/e"], '\n') == "d/e";
  }

  lemma TargetFromA()
    ensures IncludeTarget("/", "/a", "d/e") == "/d/e"
  {
    NormPathDE();
    assert Dirname("/a") == "/";
    assert Join("/", "d/e") == "/d/e";
  }

  /**
    An include pending through DEFAULT: INCLUDE exists without `paths`,
    and DEFAULT holds `paths`.  Even a missing optional file then expands
    that entry again.
   */
  predicate DefaultPending(parser: Store, entry: string)
  {
    && IncludeSection in parser.sections && PathsOption !in parser.sections[IncludeSection]
    && PathsOption in parser.defaults && parser.defaults[PathsOption] == entry
  }

  lemma MissingFileStillExpands(env: Env, st: LoadState, f: string, entry: string, fuel: nat)
    requires !Exists(env, f)
    requires DefaultPending(st.parser, entry) && Lines(entry) == [entry]
    ensures HandleRcFile(env, st, f, true, fuel) == IncludeEntry(env, st.(parsedFiles := st.parsedFiles + [f]), f, entry, fuel)
  {
    var cleared := RemoveOption(st.parser, IncludeSection, PathsOption);
    assert cleared.sections[IncludeSection] == st.parser.sections[IncludeSection];
    assert cleared.sections == st.parser.sections;
    assert cleared == st.parser;
    IncludeEachSingle(env, st.(parsedFiles := st.parsedFiles + [f]), f, entry, fuel);
  }

  lemma ParsedFileExpandsDefault(env: Env, st: LoadState, f: string, c: Store, entry: string, fuel: nat)
    requires Exists(env, f) && env.fs[FileKey(env, f)] == Parsed(c)
    requires DefaultPending(Merge(st.parser, c), entry) && Lines(entry) == [entry]
    ensures DefaultPending(RemoveOption(Merge(st.parser, c), IncludeSection, PathsOption), entry)
    ensures HandleRcFile(env, st, f, false, fuel) ==
      IncludeEntry(env, LoadState(RemoveOption(Merge(st.parser, c), IncludeSection, PathsOption), st.parsedFiles + [f]), f, entry, fuel)
  {
    var merged := Merge(st.parser, c);
    var cleared := LoadState(RemoveOption(merged, IncludeSection, PathsOption), st.parsedFiles + [f]);
    assert Read(env, st.parser, f) == ReadDone(merged, true);
    assert Get(merged, IncludeSection, PathsOption) == Found(entry);
    assert HandleRcFile(env, st, f, false, fuel) == CheckIncludes(env, LoadState(merged, st.parsedFiles + [f]), f, fuel);
    assert CheckIncludes(env, LoadState(merged, st.parsedFiles + [f]), f, fuel) == IncludeEach(env, cleared, f, [entry], fuel);
    IncludeEachSingle(env, cleared, f, entry, fuel);
  }

  /**
    A `paths` value among DEFAULT values is not removed by removing
    INCLUDE/paths, so every file handled afterwards sees it again.  Here
    /a holds an empty INCLUDE section and `paths = d/e` under DEFAULT: the
    entry leads from /a to /d/e, from there to /d/d/e, and so on, and the
    recursion limit is reached, whatever it is, although no file declares
    INCLUDE/paths in a section of its own.
   */
  lemma DefaultPathsReachLimit(fuel: nat)
    ensures var env := DeepeningEnv();
      && IsAbs(env.cwd) && Declaring(env) == {} && !NoDefaultPaths(env)
      && HandleRcFile(env, LoadState(InitialParser("/h"), []), "/a", false, fuel).raised == Some(RecursionLimit)
  {
    DeepeningDeclaresNothing();
    DeepeningReachesLimit(fuel);
  }

  lemma DeepeningDeclaresNothing()
    ensures var env := DeepeningEnv();
      IsAbs(env.cwd) && Declaring(env) == {} && !NoDefaultPaths(env)
  {
    var env := DeepeningEnv();
    assert !DeclaresAt(env, "/a");
  }

  lemma DeepeningReachesLimit(fuel: nat)
    ensures HandleRcFile(DeepeningEnv(), LoadState(InitialParser("/h"), []), "/a", false, fuel).raised == Some(RecursionLimit)
  {
    var st0 := LoadState(InitialParser("/h"), []);
    var A := DeepeningEnv().fs["/a"].contents;
    var s1 := LoadState(RemoveOption(Merge(st0.parser, A), IncludeSection, PathsOption), st0.parsedFiles + ["/a"]);
    DeepeningStart(fuel);
    DeepeningChain();
    ChainLength(0);
    ChainZero();
    LinesDE();
    ChainReachesLimit(DeepeningEnv(), s1, "/a", "d/e", Chain, 0, fuel);
  }

  /** In DeepeningEnv no path of the chain exists, and d/e leads from each to the next, longer one. */
  lemma DeepeningChain()
    ensures forall m: nat :: LeadsOn(DeepeningEnv(), "d/e", Chain, m)
  {
    forall m: nat
      ensures LeadsOn(DeepeningEnv(), "d/e", Chain, m)
    {
      ChainIsMissing(m);
      TargetStep(m);
      ChainLength(m);
      ChainLength(m + 1);
    }
  }

  /** Handling /a leaves the entry d/e pending and includes it from /a. */
  lemma DeepeningStart(fuel: nat)
    ensures var st0 := LoadState(InitialParser("/h"), []);
      var A := DeepeningEnv().fs["/a"].contents;
      var s1 := LoadState(RemoveOption(Merge(st0.parser, A), IncludeSection, PathsOption), st0.parsedFiles + ["/a"]);
      && DefaultPending(s1.parser, "d/e") && s1.parsedFiles == ["/a"]
      && HandleRcFile(DeepeningEnv(), st0, "/a", false, fuel) == IncludeEntry(DeepeningEnv(), s1, "/a", "d/e", fuel)
      && IncludeTarget("/", "/a", "d/e") == "/d/e"
  {
    var env := DeepeningEnv();
    var st0 := LoadState(InitialParser("/h"), []);
    var A := env.fs["/a"].contents;
    NormPathA();
    LinesDE();
    assert DefaultPending(Merge(st0.parser, A), "d/e");
    ParsedFileExpandsDefault(env, st0, "/a", A, "d/e", fuel);
    TargetFromA();
  }

  lemma ChainZero()
    ensures Chain(0) == "/d/e"
  {
    assert Ds(1) + ["e"] == ["d", "e"];
    JoinDE();
  }

  /** The configuration of DefaultPathsReachLimit: only /a exists; the working directory is / and home is /h. */
  function DeepeningEnv(): Env
  {
    Env(map["/a" := Parsed(Store(map[PathsOption := "d/e"], map[IncludeSection := map[]]))], "/", "/h")
  }

  /** `n` components "d". */
  function Ds(n: nat): seq<string>
  {
    seq(n, _ => "d")
  }

  /** The paths the entry d/e leads along in DeepeningEnv: /d/e, /d/d/e, /d/d/d/e, ... */
  function Chain(n: nat): string
  {
    [Sep] + JoinWith(Ds(n + 1) + ["e"], Sep)
  }

  /** The directory of the n-th path of the chain: /d, /d/d, ... */
  function ChainDir(n: nat): string
  {
    [Sep] + JoinWith(Ds(n + 1), Sep)
  }

  lemma {:induction false} ChainLength(n: nat)
    ensures |Chain(n)| == 2 * n + 4
  {
    if n > 0 {
      ChainLength(n - 1);
      var c := Ds(n + 1) + ["e"];
      assert c[0] == "d" && c[1..] == Ds(n) + ["e"];
    } else {
      ChainZero();
    }
  }

  lemma ChainIsNormal(n: nat)
    ensures IsAbs(Chain(n)) && NormPath(Chain(n)) == Chain(n)
  {
    var c := Ds(n + 1) + ["e"];
    assert forall i :: 0 <= i < |c| ==> c[i] == "d" || c[i] == "e";
    assert PathLemmas.Canonical(c, true);
    assert Slashes(1) == [Sep];
    PathLemmas.NormPathOfNormalForm(1, c);
  }

  lemma ChainIsMissing(n: nat)
    ensures !Exists(DeepeningEnv(), Chain(n))
  {
    ChainIsNormal(n);
    ChainLength(n);
  }

  /** From the n-th path of the chain, the entry d/e leads to the next one. */
  lemma TargetStep(n: nat)
    ensures IncludeTarget("/", Chain(n), "d/e") == Chain(n + 1)
  {
    DirnameOfChain(n);
    JoinOntoChainDir(n);
    ChainIsNormal(n + 1);
  }

  lemma DirnameOfChain(n: nat)
    ensures Dirname(Chain(n)) == ChainDir(n)
  {
    assert PathLemmas.SlashFree(Ds(n + 1));
    PathLemmas.JoinWithLast(Ds(n + 1));
    JoinWithSnoc(Ds(n + 1), "e", Sep);
    assert Chain(n) == Join(ChainDir(n), "e");
    PathLemmas.DirnameOfJoin(ChainDir(n), "e");
  }

  lemma JoinOntoChainDir(n: nat)
    ensures Join(ChainDir(n), "d/e") == Chain(n + 1)
  {
    ChainDirJoin(n);
    ChainNext(n);
  }

  lemma ChainDirJoin(n: nat)
    ensures Join(ChainDir(n), "d/e") == ChainDir(n) + ([Sep] + "d/e")
  {
    var j := JoinWith(Ds(n + 1), Sep);
    PathLemmas.JoinWithLast(Ds(n + 1));
    assert ChainDir(n)[|ChainDir(n)| - 1] == j[|j| - 1];
  }

  lemma ChainNext(n: nat)
    ensures Chain(n + 1) == ChainDir(n) + ([Sep] + "d/e")
  {
    var j := JoinWith(Ds(n + 1), Sep);
    DsSnoc(n + 1);
    JoinWithSnoc(Ds(n + 1), "d", Sep);
    JoinWithSnoc(Ds(n + 2), "e", Sep);
    assert JoinWith(Ds(n + 2) + ["e"], Sep) == j + [Sep] + "d" + [Sep] + "e";
    assert "d/e" == "d" + [Sep] + "e";
  }

  lemma DsSnoc(n: nat)
    ensures Ds(n + 1) == Ds(n) + ["d"]
  {
  }

  /** The m-th path of the chain does not exist, and from it the entry leads to the next one, which is longer. */
  predicate LeadsOn(env: Env, entry: string, chain: nat -> string, m: nat)
  {
    !Exists(env, chain(m)) && IncludeTarget(env.cwd, chain(m), entry) == chain(m + 1) && |chain(m)| < |chain(m + 1)|
  }

  /**
    An entry pending through DEFAULT that leads from each path of a chain
    of missing paths to a longer one, none handled before, reaches the
    recursion limit, whatever it is.
   */
  lemma {:induction false} ChainReachesLimit(env: Env, st: LoadState, from: string, entry: string, chain: nat -> string, n: nat, fuel: nat)
    requires Lines(entry) == [entry]
    requires forall m: nat :: LeadsOn(env, entry, chain, m)
    requires IncludeTarget(env.cwd, from, entry) == chain(n)
    requires DefaultPending(st.parser, entry)
    requires forall x | x in st.parsedFiles :: |x| < |chain(n)|
    ensures IncludeEntry(env, st, from, entry, fuel).raised == Some(RecursionLimit)
    decreases fuel
  {
    var u := chain(n);
    assert LeadsOn(env, entry, chain, n);
    assert u !in st.parsedFiles;
    if fuel == 0 {
      EntryOutOfFuel(env, st, from, entry, u);
    } else {
      var next := fuel - 1;
      var again := st.(parsedFiles := st.parsedFiles + [u] + [u]);
      ChainStep(env, st, from, entry, chain, n, fuel, next);
      ChainReachesLimit(env, again, u, entry, chain, n + 1, next);
    }
  }

  /** One step along the chain: the entry is handled again from the next path, in the same circumstances. */
  lemma ChainStep(env: Env, st: LoadState, from: string, entry: string, chain: nat -> string, n: nat, fuel: nat, next: nat)
    requires Lines(entry) == [entry]
    requires LeadsOn(env, entry, chain, n)
    requires IncludeTarget(env.cwd, from, entry) == chain(n)
    requires DefaultPending(st.parser, entry)
    requires forall x | x in st.parsedFiles :: |x| < |chain(n)|
    requires fuel == next + 1
    ensures var again := st.(parsedFiles := st.parsedFiles + [chain(n)] + [chain(n)]);
      && IncludeTarget(env.cwd, chain(n), entry) == chain(n + 1)
      && (forall x | x in again.parsedFiles :: |x| < |chain(n + 1)|)
      && IncludeEntry(env, st, from, entry, fuel) == IncludeEntry(env, again, chain(n), entry, next)
  {
    var u := chain(n);
    assert u !in st.parsedFiles;
    MissingEntryStep(env, st, from, entry, u, fuel, next);
  }

  /** A new target with no fuel left is recorded and raises the recursion limit. */
  lemma EntryOutOfFuel(env: Env, st: LoadState, f: string, entry: string, u: string)
    requires IncludeTarget(env.cwd, f, entry) == u && u !in st.parsedFiles
    ensures IncludeEntry(env, st, f, entry, 0).raised == Some(RecursionLimit)
  {
  }

  /** A missing target with the entry still pending through DEFAULT is recorded twice and expanded again from there. */
  lemma MissingEntryStep(env: Env, st: LoadState, f: string, entry: string, u: string, fuel: nat, next: nat)
    requires IncludeTarget(env.cwd, f, entry) == u && u !in st.parsedFiles && fuel == next + 1
    requires !Exists(env, u)
    requires DefaultPending(st.parser, entry) && Lines(entry) == [entry]
    ensures IncludeEntry(env, st, f, entry, fuel) ==
      IncludeEntry(env, st.(parsedFiles := st.parsedFiles + [u] + [u]), u, entry, next)
  {
    var recorded := st.(parsedFiles := st.parsedFiles + [u]);
    EntryStep(env, st, f, entry, fuel, next, u);
    MissingFileStillExpands(env, recorded, u, entry, next);
  }
}
