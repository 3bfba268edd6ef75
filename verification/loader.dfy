/**
  The layered configuration loader (ConfigFromFile) as functions of the
  loader's state: the candidate files in precedence order, the read of one
  file with its required/optional rule, and the depth-first expansion of
  INCLUDE/paths with its cycle check.  The single-shot and session entry
  points (get_counterpart_mapping, map_counterpart) are defined on top.

  The filesystem is a finite map from absolute normalised paths to what a
  read finds there; a path absent from the map does not exist.  The home
  directory and the working directory are parameters.  `fuel` bounds how
  deeply include expansions may nest, standing for the interpreter's
  recursion limit.
 */
module Loader {
  import opened Wrappers
  import opened Paths
  import opened ConfigStore
  import opened Resolver

  const RcFileBasename: string := ".counterc"
  const IncludeSection: string := "INCLUDE"
  const PathsOption: string := "paths"
  const HomeVariable: string := "home"

  /** What opening and parsing a file that exists yields. */
  datatype FileState =
    | Unreadable              // exists but cannot be opened (a directory, no permission)
    | Malformed               // opens but is not valid INI text
    | Parsed(contents: Store) // the sections and DEFAULT values the file declares

  datatype Env = Env(fs: map<string, FileState>, cwd: string, home: string)

  /** The exceptions loading can raise. */
  datatype LoadError =
    | FileNotFound(path: string)
    | IOError(path: string)
    | ParsingError(path: string)
    | RecursionInConfigFile(fromFile: string, path: string)
    | RecursionLimit

  /** The loader object's fields: the parser it fills and the list of files it has handled. */
  datatype LoadState = LoadState(parser: Store, parsedFiles: seq<string>)

  /** The state after an operation, and the exception it raised, if any. */
  datatype Outcome = Outcome(state: LoadState, raised: Option<LoadError>)

  // ---------------------------------------------------------------------
  // the filesystem and ConfigParser.read
  // ---------------------------------------------------------------------

  /** The filesystem entry a path names: relative paths are taken from the working directory. */
  function FileKey(env: Env, p: string): string
  {
    AbsPath(env.cwd, p)
  }

  /** `os.path.exists`. */
  predicate Exists(env: Env, p: string)
  {
    FileKey(env, p) in env.fs
  }

  datatype ReadResult = ReadDone(parser: Store, success: bool) | ReadRaised(error: LoadError)

  /**
    `parser.read(p)`: a file that cannot be opened is skipped and reported
    as not read; one that cannot be parsed raises; otherwise its contents
    are merged over the parser's.
   */
  function Read(env: Env, parser: Store, p: string): ReadResult
  {
    if !Exists(env, p) then ReadDone(parser, false)
    else match env.fs[FileKey(env, p)]
      case Unreadable => ReadDone(parser, false)
      case Malformed => ReadRaised(ParsingError(p))
      case Parsed(contents) => ReadDone(Merge(parser, contents), true)
  }

  /** The parser a session starts with: no sections, and `home` among the defaults. */
  function InitialParser(home: string): Store
  {
    EmptyStore(map[HomeVariable := home])
  }

  /** `home_rc_file_path`: the rc file in the home directory. */
  function HomeRcFilePath(home: string): string
  {
    Join(home, RcFileBasename)
  }

  // ---------------------------------------------------------------------
  // INCLUDE/paths entries
  // ---------------------------------------------------------------------

  /** The characters `str.strip()` removes. */
  const WhiteSpace: set<char> := {
    ' ', '\t', '\n', '\r', '\U{000B}', '\U{000C}', '\U{001C}', '\U{001D}', '\U{001E}', '\U{001F}',
    '\U{0085}', '\U{00A0}', '\U{1680}', '\U{2000}', '\U{2001}', '\U{2002}', '\U{2003}', '\U{2004}',
    '\U{2005}', '\U{2006}', '\U{2007}', '\U{2008}', '\U{2009}', '\U{200A}', '\U{2028}', '\U{2029}',
    '\U{202F}', '\U{205F}', '\U{3000}'
  }

  /** How many characters `str.lstrip()` removes. */
  function LeadingSpaces(s: string): (n: nat)
    ensures n <= |s|
    ensures forall j :: 0 <= j < n ==> s[j] in WhiteSpace
    ensures n == |s| || s[n] !in WhiteSpace
    decreases |s|
  {
    if s != [] && s[0] in WhiteSpace then
      var k := LeadingSpaces(s[1..]);
      assert forall j :: 1 <= j < k + 1 ==> s[j] == s[1..][j - 1];
      k + 1
    else 0
  }

  /** `str.lstrip()`. */
  function StripLeading(s: string): (r: string)
    ensures |r| <= |s| && r == s[|s| - |r|..]
    ensures r == [] || r[0] !in WhiteSpace
    ensures forall j :: 0 <= j < |s| - |r| ==> s[j] in WhiteSpace
  {
    s[LeadingSpaces(s)..]
  }

  function StripTrailing(s: string): (r: string)
    ensures |r| <= |s| && r == s[..|r|]
    ensures r == [] || r[|r| - 1] !in WhiteSpace
    ensures forall j :: |r| <= j < |s| ==> s[j] in WhiteSpace
    decreases |s|
  {
    if s != [] && s[|s| - 1] in WhiteSpace then StripTrailing(s[..|s| - 1]) else s
  }

  /** `str.strip()`. */
  function Strip(s: string): string
  {
    StripTrailing(StripLeading(s))
  }

  /** The entries of a `paths` value: its lines, each stripped; empty lines are kept. */
  function Lines(paths: string): (r: seq<string>)
    ensures |r| >= 1
  {
    var parts := Split(paths, '\n');
    seq(|parts|, i requires 0 <= i < |parts| => Strip(parts[i]))
  }

  /**
    Where an include entry points: an absolute entry as written, a relative
    one under the directory of the file that declared it, made absolute;
    normalised either way.
   */
  function IncludeTarget(cwd: string, fromFile: string, entry: string): string
  {
    NormPath(if IsAbs(entry) then entry else AbsPath(cwd, Join(Dirname(fromFile), entry)))
  }

  // ---------------------------------------------------------------------
  // handling one rc file and its includes
  // ---------------------------------------------------------------------

  /**
    `_handle_rc_file`: record the path, read it, fail if a required file
    was not read (FileNotFound when it does not exist, IOError when it
    does), then expand its includes.
   */
  function HandleRcFile(env: Env, st: LoadState, fromFile: string, optional: bool, fuel: nat): Outcome
    decreases fuel, 3, 0
  {
    var recorded := st.(parsedFiles := st.parsedFiles + [fromFile]);
    match Read(env, recorded.parser, fromFile)
    case ReadRaised(e) => Outcome(recorded, Some(e))
    case ReadDone(parser, success) =>
      var read := recorded.(parser := parser);
      if !success && !optional then
        Outcome(read, Some(if Exists(env, fromFile) then IOError(fromFile) else FileNotFound(fromFile)))
      else CheckIncludes(env, read, fromFile, fuel)
  }

  /**
    `_check_and_handle_includes`: when the parser has INCLUDE/paths, take
    its entries, remove the option, and handle each entry in turn.
   */
  function CheckIncludes(env: Env, st: LoadState, fromFile: string, fuel: nat): Outcome
    decreases fuel, 2, 0
  {
    match Get(st.parser, IncludeSection, PathsOption)
    case Found(paths) =>
      var cleared := st.(parser := RemoveOption(st.parser, IncludeSection, PathsOption));
      IncludeEach(env, cleared, fromFile, Lines(paths), fuel)
    case _ => Outcome(st, None)
  }

  /** The loop over include entries: each is handled in turn until one raises. */
  function IncludeEach(env: Env, st: LoadState, fromFile: string, entries: seq<string>, fuel: nat): Outcome
    decreases fuel, 1, |entries|
  {
    if entries == [] then Outcome(st, None)
    else
      var o := IncludeEntry(env, st, fromFile, entries[0], fuel);
      if o.raised.Some? then o else IncludeEach(env, o.state, fromFile, entries[1..], fuel)
  }

  /**
    One include entry: a target already handled raises
    RecursionInConfigFile; otherwise it is recorded and handled as an
    optional file, one level deeper.
   */
  function IncludeEntry(env: Env, st: LoadState, fromFile: string, entry: string, fuel: nat): Outcome
    decreases fuel, 0, 0
  {
    var usePath := IncludeTarget(env.cwd, fromFile, entry);
    if usePath in st.parsedFiles then Outcome(st, Some(RecursionInConfigFile(fromFile, usePath)))
    else
      var recorded := st.(parsedFiles := st.parsedFiles + [usePath]);
      if fuel == 0 then Outcome(recorded, Some(RecursionLimit))
      else HandleRcFile(env, recorded, usePath, true, fuel - 1)
  }

  // ---------------------------------------------------------------------
  // the candidate files and the whole load
  // ---------------------------------------------------------------------

  /**
    An entry of the skip list: a path, or the `home_rc_file_path` property
    object itself (what `get_counterpart_mapping` puts there), which is
    equal to no path.
   */
  datatype SkipEntry = SkipPath(path: string) | HomeRcProperty

  /** Where a candidate file comes from. */
  datatype Origin = HomeRc | LocalRc | AddedRc

  datatype Candidate = Candidate(path: string, optional: bool)

  /** Whether a config file was supplied: an empty string counts as none. */
  predicate ConfigGiven(configFile: Option<string>)
  {
    configFile.Some? && configFile.value != ""
  }

  /** `config_file or .counterc`. */
  function LocalRcFile(configFile: Option<string>): string
  {
    if ConfigGiven(configFile) then configFile.value else RcFileBasename
  }

  /** A candidate is optional unless it is the supplied config file itself or is listed among the added files. */
  predicate IsOptional(path: string, origin: Origin, configFile: Option<string>, addRcFiles: seq<string>)
  {
    !(origin == LocalRc && ConfigGiven(configFile)) && path !in addRcFiles
  }

  function Keep(listed: seq<(string, Origin)>, configFile: Option<string>, addRcFiles: seq<string>, skip: seq<SkipEntry>): seq<Candidate>
    decreases |listed|
  {
    if listed == [] then []
    else
      var rest := Keep(listed[1..], configFile, addRcFiles, skip);
      if SkipPath(listed[0].0) in skip then rest
      else [Candidate(listed[0].0, IsOptional(listed[0].0, listed[0].1, configFile, addRcFiles))] + rest
  }

  /** The home rc file, then the config file (or .counterc), then the added files, less those in the skip list. */
  function Candidates(home: string, configFile: Option<string>, addRcFiles: seq<string>, skip: seq<SkipEntry>): seq<Candidate>
  {
    var listed := [(HomeRcFilePath(home), HomeRc), (LocalRcFile(configFile), LocalRc)]
                  + seq(|addRcFiles|, i requires 0 <= i < |addRcFiles| => (addRcFiles[i], AddedRc));
    Keep(listed, configFile, addRcFiles, skip)
  }

  /** Handle the candidates in order, stopping at the first exception. */
  function LoadFiles(env: Env, st: LoadState, files: seq<Candidate>, fuel: nat): Outcome
    decreases |files|
  {
    if files == [] then Outcome(st, None)
    else
      var o := HandleRcFile(env, st, files[0].path, files[0].optional, fuel);
      if o.raised.Some? then o else LoadFiles(env, o.state, files[1..], fuel)
  }

  /** `ConfigFromFile(config_file, add_rc_files, skip_file_read)`. */
  function Load(env: Env, configFile: Option<string>, addRcFiles: seq<string>, skip: seq<SkipEntry>, fuel: nat): Outcome
  {
    LoadFiles(env, LoadState(InitialParser(env.home), []), Candidates(env.home, configFile, addRcFiles, skip), fuel)
  }

  /** The skip list `get_counterpart_mapping` builds. */
  function HomeSkipList(skipHome: bool): seq<SkipEntry>
  {
    if skipHome then [HomeRcProperty] else []
  }

  /** `get_counterpart_mapping`: load the files, then wrap the parser in a mapping. */
  function GetCounterpartMapping(env: Env, configFile: Option<string>, skipHome: bool, fuel: nat): Result<CounterpartMapping, LoadError>
  {
    var o := Load(env, configFile, [], HomeSkipList(skipHome), fuel);
    if o.raised.Some? then Err(o.raised.value) else Ok(CounterpartMapping(o.state.parser))
  }

  datatype CounterpartError = LoadFailed(loadError: LoadError) | LookupFailed(lookupError: LookupError)

  /** `map_counterpart`: load (skipping home when a config file is given) and look up one string. */
  function MapCounterpart(env: Env, known: string, configFile: Option<string>, fuel: nat): Result<string, CounterpartError>
  {
    match GetCounterpartMapping(env, configFile, configFile.Some?, fuel)
    case Err(e) => Err(LoadFailed(e))
    case Ok(mapping) =>
      match Lookup(mapping, env.cwd, known)
      case Err(e) => Err(LookupFailed(e))
      case Ok(counterpart) => Ok(counterpart)
  }
}
