/**
  The loader object (ConfigFromFile) as the Python code runs it: a parser
  and a list of handled files that its methods update in place while they
  walk the candidate files and their includes.  Each method is proved to
  leave the object in the state, and raise the exception, that the
  functions of module Loader specify.
 */
module LoaderImpl {
  import opened Wrappers
  import opened ConfigStore
  import opened Resolver
  import opened Loader

  class ConfigFromFile {
    const env: Env
    var parser: Store
    var parsedFiles: seq<string>
    /** The exception construction raised, if any. */
    var raised: Option<LoadError>

    function State(): LoadState
      reads this
    {
      LoadState(parser, parsedFiles)
    }

    /** Read the candidate files in order; the first exception stops the load. */
    constructor (env: Env, configFile: Option<string>, addRcFiles: seq<string>, skipFileRead: seq<SkipEntry>, fuel: nat)
      ensures this.env == env
      ensures Outcome(State(), raised) == Load(env, configFile, addRcFiles, skipFileRead, fuel)
    {
      this.env := env;
      parser := InitialParser(env.home);
      parsedFiles := [];
      raised := None;
      new;
      var filesToParse := Candidates(env.home, configFile, addRcFiles, skipFileRead);
      var i := 0;
      while i < |filesToParse|
        invariant 0 <= i <= |filesToParse|
        invariant this.env == env && raised == None
        invariant LoadFiles(env, State(), filesToParse[i..], fuel) == Load(env, configFile, addRcFiles, skipFileRead, fuel)
      {
        var error := HandleRcFile(filesToParse[i].path, filesToParse[i].optional, fuel);
        if error.Some? {
          raised := error;
          return;
        }
        i := i + 1;
      }
    }

    /** Record `fromFile`, read it, insist on it unless optional, then expand its includes. */
    method HandleRcFile(fromFile: string, optional: bool, fuel: nat) returns (error: Option<LoadError>)
      modifies this`parser, this`parsedFiles
      decreases fuel, 3, 0
      ensures Outcome(State(), error) == Loader.HandleRcFile(env, old(State()), fromFile, optional, fuel)
    {
      parsedFiles := parsedFiles + [fromFile];
      var result := Read(env, parser, fromFile);
      if result.ReadRaised? {
        return Some(result.error);
      }
      parser := result.parser;
      if !result.success && !optional {
        if Exists(env, fromFile) {
          return Some(IOError(fromFile));
        }
        return Some(FileNotFound(fromFile));
      }
      error := CheckAndHandleIncludes(fromFile, fuel);
    }

    /** Consume INCLUDE/paths and handle each entry it names, refusing any path handled before. */
    method CheckAndHandleIncludes(fromFile: string, fuel: nat) returns (error: Option<LoadError>)
      modifies this`parser, this`parsedFiles
      decreases fuel, 2, 0
      ensures Outcome(State(), error) == CheckIncludes(env, old(State()), fromFile, fuel)
    {
      var got := Get(parser, IncludeSection, PathsOption);
      if !got.Found? {
        return None;
      }
      ghost var st0 := State();
      var pathsLines := Lines(got.value);
      parser := RemoveOption(parser, IncludeSection, PathsOption);
      ghost var st1 := State();
      assert st1 == st0.(parser := RemoveOption(st0.parser, IncludeSection, PathsOption));
      assert CheckIncludes(env, st0, fromFile, fuel) == IncludeEach(env, st1, fromFile, pathsLines, fuel);
      error := HandleEntries(fromFile, pathsLines, fuel);
    }

    /** The loop of `_check_and_handle_includes` over the entries, stopping at the first exception. */
    method HandleEntries(fromFile: string, entries: seq<string>, fuel: nat) returns (error: Option<LoadError>)
      modifies this`parser, this`parsedFiles
      decreases fuel, 1, 0
      ensures Outcome(State(), error) == IncludeEach(env, old(State()), fromFile, entries, fuel)
    {
      assert entries[0..] == entries;
      var i := 0;
      while i < |entries|
        invariant 0 <= i <= |entries|
        invariant IncludeEach(env, State(), fromFile, entries[i..], fuel) == IncludeEach(env, old(State()), fromFile, entries, fuel)
      {
        error := IncludeEntry(fromFile, entries[i], fuel);
        if error.Some? {
          return;
        }
        assert entries[i..][1..] == entries[i + 1..];
        i := i + 1;
      }
      return None;
    }

    /** The body of the include loop for one entry. */
    method IncludeEntry(fromFile: string, entry: string, fuel: nat) returns (error: Option<LoadError>)
      modifies this`parser, this`parsedFiles
      decreases fuel, 0, 0
      ensures Outcome(State(), error) == Loader.IncludeEntry(env, old(State()), fromFile, entry, fuel)
    {
      var usePath := IncludeTarget(env.cwd, fromFile, entry);
      if usePath in parsedFiles {
        return Some(RecursionInConfigFile(fromFile, usePath));
      }
      parsedFiles := parsedFiles + [usePath];
      if fuel == 0 {
        return Some(RecursionLimit);
      }
      error := HandleRcFile(usePath, true, fuel - 1);
    }
  }

  /** `get_counterpart_mapping`, building the loader object. */
  method GetCounterpartMapping(env: Env, configFile: Option<string>, skipHome: bool, fuel: nat)
    returns (r: Result<CounterpartMapping, LoadError>)
    ensures r == Loader.GetCounterpartMapping(env, configFile, skipHome, fuel)
  {
    var skip := if skipHome then [HomeRcProperty] else [];
    var config := new ConfigFromFile(env, configFile, [], skip, fuel);
    if config.raised.Some? {
      return Err(config.raised.value);
    }
    return Ok(CounterpartMapping(config.parser));
  }

  /** `map_counterpart`: one lookup against a freshly loaded mapping. */
  method MapCounterpart(env: Env, known: string, configFile: Option<string>, fuel: nat)
    returns (r: Result<string, CounterpartError>)
    ensures r == Loader.MapCounterpart(env, known, configFile, fuel)
  {
    var mapping := GetCounterpartMapping(env, configFile, configFile.Some?, fuel);
    if mapping.Err? {
      return Err(LoadFailed(mapping.error));
    }
    var looked := Lookup(mapping.value, env.cwd, known);
    if looked.Err? {
      return Err(LookupFailed(looked.error));
    }
    return Ok(looked.value);
  }
}
