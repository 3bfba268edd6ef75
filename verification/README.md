# counterparts in Dafny

A model of `counterparts`, a small command-line tool and library. It maps
strings (usually file paths) to their "counterparts", using INI
configuration files.

The model covers four parts of the tool:

- **The configuration store.** A ConfigParser object, taken as a value:
  - named sections plus the DEFAULT pseudo-section;
  - `get` with its DEFAULT fallback, and NoSectionError / NoOptionError;
  - the merge `read` performs;
  - `remove_option`.
- **The counterpart mapping** (`CounterpartMapping.__getitem__`):
  - an explicit COUNTERPART_MAP entry answers a lookup;
  - otherwise COUNTERPART_DIR's `prepend_path` is joined with the string made relative to the working directory;
  - a lookup may raise KeyError, NoOptionError or ValueError.
- **The configuration loader** (`ConfigFromFile`):
  - the candidate files in precedence order: the home rc file, the config file or `.counterc`, then the added files, less the skip list;
  - the rule that decides which files are required;
  - FileNotFound, IOError and ParsingError;
  - depth-first expansion of `INCLUDE/paths` entries, with the RecursionInConfigFile check against the list of files already handled.

  It is modelled twice:
  - module `Loader`: functions of the loader's state;
  - module `LoaderImpl`: a class whose methods update `parser` and `parsedFiles` in place, each proved to end in the state and exception the functions specify.

  `get_counterpart_mapping` and `map_counterpart` sit on top.
- **The command's lookup loop** (`main` after option parsing):
  - a hit writes the counterpart;
  - a miss follows `--else-action`;
  - the return code records whether anything missed;
  - output is a list of writes to stdout or stderr.

`os.path` (isabs, join, dirname, normpath, abspath, relpath) is modelled on
strings, following POSIX `posixpath`. `str.split`, `str.join` and
`str.strip` are modelled the same way.

### Inputs and assumptions

**Environment.** The filesystem, the working directory and the home
directory form one parameter, `Env`:

- The filesystem is a map from absolute normalised paths to what reading
  finds there. A file is unreadable, malformed, or parsed into the sections
  and DEFAULT values it declares.
- A path missing from the map does not exist.

**Recursion limit.** Python's recursion limit is the `fuel` parameter.
`fuel` bounds how deeply include expansions nest; when it runs out the
model raises `RecursionLimit`.

**Python version.** The model follows Python 3's `configparser.ConfigParser`.
For example, a file that exists but cannot be parsed raises ParsingError,
even when the file is optional.

### Override order

When a load raises nothing, its list of handled files is the order in
which files were read. An include target is listed twice in a row, and
reading it twice is reading it once. Apart from INCLUDE/paths, which the
include check removes, the final parser is what merging those files in
that order gives (`OverrideProperties.LoadIsMergeInReadOrder`). So every
value is the one from the last file read that sets it. This holds for a
section's options and for the DEFAULT values alike
(`OverrideProperties.LoadedValue`, `OverrideProperties.LoadedDefault`).

### Where the documentation and the code differ

The model follows the code in each case below.

- **`get` falls back to DEFAULT once COUNTERPART_MAP exists.** A key that
  appears only among the DEFAULT values is returned as a counterpart
  whenever COUNTERPART_MAP exists (`Resolver.DefaultAnswersThroughMapSection`).
- **`skip_home` has no effect.** `get_counterpart_mapping(skip_home=True)`
  puts the `home_rc_file_path` property object itself into the skip list,
  not a path. It therefore matches no candidate, and the home rc file is
  read anyway (`LoaderProperties.SkipHomeIgnored`). `map_counterpart`
  inherits this.
- **A `paths` under DEFAULT is never removed.** `remove_option("INCLUDE", "paths")`
  leaves a `paths` value that sits among the DEFAULT values in place.
  - Every file handled after it expands that entry again, even a file that does not exist.
  - A relative entry then reaches deeper and deeper paths until the recursion limit, whatever the limit (`IncludeProperties.DefaultPathsReachLimit`).
  - An absolute entry raises RecursionInConfigFile on the second visit.
- **An include target is recorded twice.** The include loop appends it to
  the list of handled files, and `_handle_rc_file` appends it again.
- **Empty include lines are kept.** An empty line among the include
  entries is not dropped. It resolves to the declaring file's directory.
  - The first such entry is a directory, which cannot be read, and it is skipped as optional.
  - A second empty entry resolves to the same directory, which is now on the list of handled files, so it raises RecursionInConfigFile. For example, `paths` holding a bare line break gives two empty entries (`IncludeProperties.LinesOfLineBreak`, `IncludeProperties.RepeatedEntryIsRecursion`).
- **The CLI's config file is required unless it is empty.** The CLI's
  `--config-file` defaults to `.counterc`, so `main` always passes a config
  file, and the local rc file is then required. The library treats it as
  optional when no config file is given. An empty name (`-c ""`) counts as
  none: `config_file or ".counterc"` falls back to `.counterc`, which
  stays optional (`Loader.ConfigGiven`).
- **Under `--else-action silent` a miss sets the return code to 1.**
  `--else-errno` is ignored.

## Model

| member | source | states |
|---|---|---|
| `ConfigStore.EmptyStore` | counterparts.py:109-110 | a fresh parser has no sections and exactly the given DEFAULT values, so it is well-formed (no section named DEFAULT) |
| `ConfigStore.Get` | counterparts.py:73-80 | NoSectionError exactly when the section is absent and not DEFAULT; a section's own value wins; otherwise (the section present without the option, or DEFAULT) the DEFAULT value is returned; NoOptionError exactly when the section exists or is DEFAULT and the option is in neither |
| `ConfigStore.Merge` | counterparts.py:174 | reading a file adds its sections, its values override the stored ones, every other stored value is kept, and nothing else appears; the result is well-formed exactly when both sides are |
| `ConfigStore.RemoveOption` | counterparts.py:158 | the option disappears from that section and every other section and the defaults are unchanged; well-formedness is kept |
| `Resolver.Lookup` | counterparts.py:65-89 | specified by the five lemmas below: an explicit COUNTERPART_MAP entry wins (`ExplicitWins`), DEFAULT answers through COUNTERPART_MAP (`DefaultAnswersThroughMapSection`), KeyError exactly when nothing can answer (`KeyErrorIff`), NoOptionError for a missing prepend_path (`MissingPrependPath`), the prepend_path fallback and ValueError (`PrependFallback`) |
| `Resolver.ExplicitWins` | counterparts.py:73-75 | a COUNTERPART_MAP option is the answer as written, whatever COUNTERPART_DIR holds |
| `Resolver.DefaultAnswersThroughMapSection` | counterparts.py:73-76 | a DEFAULT value answers once COUNTERPART_MAP exists; with neither section a KeyError is raised |
| `Resolver.KeyErrorIff` | counterparts.py:76-87 | KeyError (naming the key) exactly when COUNTERPART_MAP cannot answer and COUNTERPART_DIR is absent |
| `Resolver.MissingPrependPath` | counterparts.py:79-84 | with COUNTERPART_DIR present but no prepend_path anywhere, NoOptionError escapes instead of KeyError, and only then |
| `Resolver.PrependFallback` | counterparts.py:79-81 | without an explicit answer, any non-empty string is answered by prepend_path joined with `relpath` of the string; that relative path is never absolute, so the answer starts with prepend_path, and made absolute from the working directory it has the string's own components; "" raises ValueError; a relative string without ".." maps to prepend_path joined with its normal form |
| `Loader.LeadingSpaces` | counterparts.py:156 | the number of leading whitespace characters: all of them are whitespace and the next one is not |
| `Loader.StripLeading` | counterparts.py:156 | a suffix of the input with no leading whitespace, only whitespace removed |
| `Loader.StripTrailing` | counterparts.py:156 | a prefix of the input with no trailing whitespace, only whitespace removed |
| `Loader.Lines` | counterparts.py:156 | `split("\n")` never gives an empty list of entries |
| `Loader.Strip` | counterparts.py:156 | `str.strip`: both ends trimmed of Python whitespace; specified by `LoaderProperties.StripIsStripped` (no surrounding whitespace, only characters of the input) and `LoaderProperties.StripKeepsStripped` |
| `Loader.Read` | counterparts.py:174 | a missing or unreadable file leaves the parser alone, a malformed one raises ParsingError, a parsed one is merged in (`OverrideProperties.ReadMerges`, `LoaderProperties.RequiredFileErrors`, `LoaderProperties.OptionalFileMayBeMissing`) |
| `Loader.HandleRcFile` | counterparts.py:170-183 | specified by `LoaderProperties.RequiredFileErrors`, `LoaderProperties.OptionalFileMayBeMissing`, `LoaderProperties.HandleAvailable`, `IncludeProperties.HandleRcFileGrows`, `IncludeProperties.HandleRcFileBounded` and `OverrideProperties.HandleRcFileInOrder` |
| `Loader.CheckIncludes` | counterparts.py:143-158 | specified by `LoaderProperties.QuietHasNoInclude`, `IncludeProperties.CheckIncludesGrows`, `IncludeProperties.CheckIncludesBounded` and `OverrideProperties.CheckIncludesInOrder` |
| `Loader.IncludeEach` | counterparts.py:159-168 | specified by `IncludeProperties.IncludeEachSingle`, `IncludeProperties.RepeatedEntryIsRecursion`, `IncludeProperties.IncludeEachGrows`, `IncludeProperties.IncludeEachBounded` and `OverrideProperties.IncludeEachInOrder` |
| `Loader.IncludeEntry` | counterparts.py:160-168 | specified by `IncludeProperties.AlreadyHandledIsRecursion`, `IncludeProperties.EntryStep`, `IncludeProperties.EntryOutOfFuel`, `IncludeProperties.MissingIncludeSkipped`, `IncludeProperties.IncludeEntryGrows` and `OverrideProperties.IncludeEntryInOrder` |
| `Loader.IncludeTarget` | counterparts.py:160-163 | specified by `IncludeProperties.IncludeTargetIsKey` (absolute, normalised, its own filesystem key) and, on concrete paths, `IncludeProperties.TargetStep` |
| `Loader.Keep` | counterparts.py:112-118 | specified by `LoaderProperties.KeepAll` and `LoaderProperties.KeepDrop` |
| `Loader.IsOptional` | counterparts.py:116-118 | specified by `LoaderProperties.CandidateOrder`: only a supplied (non-empty) config file and the added files are required |
| `Loader.Candidates` | counterparts.py:107-115 | specified by `LoaderProperties.CandidateOrder` and `LoaderProperties.CandidatesSkip` |
| `Loader.LoadFiles` | counterparts.py:116-119 | specified by `LoaderProperties.LoadFilesInOrder`, `IncludeProperties.LoadFilesBounded` and `OverrideProperties.LoadFilesInOrderWithIncludes` |
| `Loader.Load` | counterparts.py:97-119 | specified by `LoaderProperties.ExplicitConfigMissing`, `LoaderProperties.DefaultFilesMayBeMissing`, `IncludeProperties.NoRecursionLimit`, `OverrideProperties.LoadIsMergeInReadOrder`, `OverrideProperties.LoadedValue`, `OverrideProperties.LoadedUnset`, `OverrideProperties.LoadedDefault` and `OverrideProperties.LoadedDefaultUnset` |
| `Loader.HomeRcFilePath` | counterparts.py:121-124 | the home rc file is `.counterc` joined onto the home directory; its place among the candidates is stated by `LoaderProperties.CandidateOrder` |
| `Loader.InitialParser` | counterparts.py:109-110 | `ConfigParser(defaults=shared_environ)`: no sections and only `home` among the defaults; specified by `LoaderProperties.InitialParserIsQuiet` (no INCLUDE section, no DEFAULT paths) |
| `Loader.ConfigGiven` | counterparts.py:107 | whether `config_file or ...` takes the supplied file: a supplied non-empty string; its effect on the candidates and on which file is required is stated by `LoaderProperties.CandidateOrder` |
| `Loader.LocalRcFile` | counterparts.py:107 | `config_file or .counterc`; its place as the second candidate is stated by `LoaderProperties.CandidateOrder` |
| `Loader.SkipEntry` | counterparts.py:238-240 | an entry of the skip list (filtered against at lines 112-115) is a path or the `home_rc_file_path` property object, which equals no path; `LoaderProperties.CandidatesSkip` and `LoaderProperties.DropNothing` state that only path entries remove candidates |
| `Loader.Origin` | counterparts.py:117 | where a candidate came from, standing for the `f is not config_file` identity test; `LoaderProperties.CandidateOrder` states that only the local rc file taken from a supplied config file and the added files are required |
| `Loader.HomeSkipList` | counterparts.py:238-240 | `[home_rc_file_path] if skip_home else []`, holding the property object; `LoaderProperties.SkipHomeIgnored` states that skip_home therefore changes neither the parser nor the error |
| `Loader.GetCounterpartMapping` | counterparts.py:225-241 | specified by `LoaderProperties.SkipHomeIgnored` and `OverrideProperties.LoadHomeThenLocal` |
| `Loader.MapCounterpart` | counterparts.py:244-258 | specified by `OverrideProperties.MapCounterpartFollowsReadOrder` and `OverrideProperties.ConfigFileTakesPrecedence` |
| `LoaderProperties.StripKeepsStripped` | counterparts.py:156 | strip leaves a string without surrounding whitespace unchanged |
| `LoaderProperties.StripIsStripped` | counterparts.py:156 | strip's result has no surrounding whitespace and holds only characters of the input |
| `LoaderProperties.LinesAreStripped` | counterparts.py:156 | every include entry is stripped and holds no newline |
| `LoaderProperties.LinesRoundTrip` | counterparts.py:156 | splitting newline-joined stripped entries gives the entries back |
| `LoaderProperties.KeepDrop` | counterparts.py:112-115 | filtering by the skip list while building the candidates equals building them and then dropping the skipped paths |
| `LoaderProperties.KeepAll` | counterparts.py:112-118 | with nothing skipped every listed file becomes a candidate, in order, with its optional flag |
| `LoaderProperties.CandidateOrder` | counterparts.py:107-118 | the candidates are the home rc file, then the config file or .counterc, then the added files; only a supplied config file and the added files are required |
| `LoaderProperties.CandidatesSkip` | counterparts.py:112-115 | the skip list removes exactly the candidates whose path it names and keeps the rest in order |
| `LoaderProperties.DropNothing` | counterparts.py:115 | a skip list that names no path removes nothing |
| `LoaderProperties.SkipHomeIgnored` | counterparts.py:238-240 | loading with skip_home gives the same mapping or error as loading without it |
| `LoaderProperties.QuietHasNoInclude` | counterparts.py:150-155 | a parser with no pending INCLUDE/paths gives the include check nothing to expand |
| `LoaderProperties.RequiredFileErrors` | counterparts.py:173-181 | a missing required file raises FileNotFound, an unreadable one IOError, a malformed one (required or not) ParsingError, each after being recorded |
| `LoaderProperties.OptionalFileMayBeMissing` | counterparts.py:170-183 | an optional missing or unreadable file is recorded and otherwise leaves the state alone |
| `LoaderProperties.InitialParserIsQuiet` | counterparts.py:109-110 | the initial parser holds no INCLUDE section and no DEFAULT `paths` |
| `LoaderProperties.ExplicitConfigMissing` | counterparts.py:107-119 | a supplied config file that does not exist makes construction raise FileNotFound for it, once handling the optional home rc file raised nothing |
| `LoaderProperties.DefaultFilesMayBeMissing` | counterparts.py:107-119 | without a config file, a missing home rc file and a missing .counterc are both recorded and construction succeeds with the initial parser |
| `LoaderProperties.LoadFilesInOrder` | counterparts.py:116-119 | without includes, loading merges every candidate's contents in order over the previous ones and records every candidate path |
| `LoaderProperties.HandleAvailable` | counterparts.py:170-183 | without includes, handling an available file merges its contents and records it |
| `LoaderProperties.MergeNothing` | counterparts.py:174 | reading a file that declares nothing leaves the parser unchanged |
| `LoaderProperties.LastFileWins` | counterparts.py:116-119 | merging files in order, a section's option holds the value of the last file that sets it |
| `LoaderProperties.KeepsValue` | counterparts.py:116-119 | merging files none of which sets a section's option leaves its presence and value as they were |
| `LoaderProperties.LastFileWinsDefault` | counterparts.py:116-119 | merging files in order, a DEFAULT value is the one of the last file that sets it |
| `LoaderProperties.KeepsDefault` | counterparts.py:116-119 | merging files none of which sets a DEFAULT value leaves its presence and value as they were |
| `IncludeProperties.HandleRcFileGrows` | counterparts.py:170-183 | the handled-files list only grows, and a RecursionInConfigFile names a path on it |
| `IncludeProperties.CheckIncludesGrows` | counterparts.py:143-168 | the same for the include check |
| `IncludeProperties.IncludeEachGrows` | counterparts.py:159-168 | the same for the loop over entries |
| `IncludeProperties.IncludeEntryGrows` | counterparts.py:160-168 | the same for one entry |
| `IncludeProperties.IncludeTargetIsKey` | counterparts.py:160-163 | with an absolute working directory an include target is absolute and normalised, and is its own filesystem key |
| `IncludeProperties.PendingShrinks` | counterparts.py:164-167 | the set of declaring files not yet handled shrinks as the handled list grows |
| `IncludeProperties.PendingRemove` | counterparts.py:167-173 | handling a declaring file removes exactly it from the pending set |
| `IncludeProperties.MergeQuiet` | counterparts.py:174 | merging a file that declares no includes keeps the parser free of pending includes |
| `IncludeProperties.MergeKeepsDefaults` | counterparts.py:174 | merging keeps `paths` out of the DEFAULT values when both sides lack it |
| `IncludeProperties.HandleRcFileBounded` | counterparts.py:170-183 | with fuel beyond the pending declaring files, handling a file never reaches the recursion limit |
| `IncludeProperties.CheckIncludesBounded` | counterparts.py:143-158 | the same for the include check |
| `IncludeProperties.IncludeEachBounded` | counterparts.py:159-168 | the same for the loop over entries |
| `IncludeProperties.IncludeEntryBounded` | counterparts.py:160-168 | the same for one entry |
| `IncludeProperties.LoadFilesBounded` | counterparts.py:116-119 | the same for the candidate loop |
| `IncludeProperties.NoRecursionLimit` | counterparts.py:143-183 | without DEFAULT `paths`, a recursion limit above the number of declaring files is never reached |
| `IncludeProperties.AlreadyHandledIsRecursion` | counterparts.py:164-166 | a target already handled raises RecursionInConfigFile before anything is read |
| `IncludeProperties.RepeatedEntryIsRecursion` | counterparts.py:159-168 | an entry listed twice in a row raises RecursionInConfigFile the second time, once the first was handled without an exception |
| `IncludeProperties.LinesOfLineBreak` | counterparts.py:156 | `paths` holding a bare line break gives two empty entries |
| `IncludeProperties.MissingIncludeSkipped` | counterparts.py:164-183 | a new target that is missing or unreadable is recorded twice and skipped without error |
| `IncludeProperties.HandleIncludeOnly` | counterparts.py:150-168 | a file that holds only an INCLUDE naming one path reads, clears `paths`, and hands over to that entry |
| `IncludeProperties.IncludeEachSingle` | counterparts.py:159-168 | the loop over one entry is that entry's handling |
| `IncludeProperties.MutualIncludeIsRecursion` | counterparts.py:143-183 | two files that include each other raise RecursionInConfigFile naming the second file and the first |
| `IncludeProperties.IncludeForward` | counterparts.py:143-183 | a file whose only entry names a new file hands over to that file, recorded twice |
| `IncludeProperties.IncludeBackIsRecursion` | counterparts.py:164-166 | a file whose only entry names a handled file raises RecursionInConfigFile |
| `IncludeProperties.EntryStep` | counterparts.py:164-168 | a new target is recorded and then handled as optional one level deeper |
| `IncludeProperties.MissingFileStillExpands` | counterparts.py:150-168 | a DEFAULT `paths` is expanded again even after a missing optional file |
| `IncludeProperties.ParsedFileExpandsDefault` | counterparts.py:150-168 | removing INCLUDE/paths leaves a DEFAULT `paths` pending, and the file's handling goes on to that entry |
| `IncludeProperties.EntryOutOfFuel` | counterparts.py:164-168 | a new target with no fuel left is recorded and raises the recursion limit |
| `IncludeProperties.MissingEntryStep` | counterparts.py:164-183 | a missing new target, with the entry pending through DEFAULT, is recorded twice and the entry is expanded again from it |
| `IncludeProperties.ChainStep` | counterparts.py:159-183 | one step along a chain of missing paths: the entry is expanded again from the next path, with the same entry pending |
| `IncludeProperties.ChainReachesLimit` | counterparts.py:143-183 | an entry pending through DEFAULT that leads from each missing path of a chain to a longer one reaches the recursion limit, whatever it is |
| `IncludeProperties.DefaultPathsReachLimit` | counterparts.py:150-168 | a concrete configuration that declares INCLUDE/paths in no section, whose DEFAULT `paths` still reaches the recursion limit, whatever it is |
| `IncludeProperties.DeepeningDeclaresNothing` | counterparts.py:150-158 | that configuration declares no INCLUDE/paths but has DEFAULT `paths` |
| `IncludeProperties.DeepeningReachesLimit` | counterparts.py:160-168 | handling /a in that configuration reaches the recursion limit for every fuel |
| `IncludeProperties.DeepeningStart` | counterparts.py:150-168 | handling /a leaves d/e pending through DEFAULT and expands it from /a, to /d/e |
| `IncludeProperties.DeepeningChain` | counterparts.py:160-163 | in that configuration none of /d/e, /d/d/e, ... exists, and d/e leads from each to the next, longer one |
| `IncludeProperties.TargetStep` | counterparts.py:160-163 | the entry d/e leads from /d/.../d/e to the path one "d" deeper |
| `OverrideProperties.WithoutPaths` | counterparts.py:157-158 | the parser as the include check leaves it: DEFAULT values and section names kept, INCLUDE without `paths`, every other section unchanged |
| `OverrideProperties.WithoutPathsAgree` | counterparts.py:157-158 | parsers equal apart from INCLUDE/paths hold the same DEFAULT values and the same value for every other option |
| `OverrideProperties.MergeRespects` | counterparts.py:174 | reading a file over parsers equal apart from INCLUDE/paths gives parsers still equal apart from it |
| `OverrideProperties.MergedSectionsAgree` | counterparts.py:174 | the sections, apart from INCLUDE/paths, after reading a file over two such parsers are equal |
| `OverrideProperties.RemoveRespects` | counterparts.py:157-158 | removing INCLUDE/paths changes nothing else |
| `OverrideProperties.MergeAllRespects` | counterparts.py:174 | the same for reading several files in order |
| `OverrideProperties.MergeAllAppend` | counterparts.py:174 | reading two lists of files one after the other is reading their concatenation |
| `OverrideProperties.MergeTwice` | counterparts.py:174 | reading the same file twice in a row is reading it once |
| `OverrideProperties.MergeDuplicate` | counterparts.py:164-174 | an include target listed twice in a row merges once |
| `OverrideProperties.ReadMerges` | counterparts.py:174 | a read that raises nothing leaves the parser with the file's contribution merged in |
| `OverrideProperties.HandleRcFileInOrder` | counterparts.py:170-183 | when nothing is raised, the file is recorded first and the parser is, apart from INCLUDE/paths, the old one with the newly handled files merged in handling order |
| `OverrideProperties.CheckIncludesInOrder` | counterparts.py:143-158 | the same for the include check |
| `OverrideProperties.IncludeEachInOrder` | counterparts.py:159-168 | the same for the loop over entries |
| `OverrideProperties.IncludeEntryInOrder` | counterparts.py:160-168 | the same for one entry |
| `OverrideProperties.LoadFilesInOrderWithIncludes` | counterparts.py:116-119 | the same for the candidate loop |
| `OverrideProperties.LoadIsMergeInReadOrder` | counterparts.py:97-119 | a load that raises nothing ends, apart from INCLUDE/paths, with every handled file merged in handling order over the initial parser |
| `OverrideProperties.LoadedValue` | counterparts.py:97-119 | after such a load, an option of a section (other than INCLUDE/paths) holds the value of the last handled file that sets it |
| `OverrideProperties.LoadedUnset` | counterparts.py:97-119 | after such a load, an option of a section (other than INCLUDE/paths) that no handled file sets is absent |
| `OverrideProperties.LoadedDefault` | counterparts.py:97-119 | after such a load, a DEFAULT value is the one of the last handled file that sets it |
| `OverrideProperties.LoadedDefaultUnset` | counterparts.py:97-119 | after such a load, a DEFAULT value no handled file sets is `home` (the home directory) or absent |
| `OverrideProperties.MergeAllWellFormed` | counterparts.py:174 | reading well-formed files in order into a well-formed parser never creates a section named DEFAULT |
| `OverrideProperties.LoadedWellFormed` | counterparts.py:97-119 | a load that raises nothing, over files that are all well-formed, ends with a parser that has no section named DEFAULT |
| `OverrideProperties.MapCounterpartFollowsReadOrder` | counterparts.py:244-258 | `map_counterpart` answers with the COUNTERPART_MAP entry of the last handled file that has one for the string, includes and all |
| `OverrideProperties.ConfigFileTakesPrecedence` | counterparts.py:244-258 | without includes, the config file's (or .counterc's) COUNTERPART_MAP entry is the answer, whatever the home rc file says |
| `OverrideProperties.LoadHomeThenLocal` | counterparts.py:225-241 | without includes and with the local rc file parsed, the mapping merges the home rc file and then the local one |
| `LoaderImpl.ConfigFromFile.constructor` | counterparts.py:97-119 | construction leaves the parser, handled list and exception the load function specifies |
| `LoaderImpl.ConfigFromFile.HandleRcFile` | counterparts.py:170-183 | the method ends in the state and exception of `Loader.HandleRcFile` |
| `LoaderImpl.ConfigFromFile.CheckAndHandleIncludes` | counterparts.py:143-158 | the method ends in the state and exception of `Loader.CheckIncludes` |
| `LoaderImpl.ConfigFromFile.HandleEntries` | counterparts.py:159-168 | the loop ends in the state and exception of `Loader.IncludeEach` |
| `LoaderImpl.ConfigFromFile.IncludeEntry` | counterparts.py:160-168 | one iteration ends in the state and exception of `Loader.IncludeEntry` |
| `LoaderImpl.GetCounterpartMapping` | counterparts.py:225-241 | the mapping or the error `Loader.GetCounterpartMapping` specifies |
| `LoaderImpl.MapCounterpart` | counterparts.py:244-258 | the counterpart or the error `Loader.MapCounterpart` specifies; which file answers is stated by `OverrideProperties.MapCounterpartFollowsReadOrder` and `OverrideProperties.ConfigFileTakesPrecedence` |
| `Cli.CounterpartFound` | counterparts.py:186-196 | the return code is unchanged; the text written to stdout starts with the counterpart and is one newline longer unless --no-newline; `Cli.WritesEndWithNewline` states that the rest is exactly that newline |
| `Cli.NoCounterpartFound` | counterparts.py:199-222 | passthrough and error succeed with --else-errno (the input on stdout, or "# " and the message on stderr, each followed by exactly the newline, as `Cli.WritesEndWithNewline` states); exception raises KeyError with the message; silent fails |
| `Cli.Newline` | counterparts.py:219-220 | the `--no-newline` choice (also at line 194): nothing with --no-newline, else one line break; `Cli.WritesEndWithNewline` states that every write ends with exactly this |
| `Cli.WritesEndWithNewline` | counterparts.py:186-222 | what follows the counterpart, the echoed string or the "# " message is exactly a newline, or nothing under --no-newline |
| `Cli.Step` | counterparts.py:310-317 | specified by `CliProperties.StepOutcome`, `CliProperties.StepWrites` and `CliProperties.StepRaised` |
| `Cli.Run` | counterparts.py:309-317 | specified by `CliProperties.RunCompletesIff`, `CliProperties.RunRc`, `CliProperties.RunWrites`, `CliProperties.SilentWritesOnlyHits` and `CliProperties.RunStopsAtFirstFailure` |
| `Cli.Command` | counterparts.py:307-318 | the command loads without skipping home, a load error escapes before any output, otherwise the loop runs; implemented by `Cli.RunCommand` |
| `Cli.RunStaysRaised` | counterparts.py:309-317 | once an exception ends the loop, later inputs change nothing |
| `Cli.LookupAll` | counterparts.py:308-318 | the loop's return code, writes and exception are those of `Cli.Run` |
| `Cli.RunCommand` | counterparts.py:307-318 | the command loads the mapping without skipping home, then runs the loop; a load error escapes before any output |
| `CliProperties.StepOutcome` | counterparts.py:310-317 | one input survives exactly when it hits or misses with a non-exception action; a hit keeps the return code, a miss sets the miss code |
| `CliProperties.RunCompletesIff` | counterparts.py:309-317 | the loop completes exactly when every input survives |
| `CliProperties.RunRc` | counterparts.py:308-318 | after a complete run the code is 0 when every input hit, else the miss code |
| `CliProperties.RunLast` | counterparts.py:309-317 | in a complete run, all inputs but the last completed too, and the last step set the return code |
| `CliProperties.AllHitSnoc` | counterparts.py:309-313 | every input of a longer list hits exactly when the earlier ones and the last one do |
| `CliProperties.RcZeroIffAllHit` | counterparts.py:308-318 | with a non-zero miss code, the code is 0 exactly when every input hit |
| `CliProperties.RunWrites` | counterparts.py:309-317 | unless silent, a complete run writes one reply per input, in input order |
| `CliProperties.RunWritesAreReplies` | counterparts.py:309-317 | unless silent, a complete run's writes are the list of replies, one per input, in input order |
| `CliProperties.RunLastReply` | counterparts.py:309-317 | unless silent, the last input of a complete run adds exactly its reply |
| `CliProperties.RepliesSnoc` | counterparts.py:309 | the replies to one more input are the earlier replies followed by its own |
| `CliProperties.StepWrites` | counterparts.py:310-317 | a surviving input under a non-silent action writes exactly its reply |
| `CliProperties.SilentWritesOnlyHits` | counterparts.py:311-315 | under silent the writes are exactly the counterparts of the inputs that hit, each to stdout with a newline unless --no-newline, in input order (`HitWrites`); nothing when every input missed |
| `CliProperties.SilentStep` | counterparts.py:309-315 | under silent the last input adds only its own hit write to what the others wrote |
| `CliProperties.SilentWritesAreHits` | counterparts.py:309-315 | under silent, a complete run's writes are exactly the hits' writes, in input order |
| `CliProperties.HitWritesShape` | counterparts.py:311-313 | the hits' writes number at most one per input, all go to stdout, and there are none when every input missed |
| `CliProperties.RunStopsAtFirstFailure` | counterparts.py:309-317 | an exception ends the loop at the first input that does not survive, with the code and writes of the inputs before it |
| `CliProperties.StopsAtEarlier` | counterparts.py:309-317 | a loop that stopped before its last input stops at the same place with that input added |
| `CliProperties.StopsAtLast` | counterparts.py:309-317 | a loop that got through every input but the last stops at the last |
| `CliProperties.StepRaised` | counterparts.py:311-317 | a failing input raises the exception action's KeyError or the lookup's own error |
| `Paths.Split` | counterparts.py:156 | `split` never returns an empty list and no piece holds the separator |
| `Paths.JoinWith` | counterparts.py:156 | `sep.join(parts)`; specified by `Paths.JoinSplit`, `Paths.SplitJoin` (join and split are inverse) and `Paths.JoinWithSnoc` |
| `Paths.SplitNoSep` | counterparts.py:156 | a string without the separator splits into itself |
| `Paths.SplitConcat` | counterparts.py:156 | splitting at a separator splits the two halves independently |
| `Paths.JoinSplit` | counterparts.py:156 | joining the pieces of a split gives back the string |
| `Paths.SplitJoin` | counterparts.py:156 | splitting a join of separator-free pieces gives back the pieces |
| `Paths.JoinWithSnoc` | counterparts.py:156 | joining with one more piece appends the separator and that piece |
| `Paths.Join` | counterparts.py:161-162 | `os.path.join`; specified by `PathLemmas.DirnameOfJoin`, `PathLemmas.ResolveJoin` and `PathLemmas.JoinFromSlashFree` |
| `Paths.JoinFrom` | counterparts.py:81 | `os.path.join` of several parts; specified by `PathLemmas.JoinFromSlashFree` |
| `Paths.Dirname` | counterparts.py:162 | `os.path.dirname`; specified by `PathLemmas.DirnameOfJoin` |
| `Paths.Resolve` | counterparts.py:163 | normpath's component loop; specified by `PathLemmas.ResolveCanonical`, `PathLemmas.ResolveIdentity` and `PathLemmas.ResolveJoin` |
| `Paths.NormPath` | counterparts.py:163 | `os.path.normpath`; specified by `PathLemmas.NormPathShape`, `PathLemmas.NormPathAbsolute`, `PathLemmas.NormPathIdempotent` and `PathLemmas.NormPathOfNormalForm` |
| `Paths.IsAbs` | counterparts.py:160 | `os.path.isabs`: the path starts with a slash; `PathLemmas.NormPathAbsolute` and `PathLemmas.AbsPathCanonical` state that normpath keeps it and abspath makes it true |
| `Paths.InitialSlashes` | counterparts.py:163 | normpath's rule for leading slashes: two exactly when the path starts with two but not three, one for any other absolute path, none otherwise; `PathLemmas.NormPathShape` states that the result starts with exactly these |
| `Paths.Slashes` | counterparts.py:163 | the run of leading slashes normpath writes; `PathLemmas.NormPathShape` states its place in the result |
| `Paths.AbsPath` | counterparts.py:161-162 | `os.path.abspath`; specified by `PathLemmas.AbsPathCanonical` |
| `Paths.RelPath` | counterparts.py:81 | `os.path.relpath`; specified by `PathLemmas.RelPathLeadsBack` (for every non-empty path) and `PathLemmas.RelPathOfPlainRelative` |
| `Paths.RFind` | counterparts.py:162 | the last index holding the character, or -1 when there is none |
| `Paths.RStripChar` | counterparts.py:162 | a prefix of the input, not ending in the character, with only that character removed |
| `Paths.NonEmpty` | counterparts.py:81 | relpath's component lists hold no empty component |
| `Paths.CommonPrefixLength` | counterparts.py:81 | the length of the longest common prefix of two component lists |
| `PathLemmas.ResolveCanonical` | counterparts.py:163 | normpath's component loop keeps its output canonical |
| `PathLemmas.ResolveIdentity` | counterparts.py:163 | the component loop leaves canonical components unchanged |
| `PathLemmas.NormPathShape` | counterparts.py:163 | normpath gives its leading slashes and then the canonical components, or "." |
| `PathLemmas.NormPathAbsolute` | counterparts.py:163 | normpath of an absolute path is absolute |
| `PathLemmas.NormPathIdempotent` | counterparts.py:163 | normpath is idempotent |
| `PathLemmas.NormPathOfNormalForm` | counterparts.py:163 | what normpath writes, it leaves unchanged |
| `PathLemmas.AbsPathCanonical` | counterparts.py:161-163 | abspath under an absolute working directory is absolute and normalised |
| `PathLemmas.ResolveJoin` | counterparts.py:161-162 | joining a relative path onto a base resolves the base's components first, then the relative ones |
| `PathLemmas.DirnameOfJoin` | counterparts.py:162 | dirname undoes joining a file name onto a directory |
| `PathLemmas.JoinKeepsBase` | counterparts.py:81 | joining a relative path keeps the base as a prefix, so prepend_path is never discarded |
| `PathLemmas.JoinFromSlashFree` | counterparts.py:81 | os.path.join of slash-free components is their slash-separated join |
| `PathLemmas.RelPathOfPlainRelative` | counterparts.py:81 | relpath of a relative path without ".." is its normal form, whatever the working directory |
| `PathLemmas.CanonicalComponents` | counterparts.py:81 | the component list relpath takes from an abspath is canonical: no empty, "." or ".." component |
| `PathLemmas.ResolveUps` | counterparts.py:81 | under a root, each ".." drops the last component of a list without ".." |
| `PathLemmas.ResolveRelList` | counterparts.py:81 | the ".." run relpath builds climbs from the working directory to the common prefix, and the rest of the path list follows |
| `PathLemmas.RelListLeadsBack` | counterparts.py:81 | when something remains after the common prefix, relpath's components joined by slashes form a relative path whose abspath has the path list's components |
| `PathLemmas.AbsPathOfJoined` | counterparts.py:81 | slash-free components joined by slashes form a relative path whose abspath has the working directory's components resolved with them |
| `PathLemmas.RelPathShape` | counterparts.py:81 | relpath is one ".." per working-directory component past the common prefix, then the rest of the path's components, or "." when nothing remains |
| `PathLemmas.RelPathLeadsBack` | counterparts.py:81 | for any non-empty path (absolute, relative, with ".." or not) and an absolute working directory, relpath is relative, and made absolute from the working directory again it has the path's own components |

## Left out

- INI text parsing: files are given by what they declare (sections and DEFAULT values), or as unreadable or malformed. Interpolation, option-name case folding, DuplicateSectionError / DuplicateOptionError and `allow_no_value` are not modelled.
- Logging (`logger.debug`, `logging.config.fileConfig` in `__main__`) has no observable effect on results and is left out.
- Command-line parsing (`argparse`, `--version`, `register_options`) is left out; `Cli.Options` stands for the parsed options.
- `_generate_input` (reading strings from a file or stdin) is left out; the lookup loop takes the input strings as a parameter.
- Standard output and standard error are a list of writes; `sys.exit` and the process exit are left out; `Cli.RunResult.rc` is the value `main` returns.
- `os.environ["HOME"]` (read once, for the `home` default) and `os.getenv('HOME')` (read at each call to `home_rc_file_path`) are both `Env.home`, and `os.getcwd()` is `Env.cwd`; a HOME that changes between the two reads is not modelled.
- The Python 2 branch (`SafeConfigParser`) is left out; the model follows Python 3.
- The recursion limit of the interpreter is the `fuel` parameter; the stack depth one include level costs is not modelled.
- Paths are not normalised before they are looked up in the filesystem map beyond what `os.path.abspath` does; symbolic links, `~` expansion and file permissions other than "unreadable" are left out.
- `ConfigStore.RemoveOption`: requires the section to exist (or be DEFAULT); the source only calls it right after a successful `get` from that section, so the NoSectionError it would raise otherwise is not modelled.
- `OverrideProperties.ConfigFileTakesPrecedence`: states the config file's precedence only for filesystems where no file includes others; with includes, a file included by the config file is read after it and can override it, which `OverrideProperties.MapCounterpartFollowsReadOrder` states in general.
- `OverrideProperties.LoadIsMergeInReadOrder` and `OverrideProperties.LoadedValue`, `OverrideProperties.LoadedUnset`: say nothing about INCLUDE/paths itself, which the include check removes after each file and a later file may declare again.
- A filesystem is not kept from holding parsed contents that have a section named DEFAULT. ConfigParser never builds such a store, since `[DEFAULT]` values go to the defaults. `ConfigStore.WellFormed` names the invariant; `OverrideProperties.LoadedWellFormed` shows that loads over well-formed files keep it.
