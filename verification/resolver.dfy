/**
  The counterpart resolver (CounterpartMapping): a read-through view over
  a loaded store that answers one question, "what is the counterpart of
  this string?".  An option of that name in COUNTERPART_MAP answers it;
  otherwise COUNTERPART_DIR's prepend_path is joined with the string made
  relative to the working directory.
 */
module Resolver {
  import opened Wrappers
  import opened Paths
  import opened ConfigStore
  import PathLemmas

  const MapSection: string := "COUNTERPART_MAP"
  const DirSection: string := "COUNTERPART_DIR"
  const PrependOption: string := "prepend_path"

  /** The exceptions a lookup lets escape. */
  datatype LookupError =
    | KeyError(key: string)   // no explicit counterpart and no COUNTERPART_DIR section
    | NoPrependPath           // NoOptionError: COUNTERPART_DIR exists without prepend_path
    | EmptyPath               // ValueError from relpath: the fallback was asked about ""

  /** The mapping built once per session around a fully loaded store. */
  datatype CounterpartMapping = CounterpartMapping(mapConfig: Store)

  /** `mapping[known]`; `cwd` is the working directory relpath consults. */
  function Lookup(m: CounterpartMapping, cwd: string, known: string): Result<string, LookupError>
  {
    match Get(m.mapConfig, MapSection, known)
    case Found(counterpart) => Ok(counterpart)
    case _ =>
      match Get(m.mapConfig, DirSection, PrependOption)
      case NoSectionError => Err(KeyError(known))
      case NoOptionError => Err(NoPrependPath)
      case Found(prepend) =>
        match RelPath(cwd, known)
        case None => Err(EmptyPath)
        case Some(rel) => Ok(Join(prepend, rel))
  }

  /** Whether COUNTERPART_MAP (or, through it, DEFAULT) names a counterpart for `known`. */
  predicate Explicit(m: CounterpartMapping, known: string)
  {
    Get(m.mapConfig, MapSection, known).Found?
  }

  // ---------------------------------------------------------------------
  // properties of a lookup
  // ---------------------------------------------------------------------

  /**
    An option of COUNTERPART_MAP is the answer as written, whatever
    COUNTERPART_DIR says and whatever DEFAULT holds under the same name.
   */
  lemma ExplicitWins(m: CounterpartMapping, cwd: string, known: string, dir: Options)
    requires MapSection in m.mapConfig.sections && known in m.mapConfig.sections[MapSection]
    ensures Lookup(m, cwd, known) == Ok(m.mapConfig.sections[MapSection][known])
    ensures var other := CounterpartMapping(m.mapConfig.(sections := m.mapConfig.sections[DirSection := dir]));
      Lookup(other, cwd, known) == Lookup(m, cwd, known)
  {
  }

  /** DEFAULT answers for COUNTERPART_MAP, but only once that section exists. */
  lemma DefaultAnswersThroughMapSection(m: CounterpartMapping, cwd: string, known: string)
    requires known in m.mapConfig.defaults
    requires MapSection in m.mapConfig.sections ==> known !in m.mapConfig.sections[MapSection]
    ensures MapSection in m.mapConfig.sections ==> Lookup(m, cwd, known) == Ok(m.mapConfig.defaults[known])
    ensures MapSection !in m.mapConfig.sections && DirSection !in m.mapConfig.sections ==>
      Lookup(m, cwd, known) == Err(KeyError(known))
  {
  }

  /** KeyError is raised exactly when neither COUNTERPART_MAP nor COUNTERPART_DIR can answer. */
  lemma KeyErrorIff(m: CounterpartMapping, cwd: string, known: string)
    ensures Lookup(m, cwd, known).Err? && Lookup(m, cwd, known).error.KeyError? <==>
      !Explicit(m, known) && DirSection !in m.mapConfig.sections
    ensures Lookup(m, cwd, known).Err? && Lookup(m, cwd, known).error.KeyError? ==>
      Lookup(m, cwd, known).error.key == known
  {
  }

  /** COUNTERPART_DIR without prepend_path (here or in DEFAULT) raises NoOptionError, not KeyError. */
  lemma MissingPrependPath(m: CounterpartMapping, cwd: string, known: string)
    requires !Explicit(m, known)
    requires DirSection in m.mapConfig.sections
    ensures Lookup(m, cwd, known) == Err(NoPrependPath) <==>
      PrependOption !in m.mapConfig.sections[DirSection] && PrependOption !in m.mapConfig.defaults
  {
  }

  /**
    With prepend_path configured, a string without an explicit counterpart
    is answered by joining prepend_path and the string made relative to the
    working directory.  That relative path is never absolute, so the answer
    always starts with prepend_path, and made absolute again it names the
    string's own components.  For a relative string with no ".." component
    it is the string normalised.  The empty string raises ValueError.
   */
  lemma PrependFallback(m: CounterpartMapping, cwd: string, known: string, prepend: string)
    requires !Explicit(m, known)
    requires Get(m.mapConfig, DirSection, PrependOption) == Found(prepend)
    requires IsAbs(cwd)
    ensures known == "" ==> Lookup(m, cwd, known) == Err(EmptyPath)
    ensures known != "" ==> Lookup(m, cwd, known).Ok? && RelPath(cwd, known).Some?
    ensures known != "" ==>
      var rel := RelPath(cwd, known).value;
      && Lookup(m, cwd, known) == Ok(Join(prepend, rel))
      && !IsAbs(rel)
      && prepend <= Lookup(m, cwd, known).value
      && NonEmpty(Split(AbsPath(cwd, rel), Sep)) == NonEmpty(Split(AbsPath(cwd, known), Sep))
    ensures known != "" && !IsAbs(known) && ParDir !in Split(known, Sep) ==>
      Lookup(m, cwd, known) == Ok(Join(prepend, NormPath(known)))
  {
    if known != "" {
      PathLemmas.RelPathLeadsBack(cwd, known);
      var rel := RelPath(cwd, known).value;
      assert Lookup(m, cwd, known) == Ok(Join(prepend, rel));
      PathLemmas.JoinKeepsBase(prepend, rel);
      if !IsAbs(known) && ParDir !in Split(known, Sep) {
        PathLemmas.RelPathOfPlainRelative(cwd, known);
      }
    }
  }
}
