/**
  The configuration store (a ConfigParser object) as a value: named
  sections, each mapping option names to string values, plus the DEFAULT
  pseudo-section whose values every section inherits.  A parsed file is
  represented the same way: the sections and DEFAULT values it declares.
 */
module ConfigStore {

  const DefaultSection: string := "DEFAULT"

  type Options = map<string, string>

  /** The sections and the DEFAULT values; see WellFormed for why `sections` never holds DEFAULT. */
  datatype Store = Store(defaults: Options, sections: map<string, Options>)

  /**
    Values under a `[DEFAULT]` header land in `defaults`, so a store that
    ConfigParser builds never has a section named DEFAULT.  The operations
    below keep this.
   */
  predicate WellFormed(st: Store)
  {
    DefaultSection !in st.sections
  }

  /** What `get(section, option)` returns or raises. */
  datatype GetResult = Found(value: string) | NoSectionError | NoOptionError

  /** A fresh parser created with `defaults=` the given values and no sections. */
  function EmptyStore(defaults: Options): (r: Store)
    ensures r.sections == map[]
    ensures r.defaults == defaults
    ensures WellFormed(r)
  {
    Store(defaults, map[])
  }

  /**
    `get(section, option)`: an absent section (other than DEFAULT) raises
    NoSectionError; otherwise the section's own value is returned, else the
    DEFAULT value, else NoOptionError.
   */
  function Get(st: Store, section: string, option: string): (r: GetResult)
    ensures r.NoSectionError? <==> section !in st.sections && section != DefaultSection
    ensures r.Found? && section != DefaultSection ==> section in st.sections
    ensures section in st.sections && option in st.sections[section] ==> r == Found(st.sections[section][option])
    ensures (section in st.sections || section == DefaultSection) && (section in st.sections ==> option !in st.sections[section]) ==>
      option in st.defaults ==> r == Found(st.defaults[option])
    ensures r.NoOptionError? <==>
      (section in st.sections || section == DefaultSection) && (section in st.sections ==> option !in st.sections[section])
      && option !in st.defaults
  {
    if section in st.sections then
      if option in st.sections[section] then Found(st.sections[section][option])
      else if option in st.defaults then Found(st.defaults[option])
      else NoOptionError
    else if section == DefaultSection then
      if option in st.defaults then Found(st.defaults[option]) else NoOptionError
    else NoSectionError
  }

  /**
    `read` of a parsed file: every section the file declares is created if
    new, and every option it sets overrides the stored one; DEFAULT values
    go to the defaults.
   */
  function Merge(st: Store, file: Store): (r: Store)
    ensures r.sections.Keys == st.sections.Keys + file.sections.Keys
    ensures forall s, o | s in file.sections && o in file.sections[s] ::
      o in r.sections[s] && r.sections[s][o] == file.sections[s][o]
    ensures forall s, o | s in st.sections && o in st.sections[s] && !(s in file.sections && o in file.sections[s]) ::
      o in r.sections[s] && r.sections[s][o] == st.sections[s][o]
    ensures forall s, o | s in r.sections && o in r.sections[s] ::
      (s in file.sections && o in file.sections[s]) || (s in st.sections && o in st.sections[s])
    ensures forall o | o in file.defaults :: o in r.defaults && r.defaults[o] == file.defaults[o]
    ensures forall o | o in st.defaults && o !in file.defaults :: o in r.defaults && r.defaults[o] == st.defaults[o]
    ensures r.defaults.Keys == st.defaults.Keys + file.defaults.Keys
    ensures WellFormed(r) <==> WellFormed(st) && WellFormed(file)
  {
    Store(
      st.defaults + file.defaults,
      map s | s in st.sections.Keys + file.sections.Keys ::
        (if s in st.sections then st.sections[s] else map[]) +
        (if s in file.sections then file.sections[s] else map[]))
  }

  /**
    `remove_option(section, option)`: the option disappears from that
    section (from the defaults when the section is "" or DEFAULT) and
    nothing else changes.  An absent section would raise NoSectionError;
    callers only remove from sections they have just read from.
   */
  function RemoveOption(st: Store, section: string, option: string): (r: Store)
    requires section == "" || section == DefaultSection || section in st.sections
    ensures section == "" || section == DefaultSection ==>
      r.sections == st.sections && r.defaults == st.defaults - {option}
    ensures section != "" && section != DefaultSection ==>
      && r.defaults == st.defaults
      && r.sections.Keys == st.sections.Keys
      && r.sections[section] == st.sections[section] - {option}
      && (forall s | s in st.sections && s != section :: r.sections[s] == st.sections[s])
    ensures WellFormed(r) <==> WellFormed(st)
  {
    if section == "" || section == DefaultSection then
      Store(st.defaults - {option}, st.sections)
    else
      Store(st.defaults, st.sections[section := st.sections[section] - {option}])
  }
}
