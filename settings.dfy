/**
  The settings the redirect uses (`config` and `getSettings` in content.js): every
  field takes the stored value when it is truthy and the hard-coded default
  otherwise. The asynchronous read of `browser.storage.local` is not modelled; its
  result is the parameter `stored`.
 */
module Settings {
  import opened Wrappers

  /** A stored number, as `parseInt` on the options form yields it: an integer or NaN. */
  datatype JsNumber = Integer(value: int) | NaN

  /** The record the storage read returns for the keys `limit`, `sort`, `mode` and `backend`; None for a key never stored. */
  datatype Stored = Stored(limit: Option<JsNumber>, sort: Option<string>, mode: Option<string>, backend: Option<string>)

  /** The settings passed to the redirect builder. */
  datatype Settings = Settings(limit: int, sort: string, mode: string, backend: string)

  const DEFAULT_LIMIT: int := 100
  const DEFAULT_SORT: string := "desc"
  const DEFAULT_MODE: string := "submissions"
  const DEFAULT_BACKEND: string := "artic_shift"

  const DEFAULTS: Settings := Settings(DEFAULT_LIMIT, DEFAULT_SORT, DEFAULT_MODE, DEFAULT_BACKEND)

  const EMPTY_STORE: Stored := Stored(None, None, None, None)

  /** JavaScript truthiness of a stored number: present, not NaN and not zero. */
  predicate IsTruthyNumber(x: Option<JsNumber>) {
    x.Some? && x.value.Integer? && x.value.value != 0
  }

  /** JavaScript truthiness of a stored string: present and not empty. */
  predicate IsTruthyString(x: Option<string>) {
    x.Some? && x.value != ""
  }

  /** No field is falsy, so none would be replaced by a default. */
  predicate IsComplete(s: Settings) {
    s.limit != 0 && s.sort != "" && s.mode != "" && s.backend != ""
  }

  /** `value || default` for a number. */
  function NumberOr(x: Option<JsNumber>, default: int): int {
    if IsTruthyNumber(x) then x.value.value else default
  }

  /** `value || default` for a string. */
  function StringOr(x: Option<string>, default: string): string {
    if IsTruthyString(x) then x.value else default
  }

  /** The merge in `getSettings`: each field is the stored value if truthy, otherwise its default. */
  function GetSettings(stored: Stored): (s: Settings)
    ensures IsComplete(s)
    ensures s.limit == DEFAULT_LIMIT || stored.limit == Some(Integer(s.limit))
    ensures s.sort == DEFAULT_SORT || stored.sort == Some(s.sort)
    ensures s.mode == DEFAULT_MODE || stored.mode == Some(s.mode)
    ensures s.backend == DEFAULT_BACKEND || stored.backend == Some(s.backend)
  {
    Settings(
      NumberOr(stored.limit, DEFAULT_LIMIT),
      StringOr(stored.sort, DEFAULT_SORT),
      StringOr(stored.mode, DEFAULT_MODE),
      StringOr(stored.backend, DEFAULT_BACKEND))
  }

  /** The record that storing `s` under the four keys leaves behind. */
  function Store(s: Settings): Stored {
    Stored(Some(Integer(s.limit)), Some(s.sort), Some(s.mode), Some(s.backend))
  }

  /** A truthy stored field is used as it is; a missing or falsy one gives way to its default. */
  lemma TruthyOrDefault(stored: Stored)
    ensures IsTruthyNumber(stored.limit) ==> Some(Integer(GetSettings(stored).limit)) == stored.limit
    ensures !IsTruthyNumber(stored.limit) ==> GetSettings(stored).limit == DEFAULT_LIMIT
    ensures !IsTruthyString(stored.sort) ==> GetSettings(stored).sort == DEFAULT_SORT
    ensures !IsTruthyString(stored.mode) ==> GetSettings(stored).mode == DEFAULT_MODE
    ensures !IsTruthyString(stored.backend) ==> GetSettings(stored).backend == DEFAULT_BACKEND
    ensures IsTruthyString(stored.sort) ==> GetSettings(stored).sort == stored.sort.value
    ensures IsTruthyString(stored.mode) ==> GetSettings(stored).mode == stored.mode.value
    ensures IsTruthyString(stored.backend) ==> GetSettings(stored).backend == stored.backend.value
  {
  }

  /** Each field depends on its own key only. */
  lemma FieldsIndependent(a: Stored, b: Stored)
    ensures a.limit == b.limit ==> GetSettings(a).limit == GetSettings(b).limit
    ensures a.sort == b.sort ==> GetSettings(a).sort == GetSettings(b).sort
    ensures a.mode == b.mode ==> GetSettings(a).mode == GetSettings(b).mode
    ensures a.backend == b.backend ==> GetSettings(a).backend == GetSettings(b).backend
  {
  }

  /** Complete settings, once stored, are read back unchanged; merging again changes nothing. */
  lemma StoreRoundTrip(s: Settings)
    ensures IsComplete(s) ==> GetSettings(Store(s)) == s
    ensures GetSettings(Store(GetSettings(Store(s)))) == GetSettings(Store(s))
  {
  }

  /** An empty store yields all the defaults; a store holding only `sort` keeps it and defaults the rest. */
  lemma DefaultExamples()
    ensures GetSettings(EMPTY_STORE) == Settings(100, "desc", "submissions", "artic_shift")
    ensures GetSettings(Stored(None, Some("asc"), None, None)) == Settings(100, "asc", "submissions", "artic_shift")
    ensures GetSettings(Stored(Some(Integer(0)), None, None, None)).limit == 100
    ensures GetSettings(Stored(Some(NaN), None, None, None)).limit == 100
    ensures GetSettings(Stored(Some(Integer(50)), Some(""), None, None)) == Settings(50, "desc", "submissions", "artic_shift")
  {
  }
}
