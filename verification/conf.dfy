/** The configuration of `src/conf.rs`: its defaults, the defaults serde
    fills in for missing fields, and the branches of `read_config` that give
    up quietly.  YAML parsing and JSON-Schema validation are inputs here: a
    document is already a tree of optional fields, and `parse` / `valid`
    stand for the two libraries. */
module Conf {
  import opened Wrappers

  /** `ConfigHideBrowsers`. */
  datatype HideRule = HideRule(path: string, name: string)

  /** `Config`; `version` is an `i16`, `rules` is its `hide` list. */
  datatype Config = Config(version: int, defaultUrl: string, rules: seq<HideRule>)

  /** The fields of a config document as the YAML gives them, each possibly
      absent. */
  datatype RawHide = RawHide(path: Option<string>, name: Option<string>)
  datatype RawConfig = RawConfig(version: Option<int>, defaultUrl: Option<string>, rules: Option<seq<RawHide>>)

  /** `Config::default()`, used when no config file is read. */
  function DefaultConfig(): (c: Config)
    ensures c.version == 1 && c.defaultUrl == "about:home" && c.rules == []
  {
    Config(1, "about:home", [])
  }

  /** The `#[serde(default)]` of a hide entry: a missing field is empty. */
  function HideFromRaw(h: RawHide): (r: HideRule)
    ensures h.path.None? ==> r.path == ""
    ensures h.name.None? ==> r.name == ""
    ensures h.path.Some? ==> r.path == h.path.value
    ensures h.name.Some? ==> r.name == h.name.value
  {
    HideRule(h.path.GetOr(""), h.name.GetOr(""))
  }

  const I16Min: int := -0x8000
  const I16Max: int := 0x7FFF

  /** `serde_json::from_value::<Config>`: `version` is required and must fit
      an `i16`; `default_url` and `hide` take serde's defaults (empty), not
      those of `Config::default()`. */
  function Deserialize(raw: RawConfig): (r: Option<Config>)
    ensures r.Some? <==> raw.version.Some? && I16Min <= raw.version.value <= I16Max
    ensures r.Some? ==> r.value.version == raw.version.value
    ensures r.Some? ==> r.value.defaultUrl == (if raw.defaultUrl.Some? then raw.defaultUrl.value else "")
    ensures r.Some? && raw.rules.None? ==> r.value.rules == []
    ensures r.Some? && raw.rules.Some? ==>
      |r.value.rules| == |raw.rules.value|
      && forall i :: 0 <= i < |r.value.rules| ==> r.value.rules[i] == HideFromRaw(raw.rules.value[i])
  {
    if raw.version.None? || !(I16Min <= raw.version.value <= I16Max) then None
    else
      var rules := raw.rules.GetOr([]);
      Some(Config(raw.version.value, raw.defaultUrl.GetOr(""),
                  seq(|rules|, i requires 0 <= i < |rules| => HideFromRaw(rules[i]))))
  }

  /** A config file that sets only the version gets an empty default URL,
      unlike the built-in default. */
  lemma MissingUrlIsEmpty(v: int)
    requires I16Min <= v <= I16Max
    ensures Deserialize(RawConfig(Some(v), None, None)) == Some(Config(v, "", []))
    ensures Deserialize(RawConfig(Some(v), None, None)).value.defaultUrl != DefaultConfig().defaultUrl
  {
  }

  /** What opening and reading `config.yml` next to the executable gives. */
  datatype ConfigFile = Missing | Unreadable | Contents(text: string)

  /** `read_config`: a missing, unreadable or empty file, or a document that
      does not deserialise, gives no config; YAML that does not parse, or a
      document the schema rejects, panics. */
  function ReadConfig(f: ConfigFile, parse: string -> Option<RawConfig>, valid: RawConfig -> bool)
    : (r: Result<Option<Config>>)
    ensures f.Missing? || f.Unreadable? || f == Contents("") ==> r == Ok(None)
    ensures r.Err? <==> f.Contents? && f.text != "" && (parse(f.text).None? || !valid(parse(f.text).value))
    ensures r.Err? ==> r.error.Panic?
    ensures r.Ok? && r.value.Some? ==>
      f.Contents? && parse(f.text).Some? && r.value == Deserialize(parse(f.text).value)
    // a non-empty file that parses and validates gives its deserialised document
    ensures f.Contents? && f.text != "" && parse(f.text).Some? && valid(parse(f.text).value) ==>
      r == Ok(Deserialize(parse(f.text).value))
  {
    match f
    case Missing => Ok(None)
    case Unreadable => Ok(None)
    case Contents(text) =>
      if text == "" then Ok(None)
      else match parse(text)
        case None => Err(Panic("Unable to parse config YAML"))
        case Some(doc) =>
          if !valid(doc) then Err(Panic("Validation errors:\n"))
          else Ok(Deserialize(doc))
  }

  /** `read_config().unwrap_or_default()`. */
  function EffectiveConfig(read: Option<Config>): (c: Config)
    ensures read.None? ==> c == DefaultConfig()
    ensures read.Some? ==> c == read.value
  {
    read.GetOr(DefaultConfig())
  }

  /** Without a config file the built-in defaults apply; with a file, every
      missing field is empty instead. */
  lemma NoFileMeansDefaults(parse: string -> Option<RawConfig>, valid: RawConfig -> bool)
    ensures EffectiveConfig(ReadConfig(Missing, parse, valid).value).defaultUrl == "about:home"
    ensures EffectiveConfig(ReadConfig(Contents(""), parse, valid).value) == DefaultConfig()
  {
  }
}
