/**
  Setting values and the two-tier lookup of `rester/overrideable.py`: per-request
  overrides are consulted before the editor's settings, which are consulted before the
  caller's default.
*/
module Settings {
  import opened Wrappers
  import opened Dict

  /** A JSON value, as `json.loads` and the editor's settings files produce them. */
  datatype Value =
    | Null
    | Bool(b: bool)
    | Int(i: int)
    | Str(s: string)
    | List(items: seq<Value>)
    | Object(fields: seq<(string, Value)>)

  /** Python truthiness of a JSON value. */
  predicate Truthy(v: Value) {
    match v
    case Null => false
    case Bool(b) => b
    case Int(i) => i != 0
    case Str(s) => |s| > 0
    case List(items) => |items| > 0
    case Object(fields) => |fields| > 0
  }

  /** One layer of settings: names with their values, in insertion order. */
  type Layer = seq<(string, Value)>

  /**
    An `OverrideableSettings` object. The editor's settings object is truthy whenever it
    is present, even when it holds nothing; the overrides are a dictionary, truthy only
    when non-empty.
  */
  datatype Overrideable = Overrideable(settings: Option<Layer>, overrides: Option<Layer>)

  /** Whether the override layer takes part in a lookup of `name`. */
  predicate Overridden(o: Overrideable, name: string) {
    o.overrides.Some? && |o.overrides.value| > 0 && name in Keys(o.overrides.value)
  }

  /** `OverrideableSettings.get(name, default)`. */
  function Get(o: Overrideable, name: string, default: Value): (r: Value)
    ensures Overridden(o, name) ==> Dict.Get(o.overrides.value, name) == Some(r)
    ensures !Overridden(o, name) && o.settings.Some? ==> r == Dict.Get(o.settings.value, name).GetOr(default)
    ensures !Overridden(o, name) && o.settings.None? ==> r == default
  {
    if Overridden(o, name) then Dict.Get(o.overrides.value, name).value
    else if o.settings.Some? then Dict.Get(o.settings.value, name).GetOr(default)
    else default
  }

  /** `set_settings`: replaces the settings layer only. */
  function SetSettings(o: Overrideable, settings: Option<Layer>): (r: Overrideable) {
    o.(settings := settings)
  }

  /** `set_overrides`: replaces the override layer only. */
  function SetOverrides(o: Overrideable, overrides: Option<Layer>): (r: Overrideable) {
    o.(overrides := overrides)
  }

  /** An empty override map is ignored: the lookup is the same as with no overrides at all. */
  lemma EmptyOverridesIgnored(settings: Option<Layer>, name: string, default: Value)
    ensures Get(Overrideable(settings, Some([])), name, default) == Get(Overrideable(settings, None), name, default)
  {
  }

  /** A name the overrides hold keeps its value whatever settings layer is installed. */
  lemma SetSettingsKeepsOverrides(o: Overrideable, settings: Option<Layer>, name: string, default: Value)
    requires Overridden(o, name)
    ensures Get(SetSettings(o, settings), name, default) == Get(o, name, default)
  {
  }

  /**
    Installing overrides that do not hold a name leaves its lookup to the settings layer,
    exactly as before when the old overrides did not hold it either.
  */
  lemma SetOverridesFallsThrough(o: Overrideable, overrides: Option<Layer>, name: string, default: Value)
    requires !Overridden(o, name)
    requires overrides.None? || name !in Keys(overrides.value)
    ensures Get(SetOverrides(o, overrides), name, default) == Get(o, name, default)
  {
  }

  /** The lookup reads the layers in order: override, then setting, then default. */
  lemma LookupOrder(settings: Layer, overrides: Layer, name: string, default: Value)
    ensures var o := Overrideable(Some(settings), Some(overrides));
      Get(o, name, default) ==
        if Dict.Get(overrides, name).Some? then Dict.Get(overrides, name).value
        else if Dict.Get(settings, name).Some? then Dict.Get(settings, name).value
        else default
  {
  }
}
