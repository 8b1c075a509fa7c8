/**
 * The settings service (src/services/settings-service.ts): the stored settings laid over
 * the defaults, and the update of one setting. A settings record is a map from key to
 * value; reading and saving the store are outcomes passed in.
 */
module SettingsService {
  import opened Wrappers

  /** A setting's value. */
  datatype Value = BoolValue(b: bool) | NumberValue(n: int) | TextValue(s: string)

  type Settings = map<string, Value>

  /** `DEFAULT_SETTINGS`. */
  const DefaultSettings: Settings :=
    map["hideEditorToolbar" := BoolValue(false), "maxTabs" := NumberValue(5),
        "autoCheckUpdates" := BoolValue(true), "devMode" := BoolValue(false)]

  /**
   * `{ ...DEFAULT_SETTINGS, ...stored }`: every key of either, the stored value winning.
   */
  function Overlay(defaults: Settings, stored: Settings): (r: Settings)
    ensures r.Keys == defaults.Keys + stored.Keys
    ensures forall k :: k in stored ==> r[k] == stored[k]
    ensures forall k :: k in defaults && k !in stored ==> r[k] == defaults[k]
  {
    defaults + stored
  }

  /**
   * `loadSettings`: a failed read is passed on as an error; with no stored settings the
   * defaults are returned; otherwise the stored settings laid over the defaults.
   */
  function LoadSettings(read: Result<Option<Settings>>): (r: Result<Settings>)
    ensures read.Err? <==> r.Err?
    ensures read.Err? ==> r.error == read.error
    ensures read == Ok(None) ==> r == Ok(DefaultSettings)
    ensures read.Ok? ==> DefaultSettings.Keys <= r.value.Keys
    ensures read.Ok? && read.value.Some? ==>
              forall k :: k in read.value.value ==> k in r.value && r.value[k] == read.value.value[k]
    ensures read.Ok? ==> forall k :: k in r.value ==> k in DefaultSettings || (read.value.Some? && k in read.value.value)
  {
    match read
    case Err(e) => Err(e)
    case Ok(None) => Ok(DefaultSettings)
    case Ok(Some(stored)) => Ok(Overlay(DefaultSettings, stored))
  }

  /**
   * What `updateSetting` set in the store (`store.set` runs before the flush, so the record
   * is set whether or not the flush succeeds) and what it returned.
   */
  datatype Update = Update(written: Settings, result: Result<Settings>)

  /**
   * `updateSetting`: the current record with `key` set to `value` is set in the store and
   * flushed; when the flush succeeds that record is returned, otherwise the call fails.
   */
  function UpdateSetting(key: string, value: Value, current: Settings, flushOk: bool): (u: Update)
    ensures u.result.Ok? <==> flushOk
    ensures u.result.Ok? ==> u.result.value == u.written
    ensures u.written.Keys == current.Keys + {key} && u.written[key] == value
    ensures forall k :: k in current && k != key ==> u.written[k] == current[k]
  {
    var updated := current[key := value];
    Update(updated, if flushOk then Ok(updated) else Err("Failed to save settings"))
  }

  /** Saving the defaults and loading them back gives the defaults. */
  lemma {:induction false} LoadOfSavedDefaults()
    ensures LoadSettings(Ok(Some(DefaultSettings))) == Ok(DefaultSettings)
  {
    assert DefaultSettings + DefaultSettings == DefaultSettings;
  }

  /**
   * An update, loaded back in the same session, gives the record it set whenever that holds
   * every default key, whether or not its flush succeeded; after a successful flush that is
   * the update's result.
   */
  lemma {:induction false} LoadAfterUpdate(key: string, value: Value, current: Settings, flushOk: bool)
    requires DefaultSettings.Keys <= current.Keys
    ensures var u := UpdateSetting(key, value, current, flushOk);
            LoadSettings(Ok(Some(u.written))) == Ok(u.written)
            && (flushOk ==> LoadSettings(Ok(Some(u.written))) == u.result)
  {
    var written := current[key := value];
    assert Overlay(DefaultSettings, written) == written;
  }
}
