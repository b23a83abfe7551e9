/** The settings record, its hardcoded defaults, and how a persisted
    key-value record is merged over them on load (`Object.assign`). */
module PluginSettings {
  import opened Wrappers

  datatype TimestampSettings = TimestampSettings(timestampFormat: string, timestampStyle: string)

  /** A persisted key-value record, as the host's data store hands it back. */
  type Record = map<string, string>

  const FormatKey := "timestampFormat"
  const StyleKey := "timestampStyle"

  const DefaultSettings := TimestampSettings("YYYY-MM-DD HH:mm:ss", "{timestamp}")

  /** The record written when the settings are saved. */
  function ToRecord(s: TimestampSettings): (r: Record)
    ensures r.Keys == {FormatKey, StyleKey}
  {
    map[FormatKey := s.timestampFormat, StyleKey := s.timestampStyle]
  }

  /** `Object.assign(target, source)`: every key of the source overrides the
      target's; a missing (null) source contributes nothing. */
  function Assign(target: Record, source: Option<Record>): (r: Record)
    ensures source.None? ==> r == target
    ensures source.Some? ==> r.Keys == target.Keys + source.value.Keys
    ensures source.Some? ==> forall k :: k in source.value ==> r[k] == source.value[k]
    ensures source.Some? ==> forall k :: k in target && k !in source.value ==> r[k] == target[k]
  {
    match source
    case None => target
    case Some(m) => target + m
  }

  function FromRecord(r: Record): TimestampSettings
    requires FormatKey in r && StyleKey in r
  {
    TimestampSettings(r[FormatKey], r[StyleKey])
  }

  /** `loadSettings`: the defaults with the persisted record assigned over
      them. Key by key, a persisted value wins and a missing key falls back
      to its default; keys other than the two are ignored. */
  function LoadSettings(persisted: Option<Record>): (r: TimestampSettings)
    ensures r.timestampFormat ==
      if persisted.Some? && FormatKey in persisted.value then persisted.value[FormatKey]
      else DefaultSettings.timestampFormat
    ensures r.timestampStyle ==
      if persisted.Some? && StyleKey in persisted.value then persisted.value[StyleKey]
      else DefaultSettings.timestampStyle
  {
    assert FormatKey != StyleKey;
    FromRecord(Assign(ToRecord(DefaultSettings), persisted))
  }

  /** No persisted data, or an empty record, yields exactly the defaults. */
  lemma LoadWithoutData()
    ensures LoadSettings(None) == DefaultSettings
    ensures LoadSettings(Some(map[])) == DefaultSettings
  {
    assert ToRecord(DefaultSettings) + map[] == ToRecord(DefaultSettings);
  }

  /** A record holding only a style keeps the default format. */
  lemma LoadStyleOnly(style: string)
    ensures LoadSettings(Some(map[StyleKey := style])) == DefaultSettings.(timestampStyle := style)
  {
  }

  /** Saved settings load back unchanged. */
  lemma SaveLoadRoundTrip(s: TimestampSettings)
    ensures LoadSettings(Some(ToRecord(s))) == s
  {
  }
}
