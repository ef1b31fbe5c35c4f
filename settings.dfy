/**
 * The plugin settings: `loadSettings` in both versions, and the one place the core reads a
 * setting, the file-menu item's choice between a new note and the active note.
 *
 * Settings are a map from property name to value, as a JavaScript object is; `loadData` returns
 * `None` when nothing has been saved. Persisting the data is a host call and is not modelled.
 */
module Settings {
  import opened Wrappers

  datatype SettingValue = Text(text: string) | Flag(flag: bool)

  type PluginSettings = map<string, SettingValue>

  const ApiKey: string := "apiKey"
  const TranscribeToNewNote: string := "transcribeToNewNote"

  /** The defaults of main.ts. */
  const TsDefaults: PluginSettings := map[ApiKey := Text(""), TranscribeToNewNote := Flag(false)]

  /** The defaults of main.js. */
  const JsDefaults: PluginSettings := map[ApiKey := Text(""), TranscribeToNewNote := Flag(true)]

  /** `Object.assign(defaults, await this.loadData())`: every saved property overrides its default,
      saved properties without a default are kept, and `null` copies nothing. */
  function LoadSettings(defaults: PluginSettings, loaded: Option<PluginSettings>): (s: PluginSettings)
    ensures forall key :: key in s <==> key in defaults || (loaded.Some? && key in loaded.value)
    ensures loaded.Some? ==> forall key :: key in loaded.value ==> s[key] == loaded.value[key]
    ensures forall key :: key in defaults && (loaded.None? || key !in loaded.value) ==> s[key] == defaults[key]
  {
    match loaded
    case None => defaults
    case Some(data) => defaults + data
  }

  /** JavaScript truthiness of a setting. */
  predicate Truthy(v: SettingValue)
  {
    match v
    case Text(t) => t != ""
    case Flag(b) => b
  }

  /** The file-menu item runs `transcribeAudioFile` (a new note) when `transcribeToNewNote` is
      truthy, and `addTranscriptionToActiveNoteFromFile` otherwise. */
  predicate MenuTranscribesToNewNote(s: PluginSettings): (r: bool)
    ensures TranscribeToNewNote !in s ==> !r
    ensures TranscribeToNewNote in s && s[TranscribeToNewNote] == Flag(true) ==> r
    ensures TranscribeToNewNote in s && s[TranscribeToNewNote] in {Flag(false), Text("")} ==> !r
  {
    TranscribeToNewNote in s && Truthy(s[TranscribeToNewNote])
  }

  /** With nothing saved, each version runs on its own defaults: the API key is empty, and the file
      menu writes a new note in main.js but appends to the active note in main.ts. */
  lemma NothingSavedGivesDefaults()
    ensures LoadSettings(TsDefaults, None) == TsDefaults && LoadSettings(JsDefaults, None) == JsDefaults
    ensures LoadSettings(TsDefaults, None)[ApiKey] == Text("") && LoadSettings(JsDefaults, None)[ApiKey] == Text("")
    ensures !MenuTranscribesToNewNote(LoadSettings(TsDefaults, None))
    ensures MenuTranscribesToNewNote(LoadSettings(JsDefaults, None))
  {
  }

  /** Once `transcribeToNewNote` has been saved, both versions load the same choice. */
  lemma SavedChoiceWinsInBothVersions(data: PluginSettings)
    requires TranscribeToNewNote in data
    ensures MenuTranscribesToNewNote(LoadSettings(TsDefaults, Some(data)))
        == MenuTranscribesToNewNote(LoadSettings(JsDefaults, Some(data)))
        == Truthy(data[TranscribeToNewNote])
  {
  }

  /** The two versions' loaded settings differ at most in `transcribeToNewNote`, and only when it
      was never saved. */
  lemma VersionsDifferOnlyInTheDefaultChoice(loaded: Option<PluginSettings>, key: string)
    requires key != TranscribeToNewNote || (loaded.Some? && key in loaded.value)
    ensures key in LoadSettings(TsDefaults, loaded) <==> key in LoadSettings(JsDefaults, loaded)
    ensures key in LoadSettings(TsDefaults, loaded) ==>
      LoadSettings(TsDefaults, loaded)[key] == LoadSettings(JsDefaults, loaded)[key]
  {
  }

  /** `saveSettings` stores what was loaded; loading that again changes nothing. */
  lemma LoadAfterSaveIsIdentity(defaults: PluginSettings, loaded: Option<PluginSettings>)
    ensures var s := LoadSettings(defaults, loaded); LoadSettings(defaults, Some(s)) == s
  {
    var s := LoadSettings(defaults, loaded);
    assert LoadSettings(defaults, Some(s)) == s by {
      assert forall key :: key in LoadSettings(defaults, Some(s)) <==> key in s;
    }
  }
}
