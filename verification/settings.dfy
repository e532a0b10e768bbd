/** The settings of the current plugin and the two plugin methods that move
    them between storage and the stylesheet: `loadSettings` and
    `saveSettings` of src/main.ts, with `DEFAULT_SETTINGS` of
    src/constants.ts. */
module PluginSettings {
  import opened Wrappers
  import opened Dicts
  import opened Styles
  import opened Css
  import opened Host
  import RuleCompiler

  /** The style table keyed by path, the preset table keyed by name, and the
      display order of the presets. */
  datatype Settings = Settings(styles: Dict<Style>, presets: Dict<Style>, presetOrder: seq<string>)

  /** `DEFAULT_SETTINGS`: every table empty. */
  const DefaultSettings := Settings(Empty(), Empty(), [])

  /** What `loadData()` hands back once parsed: each top-level member may be
      missing. */
  datatype StoredData = StoredData(styles: Option<Dict<Style>>, presets: Option<Dict<Style>>,
                                   presetOrder: Option<seq<string>>)

  /** The data `saveData` writes for `s`: every member present. */
  function Stored(s: Settings): (d: StoredData)
    ensures d.styles.Some? && d.presets.Some? && d.presetOrder.Some?
  {
    StoredData(Some(s.styles), Some(s.presets), Some(s.presetOrder))
  }

  /** `Object.assign({}, DEFAULT_SETTINGS, await this.loadData())`: a member
      present in the stored data wins, a missing one keeps its default, and
      no data at all (`null`) gives the defaults. */
  function LoadSettings(stored: Option<StoredData>): (s: Settings)
    ensures stored.None? ==> s == DefaultSettings
    ensures stored.Some? && stored.value.styles.Some? ==> s.styles == stored.value.styles.value
    ensures stored.Some? && stored.value.presets.Some? ==> s.presets == stored.value.presets.value
    ensures stored.Some? && stored.value.presetOrder.Some? ==> s.presetOrder == stored.value.presetOrder.value
    ensures (stored.None? || stored.value.styles.None?) ==> s.styles.keys == []
    ensures (stored.None? || stored.value.presets.None?) ==> s.presets.keys == []
    ensures (stored.None? || stored.value.presetOrder.None?) ==> s.presetOrder == []
  {
    match stored
    case None => DefaultSettings
    case Some(d) =>
      Settings(d.styles.GetOr(DefaultSettings.styles),
               d.presets.GetOr(DefaultSettings.presets),
               d.presetOrder.GetOr(DefaultSettings.presetOrder))
  }

  /** `saveSettings`: persist the settings, then recompile the stylesheet
      from the style table that was persisted. */
  function SaveSettings(s: Settings): (effects: seq<Effect<Settings>>)
    ensures |effects| == 2
    ensures effects[0] == Persisted(s)
    ensures effects[1].StylesheetReplaced?
    ensures effects[1].sheet == RuleCompiler.UpdateStyles(effects[0].settings.styles)
    ensures effects[1].sheet[0] == RuleCompiler.BaseTransition
  {
    [Persisted(s), StylesheetReplaced(RuleCompiler.UpdateStyles(s.styles))]
  }

  /** Loading what a save persisted gives back the saved settings. */
  lemma SaveThenLoad(s: Settings)
    ensures LoadSettings(Some(Stored(SaveSettings(s)[0].settings))) == s
  {
  }

  /** A handler that returned early: nothing changed, nothing saved. */
  function Unchanged(s: Settings): (o: Outcome<Settings>)
    ensures o.settings == s && o.effects == []
  {
    Outcome(s, [])
  }

  /** A handler that saved: the new settings, then `saveSettings` of them. */
  function Saved(s: Settings): (o: Outcome<Settings>)
    ensures o.settings == s && o.effects == SaveSettings(s)
  {
    Outcome(s, SaveSettings(s))
  }
}
