/** The "Customize appearance" editor of the current plugin,
    src/modals/ColorSettingsModal.ts, as a state machine over its working
    style and the plugin settings. The path being edited is a parameter.

    As written, src/main.ts:30 constructs the editor with `file.path`, a
    string, where the editor expects the file itself, and the editor then
    indexes the style table by `.path` of that string, which is `undefined`;
    JavaScript turns that key into the string "undefined". `OpenAsWritten`
    and `SaveChangesAsWritten` model that; `Open` and `SaveChanges` use the
    path, as evidently intended, and are what the rest of the model uses. */
module SettingsModal {
  import opened Wrappers
  import opened Dicts
  import opened Styles
  import opened Host
  import opened PluginSettings

  /** The constructor: a copy of the path's stored style, or `{}` when the
      path has none. */
  function Open(s: Settings, path: string): (style: Style)
    ensures path in s.styles.keys ==> style == s.styles.values[path]
    ensures path !in s.styles.keys ==> style == EmptyStyle
  {
    Get(s.styles, path).GetOr(EmptyStyle)
  }

  /** The preset dropdown: the working style becomes a copy of the chosen
      preset (`{}` if the name has no preset, as spreading `undefined`
      gives). */
  function ApplyPreset(s: Settings, name: string): (style: Style)
    ensures name in s.presets.keys ==> style == s.presets.values[name]
    ensures name !in s.presets.keys ==> style == EmptyStyle
  {
    Get(s.presets, name).GetOr(EmptyStyle)
  }

  // The Reset button is `Styles.Reset`.

  /** "Save as preset": the shared guard, then the preset becomes a copy of
      the working style and the settings are saved. Unlike the settings
      tab, the editor leaves the display order alone. */
  function SavePreset(s: Settings, style: Style, name: string, confirmed: bool): (o: Outcome<Settings>)
    ensures !SaveGoesAhead(s.presets, name, confirmed) ==> o == Unchanged(s)
    ensures SaveGoesAhead(s.presets, name, confirmed) ==>
              && Get(o.settings.presets, name) == Some(style)
              && (forall k :: k != name ==> Get(o.settings.presets, k) == Get(s.presets, k))
              && o.settings.styles == s.styles
              && o.settings.presetOrder == s.presetOrder
              && o.effects == SaveSettings(o.settings)
  {
    if !SaveGoesAhead(s.presets, name, confirmed) then Unchanged(s)
    else
      GetAfterPut(s.presets, name, style);
      Saved(s.(presets := Put(s.presets, name, style)))
  }

  /** `saveChanges` (the Apply button): the working style is stored for the
      path, no other entry changes, and the settings are saved. */
  function SaveChanges(s: Settings, path: string, style: Style): (o: Outcome<Settings>)
    ensures Get(o.settings.styles, path) == Some(style)
    ensures forall q :: q != path ==> Get(o.settings.styles, q) == Get(s.styles, q)
    ensures o.settings.presets == s.presets && o.settings.presetOrder == s.presetOrder
    ensures o.effects == SaveSettings(o.settings)
  {
    GetAfterPut(s.styles, path, style);
    Saved(s.(styles := Put(s.styles, path, style)))
  }

  /** Opening the editor again on a path just saved shows what was saved. */
  lemma SaveThenOpen(s: Settings, path: string, style: Style)
    ensures Open(SaveChanges(s, path, style).settings, path) == style
  {
  }

  /** Opening and applying without edits leaves a stored style as it was;
      on a path with no style it stores `{}`. */
  lemma OpenThenSave(s: Settings, path: string)
    ensures SaveChanges(s, path, Open(s, path)).settings.styles.values
            == s.styles.values[path := Open(s, path)]
    ensures path in s.styles.keys ==> SaveChanges(s, path, Open(s, path)).settings == s
  {
    if path in s.styles.keys {
      assert s.styles.values[path := s.styles.values[path]] == s.styles.values;
    }
  }

  /** What the controls show: the background and text colour pickers, the
      bold and italic toggles, the opacity slider, and the two toggles the
      settings tab does not have, for sub-folders and for files. */
  datatype Controls = Controls(background: string, text: string, bold: bool, italic: bool,
                               opacity: real, subfolders: bool, files: bool)

  /** A style the editor can show as it is: both colours non-empty, every
      flag set and an opacity other than 0. */
  predicate FullySet(style: Style) {
    && TruthyText(style.backgroundColor) && TruthyText(style.textColor)
    && style.isBold.Some? && style.isItalic.Some?
    && style.opacity.Some? && style.opacity.value != 0.0
    && style.applyToSubfolders.Some? && style.applyToFiles.Some?
  }

  /** `updateControls`: each control falls back to its default when the
      field is unset or falsy; in particular a stored opacity of 0 shows
      as 1, so the slider never shows 0, and a fully set style is shown as
      it is. */
  function ControlsOf(style: Style): (c: Controls)
    ensures c.opacity != 0.0
    ensures FullySet(style) ==>
              c == Controls(style.backgroundColor.value, style.textColor.value,
                            style.isBold.value, style.isItalic.value, style.opacity.value,
                            style.applyToSubfolders.value, style.applyToFiles.value)
  {
    Controls(
      if TruthyText(style.backgroundColor) then style.backgroundColor.value else "#ffffff",
      if TruthyText(style.textColor) then style.textColor.value else "#000000",
      TruthyFlag(style.isBold),
      TruthyFlag(style.isItalic),
      if style.opacity.Some? && style.opacity.value != 0.0 then style.opacity.value else 1.0,
      TruthyFlag(style.applyToSubfolders),
      TruthyFlag(style.applyToFiles))
  }

  /** Field by field: a control shows its field when that is truthy, and
      otherwise exactly what it shows for an empty style. */
  lemma ControlsFieldByField(style: Style)
    ensures var c, e := ControlsOf(style), ControlsOf(EmptyStyle);
            && (if TruthyText(style.backgroundColor) then c.background == style.backgroundColor.value
                else c.background == e.background)
            && (if TruthyText(style.textColor) then c.text == style.textColor.value
                else c.text == e.text)
            && (if TruthyFlag(style.isBold) then c.bold else c.bold == e.bold)
            && (if TruthyFlag(style.isItalic) then c.italic else c.italic == e.italic)
            && (if style.opacity.Some? && style.opacity.value != 0.0 then c.opacity == style.opacity.value
                else c.opacity == e.opacity)
            && (if TruthyFlag(style.applyToSubfolders) then c.subfolders else c.subfolders == e.subfolders)
            && (if TruthyFlag(style.applyToFiles) then c.files else c.files == e.files)
  {
  }

  /** The controls cannot tell opacity 0 from opacity 1 or from no opacity,
      although the compilers emit a different sheet for each. */
  lemma ZeroOpacityLooksOpaque(style: Style)
    ensures ControlsOf(style.(opacity := Some(0.0))) == ControlsOf(style.(opacity := Some(1.0)))
    ensures ControlsOf(style.(opacity := Some(0.0))) == ControlsOf(style.(opacity := None))
  {
  }

  /** After Reset the controls show the defaults they fall back to for an
      empty style, except that nothing is left unset. */
  lemma ResetShowsDefaults(style: Style)
    ensures ControlsOf(Reset(style)) == ControlsOf(EmptyStyle)
    ensures Reset(style) != EmptyStyle
  {
  }

  // ---------------------------------------------------------------------
  // The editor as src/main.ts:30 wires it.

  /** The property key `styles[undefined]` uses. */
  const UndefinedKey := "undefined"

  /** The constructor as wired: the path is never consulted. */
  function OpenAsWritten(s: Settings, path: string): (style: Style)
    ensures style == Open(s, UndefinedKey)
  {
    Get(s.styles, UndefinedKey).GetOr(EmptyStyle)
  }

  /** `saveChanges` as wired: the style lands under "undefined". */
  function SaveChangesAsWritten(s: Settings, path: string, style: Style): (o: Outcome<Settings>)
    ensures o == SaveChanges(s, UndefinedKey, style)
  {
    Saved(s.(styles := Put(s.styles, UndefinedKey, style)))
  }

  /** As wired, applying a style to any path other than "undefined" leaves
      that path's entry untouched, and the editor opened on a new path shows
      what was last applied anywhere. */
  lemma AsWrittenMissesPath(s: Settings, path: string, other: string, style: Style)
    requires path != UndefinedKey
    ensures Get(SaveChangesAsWritten(s, path, style).settings.styles, path) == Get(s.styles, path)
    ensures OpenAsWritten(SaveChangesAsWritten(s, path, style).settings, other) == style
  {
  }

  /** A concrete run: colouring "Notes" red from fresh settings stores
      nothing for "Notes". */
  lemma AsWrittenExample()
    ensures var red := EmptyStyle.(backgroundColor := Some("#ff0000"));
            var o := SaveChangesAsWritten(DefaultSettings, "Notes", red);
            && "Notes" !in o.settings.styles.keys
            && o.settings.styles.keys == [UndefinedKey]
            && SaveChanges(DefaultSettings, "Notes", red).settings.styles.keys == ["Notes"]
  {
  }
}
