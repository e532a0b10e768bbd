/** The per-path style record of the current plugin and the constants that
    go with it (src/types/index.ts, src/constants.ts). */
module Styles {
  import opened Wrappers

  /** `StyleSettings`: every field independently optional, so "unset" stays
      distinguishable from a falsy value such as opacity 0 or `false`.
      Colours are the strings the colour pickers deliver; opacity is the
      slider's number, taken as an exact real. */
  datatype Style = Style(
    backgroundColor: Option<string>,
    textColor: Option<string>,
    isBold: Option<bool>,
    isItalic: Option<bool>,
    opacity: Option<real>,
    applyToSubfolders: Option<bool>,
    applyToFiles: Option<bool>)

  /** `{}`, the style of a path that has none yet. */
  const EmptyStyle := Style(None, None, None, None, None, None, None)

  /** `DEFAULT_STYLE`: white background, black text, opacity 1, no flags. */
  const DefaultStyle := Style(Some("#ffffff"), Some("#000000"), Some(false), Some(false),
                              Some(1.0), Some(false), Some(false))

  /** `{ ...DEFAULT_STYLE }`, the Reset button of the editor and
      `resetPresetStyle` of the settings tab: whatever the style held, both
      colours become set, no flag is on and the opacity is 1. */
  function Reset(style: Style): (r: Style)
    ensures TruthyText(r.backgroundColor) && TruthyText(r.textColor)
    ensures !TruthyFlag(r.isBold) && !TruthyFlag(r.isItalic)
    ensures r.opacity == Some(1.0)
    ensures !TruthyFlag(r.applyToSubfolders) && !TruthyFlag(r.applyToFiles)
  {
    DefaultStyle
  }

  /** JavaScript truthiness of an optional string: present and non-empty. */
  predicate TruthyText(o: Option<string>) {
    o.Some? && o.value != ""
  }

  /** JavaScript truthiness of an optional flag: present and `true`. */
  predicate TruthyFlag(o: Option<bool>) {
    o == Some(true)
  }
}
