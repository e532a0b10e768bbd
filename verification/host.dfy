/** What the plugin asks of its host application, as data. A handler does
    not write to disk or to the document itself; it returns the effects it
    would have, in order, and the overwrite dialog's answer arrives as a
    plain boolean. */
module Host {
  import opened Dicts
  import opened Css

  /** `saveData(settings)` and the replacement of the plugin's `<style>`
      element text by a new sheet. */
  datatype Effect<S> = Persisted(settings: S) | StylesheetReplaced(sheet: seq<Block>)

  /** What a handler leaves behind: the new settings and its effects. */
  datatype Outcome<S> = Outcome(settings: S, effects: seq<Effect<S>>)

  /** The guard every save-preset handler shares: a non-empty name, and,
      when a preset of that name exists, an accepted overwrite dialog.
      `confirmed` is the answer the dialog would give; it is only consulted
      when the name is taken. */
  predicate SaveGoesAhead<V>(presets: Dict<V>, name: string, confirmed: bool) {
    name != "" && (name in presets.keys ==> confirmed)
  }
}
