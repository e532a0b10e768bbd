# Colour folders and files, modelled in Dafny

The Obsidian plugin "Color Folders and Files" lets a user give any folder or
file of the file explorer a background colour, a text colour, bold or
italic text and an opacity. It can optionally pass the same look down to
the sub-folders and files below a folder. Named presets can be saved, reordered,
deleted, applied, exported and imported. The plugin keeps a style table keyed
by path and compiles it into a stylesheet after every save.

This project models the logic of that plugin:

- **The stylesheet compilers.** `updateStyles` of the current entry point,
  the per-field `StyleManager.updateStyles`, and the `updateStyles` of the
  older single-file plugin (the root `main.ts`). Each maps a style table to a
  sequence of CSS blocks. A block is a datatype: selectors that name a row
  kind, an optional theme, a test on the row's `data-path`, and `:hover`, plus
  declarations. `BlockMatches` gives selectors their meaning on explorer rows.
- **The settings aggregate.** Loading over defaults, saving (persist, then
  recompile), the preset-order reconciliation `syncPresetOrder`, and the
  settings-tab handlers: save preset, delete preset, drag-over and drop
  reordering, import, and the hex-input guard.
- **The "Customize appearance" editor.** A state machine over its working
  style and the settings: open, apply preset, Reset, save preset, and
  `saveChanges`, together with what its controls show.
- **The colour utilities.** Hex parsing and encoding, the hover colour,
  the contrast text colour and `adjustOpacity`.

## Conventions

- **Objects as dictionaries.** JavaScript plain objects used as dictionaries
  are `Dicts.Dict`: a key/value map plus the iteration order that
  `Object.keys`/`Object.entries` expose, because the compilers and the
  preset order depend on it.
- **Effects as data.** A handler returns an `Host.Outcome`: the new settings
  and, in order, the effects it would have. These are persisting the
  settings and replacing the stylesheet. A settings-tab handler that ends
  with `this.display()` also carries the reconcile-and-save that `display`
  starts with (`SettingsTab.Redisplay`).
- **Dialogs as inputs.** The answer of the overwrite dialog is a boolean
  argument.
- **Luminance as a parameter.** The light/dark test of a colour is a
  function parameter `isLight`.
- **Undefined styles.** An unset style field is `None`. JavaScript truthiness
  is written out as `TruthyText`/`TruthyFlag`, which keeps opacity 0 apart
  from "unset".
- **Path length.** A path's length is JavaScript's `.length`, counted in
  UTF-16 code units (`PathOrder.JsLength`): a character outside the Basic
  Multilingual Plane, such as an emoji, counts twice.
- **Emission order.** The two compilers order their blocks differently,
  and the model keeps each one's order:
  - `updateStyles` in src/main.ts sorts the paths longest first and marks
    no declaration `!important`. An ancestor's sub-folder block therefore
    follows a descendant's own block and wins at equal specificity
    (`RuleCompiler.AncestorCascadeFollowsOwnBlock`);
  - `StyleManager.updateStyles` marks every declaration `!important` but
    does not sort: it keeps the table's order
    (`StyleManager.UpdateStylesTableOrder`).

## Model

| member | source | states |
|---|---|---|
| Dicts.Get | src/modals/ColorSettingsModal.ts:23 | `obj[k]` is defined exactly for the keys in the iteration order, and then gives that key's value |
| Dicts.Put | src/modals/ColorSettingsModal.ts:209 | assignment stores the value; an existing key keeps its place in the iteration order, a new key goes last |
| Dicts.GetAfterPut | src/modals/ColorSettingsModal.ts:209 | after `obj[k] = v`, `k` reads `v` and every other key reads as before |
| Dicts.Remove | src/settings/ColorSettingsTab.ts:245 | `delete` removes the value and drops the key from the iteration order |
| Seqs.WithoutAt | src/settings/ColorSettingsTab.ts:246 | filtering out a value that occurs once, at index i, leaves the sequence with that one element cut out and the rest in order |
| Dicts.RemoveKeepsOrder | src/settings/ColorSettingsTab.ts:245 | `delete` of an absent key changes nothing; otherwise the other keys keep their order and close the gap |
| Dicts.GetAfterRemove | src/settings/ColorSettingsTab.ts:245 | after `delete obj[k]`, `k` is undefined and every other key reads as before |
| Dicts.RemoveAfterPutNew | src/settings/ColorSettingsTab.ts:165-168 | deleting a key just added restores the dictionary, order included |
| Css.BlocksAbout | src/main.ts:135-148 | the blocks about a path are exactly the sheet's blocks whose selectors test that path, in sheet order |
| Css.BlocksAboutConcat | src/main.ts:100-130 | the blocks about a path in a concatenation are those of each part, in order |
| PathOrder.JsLength | src/main.ts:98 | `.length` counts UTF-16 code units: at least one and at most two per character |
| PathOrder.JsLengthConcat | src/main.ts:98 | the `.length` of a concatenation is the sum of the parts' |
| PathOrder.NestedLonger | src/main.ts:98 | a path below `a` (starting with `a + "/"`) is strictly longer than `a` |
| PathOrder.SurrogatePairCountsTwice | src/main.ts:97-98 | "📁a" has `.length` 3 though it has two characters, so it ties with "abc" and the stable sort keeps the two in table order |
| PathOrder.Insert | src/main.ts:97-98 | insertion keeps every element and adds exactly the new one |
| PathOrder.InsertPermutes | src/main.ts:97-98 | insertion is a permutation of the element followed by the list |
| PathOrder.InsertLongestFirst | src/main.ts:97-98 | inserting into a list sorted longest-first by `.length` keeps it sorted |
| PathOrder.InsertKeepsClasses | src/main.ts:97-98 | insertion keeps the relative order of paths of equal `.length` (a stable sort) |
| PathOrder.SortByLengthDescCorrect | src/main.ts:97-98 | the comparator `b.length - a.length` sorts longest first and stably: a permutation, non-increasing in UTF-16 length, with the order of paths of equal `.length` kept |
| RuleCompiler.BlockReach | src/main.ts:135-148 | the exact block reaches both row kinds of exactly its path; each cascade block reaches one row kind, and only strict descendants under `path + "/"` |
| RuleCompiler.Declarations | src/main.ts:106-111 | a declaration is listed iff the style asks for it: colours only when non-empty, bold/italic only when `true`, opacity whenever it is a number, 0 included; the list is empty iff no field has a payload |
| RuleCompiler.PathBlocks | src/main.ts:113-125 | an entry gives its exact block iff its declarations are non-empty, and each cascade block iff also its flag is set; all carry the same declarations, the exact block comes first and none repeats |
| RuleCompiler.SortedPathsFacts | src/main.ts:97-98 | the visiting order is a duplicate-free permutation of the table's paths, longest first |
| RuleCompiler.UpdateStyles | src/main.ts:90-95 | the sheet always starts with the base transition block, whatever the table holds |
| RuleCompiler.EmitAllBlocksAbout | src/main.ts:100-130 | with distinct paths, the blocks about an entry's path are exactly that entry's blocks |
| RuleCompiler.EmitAllLongestFirst | src/main.ts:97-130 | entries sorted longest-first give blocks sorted the same way |
| RuleCompiler.UpdateStylesPerPath | src/main.ts:100-130 | the blocks about a path come from that path's own style alone, and a path outside the table gets none |
| RuleCompiler.UpdateStylesLongestFirst | src/main.ts:97-98 | after the base block, blocks come in non-increasing order of path length |
| RuleCompiler.UpdateStylesEntry | src/main.ts:106-125 | an entry's exact block is in the sheet iff it has a payload, a cascade block iff it has a payload and its flag is `true`; cascade flags alone emit nothing |
| RuleCompiler.ZeroOpacityEmitted | src/main.ts:111 | an opacity of 0 is emitted, since the test is `typeof === 'number'` |
| RuleCompiler.AncestorCascadeFollowsOwnBlock | src/main.ts:97-125 | for a styled folder below a styled ancestor that cascades to sub-folders, both blocks match the folder's row and every copy of the folder's own block precedes the ancestor's cascade block |
| RuleCompiler.NestedOrder | src/main.ts:97-98 | in a sheet sorted longest-first, a nested path's exact block precedes its ancestor's sub-folder block |
| RuleCompiler.EmitPath | src/main.ts:106-125 | one loop visit pushes exactly the entry's blocks |
| RuleCompiler.EmitEntries | src/main.ts:100-130 | the loop emits every entry's blocks in visiting order, and marks every visited path processed, whether or not it emitted |
| RuleCompiler.UpdateStylesLoop | src/main.ts:85-133 | the statement-level compiler yields the sheet `UpdateStyles` describes, and every table path ends up processed |
| PresetOrder.AppendMissing | src/settings/ColorSettingsTab.ts:26-30 | pushing the missing names keeps the old order as a prefix and adds exactly the missing names |
| PresetOrder.SyncPresetOrder | src/settings/ColorSettingsTab.ts:16-38 | after reconciling, a name is in the order iff it is a preset: coverage and no orphans |
| PresetOrder.SyncShape | src/settings/ColorSettingsTab.ts:26-35 | the result is the surviving entries in their old order, then the missing presets in key order |
| PresetOrder.SyncDistinct | src/settings/ColorSettingsTab.ts:26-35 | reconciling introduces no duplicates |
| PresetOrder.SyncIdempotent | src/settings/ColorSettingsTab.ts:16-38 | a second reconcile with no change in between leaves the order as it is |
| PresetOrder.SyncKeepsSynced | src/settings/ColorSettingsTab.ts:16-38 | an order already listing exactly the presets is left unchanged |
| PresetOrder.SyncPermutation | src/settings/ColorSettingsTab.ts:16-38 | from a duplicate-free order, the result is a permutation of the preset names |
| PluginSettings.LoadSettings | src/main.ts:76-78 | each member present in the stored data wins; a missing member, or no data at all, gives the empty default |
| PluginSettings.SaveSettings | src/main.ts:80-83 | a save persists first, then replaces the sheet with the one compiled from the persisted table, which starts with the base block |
| PluginSettings.SaveThenLoad | src/main.ts:76-83 | loading what a save persisted gives the saved settings back |
| SettingsTab.Sync | src/settings/ColorSettingsTab.ts:16-38 | reconciling changes only the order, which then lists exactly the presets, and saves |
| SettingsTab.Redisplay | src/settings/ColorSettingsTab.ts:44-49 | the redisplay after a handler keeps the tables, makes the order list exactly the presets, appends one more save to the handler's effects, and leaves agreeing settings as they were |
| SettingsTab.SyncEstablishes | src/settings/ColorSettingsTab.ts:9-14 | from a duplicate-free order, reconciling makes order and table agree one-to-one |
| SettingsTab.SyncFixpoint | src/settings/ColorSettingsTab.ts:44-49 | on agreeing settings, the reconcile that every redisplay runs changes nothing |
| SettingsTab.OnHexInput | src/settings/ColorSettingsTab.ts:75-81 | a typed hex value that passes the test replaces that colour of the draft; anything else leaves the draft alone |
| SettingsTab.HexInputParses | src/settings/ColorSettingsTab.ts:77 | the input test accepts exactly the `#`-prefixed strings that `hexToRGB` parses |
| SettingsTab.SavePreset | src/settings/ColorSettingsTab.ts:158-169 | an empty name, or a taken name whose overwrite is declined, changes nothing and saves nothing; otherwise the preset is set, its name is appended to the order only if absent, nothing else changes, and the settings are saved |
| SettingsTab.SavePresetClick | src/settings/ColorSettingsTab.ts:158-171 | the whole Save click does nothing when the guard stops it; from agreeing settings it stores what `SavePreset` stores and saves twice, the second time from the redisplay |
| SettingsTab.DeletePreset | src/settings/ColorSettingsTab.ts:244-247 | the name leaves both the table and the order; every other preset and order entry stays in its order (an order without the name is unchanged; a single occurrence is cut out), and the settings are saved |
| SettingsTab.DeletePresetClick | src/settings/ColorSettingsTab.ts:244-248 | the whole trash click ends with order and table in agreement; from agreeing settings it stores the deleted-preset settings and saves them twice, the second time from the redisplay |
| SettingsTab.SavePresetKeepsSynced | src/settings/ColorSettingsTab.ts:158-174 | saving a preset keeps order and table in agreement |
| SettingsTab.DeletePresetKeepsSynced | src/settings/ColorSettingsTab.ts:244-250 | deleting a preset keeps order and table in agreement |
| SettingsTab.DeleteUndoesSave | src/settings/ColorSettingsTab.ts:158-250 | deleting a preset just saved under a new name restores the settings exactly |
| SettingsTab.Rows | src/settings/ColorSettingsTab.ts:182-184 | a row is shown for each order entry that has a preset, and only for those; every row carries a name, and the names in row order are the order with presetless entries skipped |
| SettingsTab.TakeOut | src/settings/ColorSettingsTab.ts:202-219 | removing the dragged row leaves the others in order, as a multiset minus that row |
| SettingsTab.PutBack | src/settings/ColorSettingsTab.ts:202-219 | `insertBefore` puts the row at the chosen place and keeps the others in order |
| SettingsTab.DragOver | src/settings/ColorSettingsTab.ts:202-219 | dragover moves the dragged row before the chosen sibling, or to the end; the rows stay a permutation, and with no dragged row nothing moves |
| SettingsTab.Names | src/settings/ColorSettingsTab.ts:224-225 | the names read off the rows are exactly those the rows carry, rows without one skipped; on rows that all carry one, the i-th name is the i-th row's |
| SettingsTab.NamesConcat | src/settings/ColorSettingsTab.ts:224-225 | reading names keeps row order: the names of two stretches of rows are those of the first followed by those of the second |
| SettingsTab.Drop | src/settings/ColorSettingsTab.ts:221-230 | with drag data, the order becomes the rows' names in row order, duplicates kept, and is saved, nothing else changing; without it nothing happens |
| SettingsTab.NamesPermutation | src/settings/ColorSettingsTab.ts:221-230 | rows that are rearranged carry names that are rearranged the same way |
| SettingsTab.NamesAfterDrag | src/settings/ColorSettingsTab.ts:202-227 | after a drag, the names of tagged rows are the names with the dragged one taken out and put back where it was dropped |
| SettingsTab.DragThenDropOrder | src/settings/ColorSettingsTab.ts:182-227 | a drag and drop sets the order to the shown names with the dragged one moved to its drop position; without a drag the order becomes the shown names |
| SettingsTab.DragThenDrop | src/settings/ColorSettingsTab.ts:202-230 | a drag and drop leaves the order a permutation of the listed presets, and agreeing settings still agree |
| SettingsTab.Import | src/settings/ColorSettingsTab.ts:262-296 | an object with `styles` and `presets` replaces the settings, the order is reconciled against the new presets, and the settings are saved three times (reconcile, handler, redisplay); any other value changes nothing |
| SettingsTab.ImportReplaces | src/settings/ColorSettingsTab.ts:275-290 | nothing of the previous settings survives an accepted import |
| SettingsTab.ImportSynced | src/settings/ColorSettingsTab.ts:275-290 | an imported order without duplicates comes out agreeing with the presets |
| SettingsModal.Open | src/modals/ColorSettingsModal.ts:23 | the working style starts as the path's stored style, or empty when the path has none |
| SettingsModal.ApplyPreset | src/modals/ColorSettingsModal.ts:130 | applying a preset makes the working style that preset |
| Styles.Reset | src/modals/ColorSettingsModal.ts:172 | Reset (and the settings tab's `resetPresetStyle`, src/settings/ColorSettingsTab.ts:40-42) makes the style the default whatever it held: both colours set, no flags, opacity 1 |
| SettingsModal.SavePreset | src/modals/ColorSettingsModal.ts:149-162 | empty name or declined overwrite: nothing changes, nothing saved; otherwise only that preset changes, the order is not touched, and the settings are saved |
| SettingsModal.SaveChanges | src/modals/ColorSettingsModal.ts:208-211 | only the path's style is written, every other path reads as before, presets and order are untouched, then the settings are saved |
| SettingsModal.SaveThenOpen | src/modals/ColorSettingsModal.ts:17-24 | reopening the editor on a path just saved shows what was saved |
| SettingsModal.OpenThenSave | src/modals/ColorSettingsModal.ts:17-24 | applying an unedited style on a styled path leaves the settings as they were |
| SettingsModal.ControlsOf | src/modals/ColorSettingsModal.ts:190-198 | the opacity slider never shows 0, and a style with both colours, every flag and a non-zero opacity set is shown exactly as it is |
| SettingsModal.ControlsFieldByField | src/modals/ColorSettingsModal.ts:190-198 | each control shows its own field when that is truthy, and otherwise exactly what it shows for an empty style |
| SettingsModal.ZeroOpacityLooksOpaque | src/modals/ColorSettingsModal.ts:194 | the controls cannot tell opacity 0 from opacity 1 or from no opacity |
| SettingsModal.ResetShowsDefaults | src/modals/ColorSettingsModal.ts:168-175 | after Reset the controls show what they show for an empty style, though the style itself is not empty |
| SettingsModal.OpenAsWritten | src/main.ts:30 | as wired, the editor reads the style stored under "undefined", whatever path it was opened for |
| SettingsModal.SaveChangesAsWritten | src/modals/ColorSettingsModal.ts:209 | as wired, `saveChanges` stores the style under "undefined" |
| SettingsModal.AsWrittenMissesPath | src/main.ts:30 | as wired, applying a style leaves the path's own entry untouched, and the editor opened on any path shows the style last applied anywhere |
| SettingsModal.AsWrittenExample | src/main.ts:30 | colouring "Notes" red from fresh settings stores nothing for "Notes" and one entry for "undefined" |
| StyleManager.HoverOpacity | src/core/StyleManager.ts:108 | the hover opacity is the base plus 0.15, capped at 1 |
| StyleManager.HoverOpacityBounds | src/core/StyleManager.ts:101-112 | hover opacity never exceeds 1, is never below a base of at most 1, and reaches 1 exactly from 0.85 up |
| StyleManager.RowSelectors | src/core/StyleManager.ts:83-112 | one selector per row kind, all with the same path test and hover state |
| StyleManager.UpdateStyles | src/core/StyleManager.ts:15-21 | the output always starts with the transition block |
| StyleManager.EntryTargets | src/core/StyleManager.ts:26-251 | every block of an entry tests its own path, exactly or as a prefix, on a folder, file or preview row |
| StyleManager.EntrySelectors | src/core/StyleManager.ts:115-251 | a prefix selector appears only on the row kind whose cascade flag is `true`, and preview selectors only for the exact path with a background |
| StyleManager.EntryReach | src/core/StyleManager.ts:115-226 | an entry reaches its own rows, folder rows below it only with `applyToSubfolders`, file rows below it only with `applyToFiles`, and its preview row only with a background |
| StyleManager.EntryAllowed | src/core/StyleManager.ts:26-251 | every declaration comes from a set field: no tint without a background, no weight or slant unless the flag is `true`, an opacity only when one is stored |
| StyleManager.UpdateStylesPerPath | src/core/StyleManager.ts:23-252 | the blocks about a path are exactly its own entry's blocks, and a path outside the table has none |
| StyleManager.UpdateStylesHas | src/core/StyleManager.ts:23-252 | a block about a path is in the sheet iff the path is in the table and its entry emits that block |
| StyleManager.UpdateStylesTableOrder | src/core/StyleManager.ts:23 | entries are emitted in table order with no sorting: every block of an earlier entry precedes every block of a later one |
| StyleManager.EntryEmpty | src/core/StyleManager.ts:26-251 | an entry emits nothing iff no field would produce a declaration; the cascade flags alone produce nothing |
| StyleManager.EntryBackground | src/core/StyleManager.ts:27-71 | a background gives each row kind a plain block, a 20% white hover in the light theme and a 20% black hover in the dark one; without one none of them |
| StyleManager.UpdateStylesBackground | src/core/StyleManager.ts:27-71 | the themed hover tints are in the sheet iff the path's background is set |
| StyleManager.TextBlockReach | src/core/StyleManager.ts:45-52 | the text-colour block reaches the row at rest and hovered, in either theme |
| StyleManager.EntryText | src/core/StyleManager.ts:45-80 | a text-colour block exists for both row kinds iff the text colour is non-empty |
| StyleManager.EntryBoldItalic | src/core/StyleManager.ts:83-99 | weight and slant appear iff their flag is `true`; `false` and unset both give nothing |
| StyleManager.EntryOpacity | src/core/StyleManager.ts:101-112 | an opacity, 0 included, is emitted at rest and raised to `min(1, o + 0.15)` on hover; without one no opacity appears |
| StyleManager.EntryCascade | src/core/StyleManager.ts:115-226 | a sub-folder cascade exists iff `applyToSubfolders` is `true` and the style has a payload; likewise files with `applyToFiles` |
| StyleManager.PreviewMatchesDeclarations | src/core/StyleManager.ts:231-237 | the plain preview block carries the same declarations, in the same order, as the `src/main.ts` compiler gives the path |
| StyleManager.EntryPreview | src/core/StyleManager.ts:229-251 | preview blocks exist iff a background is set |
| LegacyPlugin.DefaultSettings | main.ts:31-44 | the defaults hold no styles and one preset, `Default`, with opacity 1 and both cascade flags off |
| LegacyPlugin.LegacyDeclarations | main.ts:98-104 | a declaration is listed iff the legacy style asks for it; the font strings are copied verbatim when non-empty |
| LegacyPlugin.FontStringsVerbatim | main.ts:102-103 | any non-empty `fontWeight`/`fontStyle` string reaches the sheet exactly as typed |
| LegacyPlugin.LegacyUpdateStylesPaths | main.ts:88-122 | every block is about a path of the table; there is no base block |
| LegacyPlugin.LegacyUpdateStylesPerPath | main.ts:96-119 | the blocks about a path come from its own entry alone |
| LegacyPlugin.LegacyUpdateStylesLongestFirst | main.ts:93-94 | blocks come in non-increasing order of path length |
| LegacyPlugin.LegacyUpdateStylesEntry | main.ts:106-117 | exact block iff a payload; cascade blocks iff a payload and the flag; all reuse the same declaration list |
| LegacyPlugin.LegacyEmitPath | main.ts:97-117 | one visit pushes the entry's blocks and marks the path processed iff it pushed something |
| LegacyPlugin.LegacyEmitEntries | main.ts:96-119 | the loop emits the entries in visiting order, and the processed set is exactly the visited paths with a payload |
| LegacyPlugin.LegacyUpdateStylesLoop | main.ts:88-122 | the statement-level compiler yields the sheet `LegacyUpdateStyles` describes |
| LegacyPlugin.LegacyLoad | main.ts:79-81 | stored members replace the defaults wholesale, so stored presets lose `Default` unless they hold one |
| LegacyPlugin.LegacySave | main.ts:83-86 | a save persists first, then recompiles from the persisted table |
| LegacyPlugin.LegacySaveThenLoad | main.ts:79-86 | loading what a save persisted gives the saved settings back |
| LegacyPlugin.LegacySavePreset | main.ts:289-303 | empty name or declined overwrite: nothing changes, nothing saved; otherwise only that preset changes and the settings are saved |
| LegacyPlugin.LegacySaveChanges | main.ts:339-342 | only the path's style is written, every other path reads as before, and the settings are saved |
| LegacyPlugin.LegacyDeletePreset | main.ts:469-473 | exactly that preset is removed and the settings are saved |
| LegacyPlugin.LegacyDeleteUndoesSave | main.ts:436-473 | deleting a preset just saved under a new name restores the settings |
| ColorUtils.HexToRgb | src/utils/colorUtils.ts:4-14 | parsing succeeds iff the text is six hex digits with an optional `#`, either case; each channel is in [0, 255] |
| ColorUtils.RgbToHexShape | src/utils/colorUtils.ts:19-24 | for channels that round into [0, 255], the result is `#` and six lowercase hex digits, each channel zero-padded |
| ColorUtils.RgbToHexParses | src/utils/colorUtils.ts:4-24 | parsing the encoding gives back the rounded channels |
| ColorUtils.RgbRoundTrip | src/utils/colorUtils.ts:4-24 | `hexToRGB(rgbToHex(r, g, b))` is `(r, g, b)` for integers in [0, 255] |
| ColorUtils.HexRoundTrip | src/utils/colorUtils.ts:4-24 | encoding a parsed colour gives it back with a `#` and in lowercase |
| ColorUtils.Clamp | src/utils/colorUtils.ts:53-55 | the clamp lands in [0, 255], leaves values already there alone, gives 0 below the range and 255 above it |
| ColorUtils.GenerateHoverColor | src/utils/colorUtils.ts:43-58 | succeeds iff the base parses, and then always gives a valid 7-character lowercase hex colour |
| ColorUtils.HoverColorChannels | src/utils/colorUtils.ts:43-58 | the hover colour's channels are the base channels scaled by 0.85 (light) or 1.15 (dark), clamped and rounded |
| ColorUtils.HoverColorDirection | src/utils/colorUtils.ts:43-58 | a light colour never gets lighter on hover and a dark one never darker |
| ColorUtils.ContrastTextColor | src/utils/colorUtils.ts:63-67 | the result is only `#000000` (on light) or `#ffffff` (on dark), and fails iff the background does not parse |
| ColorUtils.AdjustOpacity | src/utils/colorUtils.ts:72-75 | the parsed channels and the opacity are embedded unchanged; invalid hex fails |

## Left out

- Obsidian and DOM work is not modelled: creating and removing the `<style>` element, the `Setting`/`Modal` widgets, notices, event registration, the file-menu item, and the modal bookkeeping of src/main.ts:10-74. The sheet is the returned block sequence. Replacing the element's text is the `StylesheetReplaced` effect.
- src/core/EventManager.ts is not part of this model. It is modal lifecycle plumbing with no settings logic.
- version-bump.mjs is not part of this model. It is a build script doing file I/O.
- `CSS.escape` is not modelled as text. Selectors hold the raw path, and escaping is injective, so a selector datatype stands for exactly one selector text.
- The rendering of blocks as CSS text is not modelled. This covers joining with `; ` and `\n`, and the number-to-text formatting of opacity.
- `getLuminance` (src/utils/colorUtils.ts:30-36) uses floating-point `pow`. It is the parameter `isLight`.
- Floating-point arithmetic is exact real arithmetic in the model. This affects opacity, `+ 0.15`, and the 0.85/1.15 scaling. `Math.round` is `floor(x + 0.5)`, as in JavaScript.
- The overwrite dialog (`confirmOverwritePreset`) is its answer, a boolean.
- File picking, `JSON.parse`, and the Blob/URL export (src/settings/ColorSettingsTab.ts:299-318) are I/O and are not modelled. Import starts from an already parsed value; members of the wrong type are not modelled.
- Pointer geometry in dragover (`getBoundingClientRect`) is a chosen insertion index.
- Integer-like keys are not modelled. JavaScript lists such keys first in ascending order; every key here keeps insertion order.
- Aliasing is not modelled. `DEFAULT_SETTINGS` is shared by reference after loading. `saveChanges` (src/modals/ColorSettingsModal.ts:208-211) stores the working style object itself, not a copy, and the editor stays open after Apply (src/modals/ColorSettingsModal.ts:176-182). A later control edit (for example src/modals/ColorSettingsModal.ts:45) therefore changes `settings.styles[path]` without a save, and the next save from anywhere, such as the reconcile's save at src/settings/ColorSettingsTab.ts:37, persists that edit. In the model values are immutable, so a stored style changes only through `SettingsModal.SaveChanges`.
- Dicts.Get / Dicts.Put / Host.SaveGoesAhead: inherited object members are not modelled. In JavaScript `presets["constructor"]`, `presets["toString"]` and `presets["__proto__"]` are truthy on every object, so a save under those names asks for confirmation (src/settings/ColorSettingsTab.ts:161, src/modals/ColorSettingsModal.ts:152) although no such preset exists. An assignment to `__proto__` (src/settings/ColorSettingsTab.ts:165, src/modals/ColorSettingsModal.ts:209) replaces the prototype instead of adding a key. In the model every name is an ordinary key.
- SettingsTab.Import: the effects are listed as three persist/replace pairs in sequence. In the source the two reconcile saves (src/settings/ColorSettingsTab.ts:37, reached from :281 and, through `display`, from :283) are not awaited, so the persists and the stylesheet replacements may interleave in another order. All three persist the same settings, so every order leaves the same stored settings and the same stylesheet.
- NaN opacity is not modelled, since opacity is a real.
- The onChange handlers of the individual controls are not modelled. They set one field of the working style or draft, and the re-rendering follows (src/modals/ColorSettingsModal.ts:39-119, src/settings/ColorSettingsTab.ts:62-138, main.ts:196-272). Only the hex-input guard, which decides whether a field changes, is modelled.
- `updatePreview` (src/settings/ColorSettingsTab.ts:321-333, src/modals/ColorSettingsModal.ts:200-206, main.ts:478-484) only sets inline styles on a preview element and is not modelled.
- `display` of the settings tab is not modelled as widgets. Its effect on the settings is the reconcile `Sync`, which `SettingsTab.Redisplay` appends to the handlers that end with it. The Reset button of the tab (src/settings/ColorSettingsTab.ts:149-154) is `Styles.Reset` on the draft followed by that same reconcile; it has no member of its own.
- `onload`/`onunload` are not modelled.
- The legacy plugin's editor open and apply-preset (main.ts:174-180, 313-316) are not modelled. They are the same copy-in as the current editor's `Open`/`ApplyPreset`.
- SettingsTab.SyncEstablishes: it assumes the stored order has no duplicates. Duplicates already in the stored order survive the reconcile, since the filter only drops unknown names.

## Findings

| source | as written | input that shows it | evidently intended | confidence | as-written member | corrected member |
|---|---|---|---|---|---|---|
| src/main.ts:30, src/modals/ColorSettingsModal.ts:23, src/modals/ColorSettingsModal.ts:209 | The editor is constructed with `file.path`, a string, but reads and writes `styles[this.file.path]`. The `.path` of a string is `undefined`, so every editor session reads and writes the key "undefined". | Open the editor on folder "Notes" from fresh settings, pick a red background and apply: `styles` becomes `{"undefined": …}` and "Notes" stays uncoloured. | The editor reads and writes `styles[path]` for the path it was opened on, as the older main.ts:174-180 does by passing `file`. | not executed | SettingsModal.OpenAsWritten, SettingsModal.SaveChangesAsWritten, SettingsModal.AsWrittenMissesPath, SettingsModal.AsWrittenExample | SettingsModal.Open, SettingsModal.SaveChanges, SettingsModal.SaveThenOpen |
