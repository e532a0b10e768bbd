/** The older, single-file version of the plugin, the root main.ts. Its
    style record carries `fontWeight` and `fontStyle` as free strings, its
    defaults hold one preset, its compiler has no base transition block and
    marks a path processed only when the path emitted something, and it has
    no preset order. Blocks, selectors and the per-entry emission are those
    of `RuleCompiler`, which the root main.ts:124-137 selector helpers
    share with the current version. */
module LegacyPlugin {
  import opened Wrappers
  import opened Seqs
  import opened Dicts
  import opened Css
  import opened Host
  import opened PathOrder
  import Styles
  import RuleCompiler

  datatype LegacyStyle = LegacyStyle(
    backgroundColor: Option<string>,
    textColor: Option<string>,
    fontWeight: Option<string>,
    fontStyle: Option<string>,
    opacity: Option<real>,
    applyToSubfolders: Option<bool>,
    applyToFiles: Option<bool>)

  datatype LegacySettings = LegacySettings(styles: Dict<LegacyStyle>, presets: Dict<LegacyStyle>)

  /** The one preset of the defaults. */
  const DefaultPreset := LegacyStyle(Some("#ffffff"), Some("#000000"), Some("normal"), Some("normal"),
                                     Some(1.0), Some(false), Some(false))

  /** `DEFAULT_SETTINGS`: no styles, and a single preset named `Default`,
      fully opaque and cascading nowhere. */
  function DefaultSettings(): (s: LegacySettings)
    ensures s.styles.keys == [] && s.presets.keys == ["Default"]
    ensures s.presets.values["Default"].opacity == Some(1.0)
    ensures !Styles.TruthyFlag(s.presets.values["Default"].applyToSubfolders)
    ensures !Styles.TruthyFlag(s.presets.values["Default"].applyToFiles)
  {
    LegacySettings(Empty(), RawDict(["Default"], map["Default" := DefaultPreset]))
  }

  // ---------------------------------------------------------------------
  // The compiler.

  /** The legacy fields that produce a declaration. */
  predicate LegacyHasPayload(s: LegacyStyle) {
    || Styles.TruthyText(s.backgroundColor) || Styles.TruthyText(s.textColor)
    || Styles.TruthyText(s.fontWeight) || Styles.TruthyText(s.fontStyle)
    || s.opacity.Some?
  }

  /** What a legacy style asks for: each string field only when non-empty,
      copied verbatim, and an opacity whenever one is stored. */
  predicate LegacyRequests(s: LegacyStyle, d: Declaration) {
    match d
    case BackgroundColor(c) => Styles.TruthyText(s.backgroundColor) && c == s.backgroundColor.value
    case TextColor(c) => Styles.TruthyText(s.textColor) && c == s.textColor.value
    case FontWeight(w) => Styles.TruthyText(s.fontWeight) && w == s.fontWeight.value
    case FontStyle(w) => Styles.TruthyText(s.fontStyle) && w == s.fontStyle.value
    case Opacity(o) => s.opacity == Some(o)
    case _ => false
  }

  /** The declaration list of one legacy style (main.ts:98-104). */
  function LegacyDeclarations(s: LegacyStyle): (ds: seq<Declaration>)
    ensures forall d :: d in ds <==> LegacyRequests(s, d)
    ensures ds == [] <==> !LegacyHasPayload(s)
  {
    var bg := if Styles.TruthyText(s.backgroundColor) then [BackgroundColor(s.backgroundColor.value)] else [];
    var fg := if Styles.TruthyText(s.textColor) then [TextColor(s.textColor.value)] else [];
    var wt := if Styles.TruthyText(s.fontWeight) then [FontWeight(s.fontWeight.value)] else [];
    var st := if Styles.TruthyText(s.fontStyle) then [FontStyle(s.fontStyle.value)] else [];
    var op := if s.opacity.Some? then [Opacity(s.opacity.value)] else [];
    var ds := bg + fg + wt + st + op;
    forall d ensures d in ds <==> LegacyRequests(s, d) {
      assert d in ds <==> d in bg || d in fg || d in wt || d in st || d in op;
    }
    assert ds == [] <==> bg == [] && fg == [] && wt == [] && st == [] && op == [];
    ds
  }

  /** A stored `fontWeight` or `fontStyle` reaches the sheet exactly as
      typed, whatever the string, as long as it is not empty. */
  lemma FontStringsVerbatim(s: LegacyStyle, w: string)
    ensures FontWeight(w) in LegacyDeclarations(s) <==> s.fontWeight == Some(w) && w != ""
    ensures FontStyle(w) in LegacyDeclarations(s) <==> s.fontStyle == Some(w) && w != ""
  {
  }

  function LegacyRuleOf(p: string, s: LegacyStyle): RuleCompiler.PathRule {
    RuleCompiler.PathRule(p, LegacyDeclarations(s), Styles.TruthyFlag(s.applyToSubfolders),
                          Styles.TruthyFlag(s.applyToFiles))
  }

  function LegacyRules(styles: Dict<LegacyStyle>, ps: seq<string>): (rules: seq<RuleCompiler.PathRule>)
    requires forall p :: p in ps ==> p in styles.keys
    ensures RuleCompiler.PathsOf(rules) == ps
    ensures forall i :: 0 <= i < |ps| ==> rules[i] == LegacyRuleOf(ps[i], styles.values[ps[i]])
  {
    if ps == [] then []
    else [LegacyRuleOf(ps[0], styles.values[ps[0]])] + LegacyRules(styles, ps[1..])
  }

  /** `updateStyles` of the root main.ts as one expression: the entries'
      blocks, longest path first, with no block before them. */
  function LegacyUpdateStyles(styles: Dict<LegacyStyle>): seq<Block> {
    RuleCompiler.SortedPathsFacts(styles.keys);
    RuleCompiler.EmitAll(LegacyRules(styles, RuleCompiler.SortedPaths(styles.keys)))
  }

  /** Every block is about a path of the table. */
  lemma LegacyUpdateStylesPaths(styles: Dict<LegacyStyle>)
    ensures forall i :: 0 <= i < |LegacyUpdateStyles(styles)| ==>
              BlockPath(LegacyUpdateStyles(styles)[i]).Some?
              && BlockPath(LegacyUpdateStyles(styles)[i]).value in styles.keys
  {
    RuleCompiler.SortedPathsFacts(styles.keys);
    RuleCompiler.EmitAllPaths(LegacyRules(styles, RuleCompiler.SortedPaths(styles.keys)));
  }

  /** The blocks about each path come from that path's own entry alone. */
  lemma LegacyUpdateStylesPerPath(styles: Dict<LegacyStyle>, p: string)
    ensures BlocksAbout(LegacyUpdateStyles(styles), p)
            == if p in styles.keys then RuleCompiler.PathBlocks(LegacyRuleOf(p, styles.values[p])) else []
  {
    var ps := RuleCompiler.SortedPaths(styles.keys);
    RuleCompiler.SortedPathsFacts(styles.keys);
    var rules := LegacyRules(styles, ps);
    if p in styles.keys {
      var k :| 0 <= k < |ps| && ps[k] == p;
      RuleCompiler.EmitAllBlocksAbout(rules, k);
    } else {
      RuleCompiler.EmitAllNothingAbout(rules, p);
    }
  }

  /** Blocks come in non-increasing order of path length (main.ts:93-94). */
  lemma LegacyUpdateStylesLongestFirst(styles: Dict<LegacyStyle>)
    ensures var sheet := LegacyUpdateStyles(styles);
            forall i, j :: 0 <= i < j < |sheet| ==>
              RuleCompiler.PathLength(sheet[i]) >= RuleCompiler.PathLength(sheet[j])
  {
    RuleCompiler.SortedPathsFacts(styles.keys);
    RuleCompiler.EmitAllLongestFirst(LegacyRules(styles, RuleCompiler.SortedPaths(styles.keys)));
  }

  /** What the entry of `p` contributes: an exact block iff the style has a
      payload, each cascade block iff there is a payload and its flag is
      `true`, all three with the same declarations. */
  lemma LegacyUpdateStylesEntry(styles: Dict<LegacyStyle>, p: string)
    requires p in styles.keys
    ensures var s, sheet := styles.values[p], LegacyUpdateStyles(styles);
            var ds := LegacyDeclarations(s);
            && (RuleCompiler.ExactBlock(p, ds) in sheet <==> LegacyHasPayload(s))
            && (RuleCompiler.SubfolderBlock(p, ds) in sheet <==> LegacyHasPayload(s) && Styles.TruthyFlag(s.applyToSubfolders))
            && (RuleCompiler.FilesBlock(p, ds) in sheet <==> LegacyHasPayload(s) && Styles.TruthyFlag(s.applyToFiles))
  {
    var s, sheet := styles.values[p], LegacyUpdateStyles(styles);
    var ds := LegacyDeclarations(s);
    LegacyUpdateStylesPerPath(styles, p);
    var mine := RuleCompiler.PathBlocks(LegacyRuleOf(p, s));
    forall b | b == RuleCompiler.ExactBlock(p, ds) || b == RuleCompiler.SubfolderBlock(p, ds) || b == RuleCompiler.FilesBlock(p, ds)
      ensures b in sheet <==> b in mine
    {
      assert BlockPath(b) == Some(p);
    }
  }

  /** One visit of the loop (main.ts:97-117): the blocks pushed, and whether
      the path is marked processed, which happens only when it pushed. */
  method LegacyEmitPath(path: string, style: LegacyStyle) returns (pushed: seq<Block>, marked: bool)
    ensures pushed == RuleCompiler.PathBlocks(LegacyRuleOf(path, style))
    ensures marked <==> pushed != []
  {
    var rules := LegacyDeclarations(style);
    pushed, marked := [], false;
    if |rules| > 0 {
      pushed := pushed + [RuleCompiler.ExactBlock(path, rules)];
      marked := true;
      if Styles.TruthyFlag(style.applyToSubfolders) {
        pushed := pushed + [RuleCompiler.SubfolderBlock(path, rules)];
      }
      if Styles.TruthyFlag(style.applyToFiles) {
        pushed := pushed + [RuleCompiler.FilesBlock(path, rules)];
      }
    }
  }

  lemma LegacyEmitHead(styles: Dict<LegacyStyle>, ps: seq<string>)
    requires ps != [] && forall q :: q in ps ==> q in styles.keys
    ensures RuleCompiler.EmitAll(LegacyRules(styles, ps))
            == RuleCompiler.PathBlocks(LegacyRuleOf(ps[0], styles.values[ps[0]]))
               + RuleCompiler.EmitAll(LegacyRules(styles, ps[1..]))
  {
  }

  /** The loop of `updateStyles` (main.ts:96-119) over the entries in
      visiting order `ps`. The processed set ends up holding exactly the
      visited paths whose style has a payload, and its guard never skips a
      path, since the paths are distinct. */
  method LegacyEmitEntries(styles: Dict<LegacyStyle>, ps: seq<string>) returns (sheet: seq<Block>, processed: set<string>)
    requires Distinct(ps)
    requires forall q :: q in ps ==> q in styles.keys
    ensures sheet == RuleCompiler.EmitAll(LegacyRules(styles, ps))
    ensures forall p :: p in processed <==> p in ps && LegacyHasPayload(styles.values[p])
  {
    sheet, processed := [], {};
    var rest := ps;
    while rest != []
      invariant Distinct(rest)
      invariant forall q :: q in rest ==> q in ps
      invariant forall q :: q in processed <==> q in ps && q !in rest && LegacyHasPayload(styles.values[q])
      invariant sheet + RuleCompiler.EmitAll(LegacyRules(styles, rest)) == RuleCompiler.EmitAll(LegacyRules(styles, ps))
    {
      var path := rest[0];
      if path !in processed {
        var pushed, marked := LegacyEmitPath(path, styles.values[path]);
        LegacyEmitHead(styles, rest);
        ConcatAssoc(sheet, pushed, RuleCompiler.EmitAll(LegacyRules(styles, rest[1..])));
        sheet := sheet + pushed;
        if marked {
          processed := processed + {path};
        }
      } else {
        // a path still to visit has not been marked
        assert false;
      }
      DistinctCons(path, rest[1..]);
      assert rest == [path] + rest[1..];
      rest := rest[1..];
    }
    assert RuleCompiler.EmitAll(LegacyRules(styles, rest)) == [];
  }

  /** `updateStyles` of main.ts:88-122 statement by statement: the result is
      the sheet `LegacyUpdateStyles` describes. */
  method LegacyUpdateStylesLoop(styles: Dict<LegacyStyle>) returns (sheet: seq<Block>, processed: set<string>)
    ensures sheet == LegacyUpdateStyles(styles)
    ensures forall p :: p in processed <==> p in styles.keys && LegacyHasPayload(styles.values[p])
  {
    var sorted := RuleCompiler.SortedPaths(styles.keys);
    RuleCompiler.SortedPathsFacts(styles.keys);
    sheet, processed := LegacyEmitEntries(styles, sorted);
  }

  // ---------------------------------------------------------------------
  // Settings and handlers.

  /** What `loadData()` hands back once parsed; each member may be missing. */
  datatype LegacyStored = LegacyStored(styles: Option<Dict<LegacyStyle>>, presets: Option<Dict<LegacyStyle>>)

  /** `loadSettings` (main.ts:79-81): stored members replace the defaults
      wholesale, so stored presets drop `Default` unless they hold one. */
  function LegacyLoad(stored: Option<LegacyStored>): (s: LegacySettings)
    ensures stored.None? ==> s == DefaultSettings()
    ensures stored.Some? && stored.value.styles.Some? ==> s.styles == stored.value.styles.value
    ensures stored.Some? && stored.value.presets.Some? ==> s.presets == stored.value.presets.value
    ensures (stored.None? || stored.value.styles.None?) ==> s.styles.keys == []
    ensures "Default" in s.presets.keys <==>
              stored.None? || stored.value.presets.None? || "Default" in stored.value.presets.value.keys
  {
    match stored
    case None => DefaultSettings()
    case Some(d) => LegacySettings(d.styles.GetOr(DefaultSettings().styles), d.presets.GetOr(DefaultSettings().presets))
  }

  /** `saveSettings` (main.ts:83-86): persist, then recompile from the
      persisted table. */
  function LegacySave(s: LegacySettings): (effects: seq<Effect<LegacySettings>>)
    ensures |effects| == 2 && effects[0] == Persisted(s)
    ensures effects[1].StylesheetReplaced?
    ensures effects[1].sheet == LegacyUpdateStyles(effects[0].settings.styles)
  {
    [Persisted(s), StylesheetReplaced(LegacyUpdateStyles(s.styles))]
  }

  /** A handler that saved: the new settings, then `saveSettings` of them. */
  function LegacySaved(s: LegacySettings): (o: Outcome<LegacySettings>)
    ensures o.settings == s && o.effects == LegacySave(s)
  {
    Outcome(s, LegacySave(s))
  }

  /** Loading what a save persisted gives back the saved settings. */
  lemma LegacySaveThenLoad(s: LegacySettings)
    ensures var d := LegacySave(s)[0].settings;
            LegacyLoad(Some(LegacyStored(Some(d.styles), Some(d.presets)))) == s
  {
  }

  /** "Save preset", in the editor (main.ts:289-303) and in the settings tab
      (main.ts:436-452) alike: the shared guard, then the preset becomes a
      copy of the style and the settings are saved. */
  function LegacySavePreset(s: LegacySettings, style: LegacyStyle, name: string, confirmed: bool)
    : (o: Outcome<LegacySettings>)
    ensures !SaveGoesAhead(s.presets, name, confirmed) ==> o == Outcome(s, [])
    ensures SaveGoesAhead(s.presets, name, confirmed) ==>
              && Get(o.settings.presets, name) == Some(style)
              && (forall k :: k != name ==> Get(o.settings.presets, k) == Get(s.presets, k))
              && o.settings.styles == s.styles
              && o.effects == LegacySave(o.settings)
  {
    if !SaveGoesAhead(s.presets, name, confirmed) then Outcome(s, [])
    else
      GetAfterPut(s.presets, name, style);
      LegacySaved(s.(presets := Put(s.presets, name, style)))
  }

  /** `saveChanges` (main.ts:339-342): the edited style is stored for the
      file's path and nothing else changes. */
  function LegacySaveChanges(s: LegacySettings, path: string, style: LegacyStyle): (o: Outcome<LegacySettings>)
    ensures Get(o.settings.styles, path) == Some(style)
    ensures forall q :: q != path ==> Get(o.settings.styles, q) == Get(s.styles, q)
    ensures o.settings.presets == s.presets
    ensures o.effects == LegacySave(o.settings)
  {
    GetAfterPut(s.styles, path, style);
    LegacySaved(s.(styles := Put(s.styles, path, style)))
  }

  /** The trash button (main.ts:469-473): exactly that preset goes. */
  function LegacyDeletePreset(s: LegacySettings, name: string): (o: Outcome<LegacySettings>)
    ensures Get(o.settings.presets, name) == None
    ensures forall k :: k != name ==> Get(o.settings.presets, k) == Get(s.presets, k)
    ensures o.settings.styles == s.styles
    ensures o.effects == LegacySave(o.settings)
  {
    GetAfterRemove(s.presets, name);
    LegacySaved(s.(presets := Remove(s.presets, name)))
  }

  /** Deleting a preset just saved under a new name restores the settings. */
  lemma LegacyDeleteUndoesSave(s: LegacySettings, style: LegacyStyle, name: string, confirmed: bool)
    requires name != "" && name !in s.presets.keys
    ensures LegacyDeletePreset(LegacySavePreset(s, style, name, confirmed).settings, name).settings == s
  {
    RemoveAfterPutNew(s.presets, name, style);
  }
}
