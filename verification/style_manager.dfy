/** The per-field stylesheet compiler `StyleManager.updateStyles`
    (src/core/StyleManager.ts). Unlike the compiler of src/main.ts it keeps
    the table's own order, marks every declaration `!important`, gives each
    style field blocks of its own, adds light- and dark-theme hover blocks
    for backgrounds, a hover opacity, and blocks for the preview list. */
module StyleManager {
  import opened Wrappers
  import opened Seqs
  import opened Dicts
  import opened Styles
  import opened Css
  import RuleCompiler

  /** `.nav-folder-title, .nav-file-title, .preview-item { transition:
      background-color 0.1s ease, opacity 0.1s ease !important; }` */
  const ManagerTransition := Block([Plain(FolderTitle, AnyPath), Plain(FileTitle, AnyPath), Plain(PreviewItem, AnyPath)],
                                   [Transition([BackgroundColorChange, OpacityChange], 0.1)],
                                   true)

  /** `body.theme-<mode> <row><test>:hover` */
  function Themed(m: Mode, row: Row, test: PathTest): Selector {
    Selector(ThemeOnly(m), row, test, true)
  }

  /** Hovering lightens (20% white) in the light theme and darkens (20%
      black) in the dark theme. */
  function HoverTone(m: Mode): Tone {
    if m == Light then White else Black
  }

  function HoverBackground(m: Mode, c: string): Declaration {
    BackgroundMix(HoverTone(m), 20, c)
  }

  /** `Math.min(1, o + 0.15)`: a hovered row is 0.15 more opaque, capped at
      fully opaque. */
  function HoverOpacity(o: real): (h: real)
    ensures h <= 1.0 && h <= o + 0.15
    ensures h == 1.0 || h == o + 0.15
  {
    if o + 0.15 <= 1.0 then o + 0.15 else 1.0
  }

  /** Hovering never makes a row more transparent than it is at rest, and
      only rows that are already at least 0.85 opaque reach the cap. */
  lemma HoverOpacityBounds(o: real)
    ensures HoverOpacity(o) <= 1.0
    ensures o <= 1.0 ==> o <= HoverOpacity(o)
    ensures HoverOpacity(o) == 1.0 <==> o >= 0.85
  {
  }

  /** One selector per row kind, all with the same test and hover state. */
  function RowSelectors(rows: seq<Row>, test: PathTest, hover: bool): (ss: seq<Selector>)
    ensures |ss| == |rows|
    ensures forall i :: 0 <= i < |rows| ==> ss[i] == Selector(AllThemes, rows[i], test, hover)
    ensures forall sel :: sel in ss <==> sel.row in rows && sel == Selector(AllThemes, sel.row, test, hover)
  {
    if rows == [] then [] else [Selector(AllThemes, rows[0], test, hover)] + RowSelectors(rows[1..], test, hover)
  }

  /** A background colour on one row kind: the plain block and its two
      themed hover blocks. */
  function BackgroundGroup(row: Row, test: PathTest, c: string): seq<Block> {
    [ Block([Plain(row, test)], [BackgroundColor(c)], true),
      Block([Themed(Light, row, test)], [HoverBackground(Light, c)], true),
      Block([Themed(Dark, row, test)], [HoverBackground(Dark, c)], true) ]
  }

  /** A text colour on one row kind, at rest and hovered alike. */
  function TextBlock(row: Row, test: PathTest, c: string): Block {
    Block([Plain(row, test), Hovered(row, test)], [TextColor(c)], true)
  }

  /** The colour blocks for one row kind (src/core/StyleManager.ts:27-52). */
  function ColourBlocks(row: Row, test: PathTest, s: Style): seq<Block> {
    (if TruthyText(s.backgroundColor) then BackgroundGroup(row, test, s.backgroundColor.value) else [])
    + (if TruthyText(s.textColor) then [TextBlock(row, test, s.textColor.value)] else [])
  }

  /** The opacity at rest and the raised opacity on hover. */
  function OpacityGroup(rows: seq<Row>, test: PathTest, o: real): seq<Block> {
    [ Block(RowSelectors(rows, test, false), [Opacity(o)], true),
      Block(RowSelectors(rows, test, true), [Opacity(HoverOpacity(o))], true) ]
  }

  /** Weight, slant and opacity blocks over the given row kinds
      (src/core/StyleManager.ts:83-112). */
  function FontAndOpacityBlocks(rows: seq<Row>, test: PathTest, s: Style): seq<Block> {
    (if TruthyFlag(s.isBold) then [Block(RowSelectors(rows, test, false), [FontWeight("bold")], true)] else [])
    + (if TruthyFlag(s.isItalic) then [Block(RowSelectors(rows, test, false), [FontStyle("italic")], true)] else [])
    + (if s.opacity.Some? then OpacityGroup(rows, test, s.opacity.value) else [])
  }

  /** The blocks for path `p` itself (src/core/StyleManager.ts:26-112). */
  function ExactSection(p: string, s: Style): seq<Block> {
    ColourBlocks(FolderTitle, PathIs(p), s)
    + ColourBlocks(FileTitle, PathIs(p), s)
    + FontAndOpacityBlocks([FolderTitle, FileTitle], PathIs(p), s)
  }

  /** The cascade to rows of one kind below `p` (src/core/StyleManager.ts:115-226). */
  function CascadeSection(row: Row, p: string, s: Style): seq<Block> {
    ColourBlocks(row, PathUnder(p), s) + FontAndOpacityBlocks([row], PathUnder(p), s)
  }

  /** The declarations of the plain preview-item block, given a background
      (src/core/StyleManager.ts:231-237). */
  function PreviewDeclarations(bg: string, s: Style): seq<Declaration> {
    [BackgroundColor(bg)]
    + (if TruthyText(s.textColor) then [TextColor(s.textColor.value)] else [])
    + (if TruthyFlag(s.isBold) then [FontWeight("bold")] else [])
    + (if TruthyFlag(s.isItalic) then [FontStyle("italic")] else [])
    + (if s.opacity.Some? then [Opacity(s.opacity.value)] else [])
  }

  function PreviewHoverDeclarations(m: Mode, bg: string, s: Style): seq<Declaration> {
    [HoverBackground(m, bg)] + (if s.opacity.Some? then [Opacity(HoverOpacity(s.opacity.value))] else [])
  }

  /** The preview-item blocks (src/core/StyleManager.ts:229-251): only when
      a background is set. */
  function PreviewSection(p: string, s: Style): seq<Block> {
    if TruthyText(s.backgroundColor) then
      var bg := s.backgroundColor.value;
      [ Block([Plain(PreviewItem, PathIs(p))], PreviewDeclarations(bg, s), true),
        Block([Themed(Light, PreviewItem, PathIs(p))], PreviewHoverDeclarations(Light, bg, s), true),
        Block([Themed(Dark, PreviewItem, PathIs(p))], PreviewHoverDeclarations(Dark, bg, s), true) ]
    else []
  }

  /** Everything one table entry contributes, in the order the loop body
      pushes it. */
  function EntryBlocks(p: string, s: Style): seq<Block> {
    ExactSection(p, s)
    + (if TruthyFlag(s.applyToSubfolders) then CascadeSection(FolderTitle, p, s) else [])
    + (if TruthyFlag(s.applyToFiles) then CascadeSection(FileTitle, p, s) else [])
    + PreviewSection(p, s)
  }

  /** The entries of `ks`, in that order. */
  function Entries(styles: Dict<Style>, ks: seq<string>): seq<Block>
    requires forall k :: k in ks ==> k in styles.keys
  {
    if ks == [] then [] else EntryBlocks(ks[0], styles.values[ks[0]]) + Entries(styles, ks[1..])
  }

  /** `StyleManager.updateStyles`: the transition block, then every entry
      in the table's iteration order, with no sorting. */
  function UpdateStyles(styles: Dict<Style>): (sheet: seq<Block>)
    ensures |sheet| >= 1 && sheet[0] == ManagerTransition
  {
    [ManagerTransition] + Entries(styles, styles.keys)
  }

  // ---------------------------------------------------------------------
  // Which rows an entry's blocks can reach.

  /** Every block has a selector, and every selector tests one of `tests`
      on one of `rows`. */
  ghost predicate Targets(bs: seq<Block>, tests: set<PathTest>, rows: set<Row>) {
    forall b :: b in bs ==>
      b.selectors != [] && forall sel :: sel in b.selectors ==> sel.test in tests && sel.row in rows
  }

  lemma ColourTargets(row: Row, t: PathTest, s: Style)
    ensures Targets(ColourBlocks(row, t, s), {t}, {row})
  {
  }

  lemma TargetsConcat(a: seq<Block>, b: seq<Block>, tests: set<PathTest>, rows: set<Row>)
    requires Targets(a, tests, rows) && Targets(b, tests, rows)
    ensures Targets(a + b, tests, rows)
  {
  }

  lemma RowSelectorsTargets(rows: seq<Row>, t: PathTest, hover: bool, ds: seq<Declaration>)
    requires rows != []
    ensures Targets([Block(RowSelectors(rows, t, hover), ds, true)], {t}, set r | r in rows)
  {
    var ss := RowSelectors(rows, t, hover);
    assert ss[0] in ss;
  }

  lemma FontAndOpacityTargets(rows: seq<Row>, t: PathTest, s: Style)
    requires rows != []
    ensures Targets(FontAndOpacityBlocks(rows, t, s), {t}, set r | r in rows)
  {
    var bold := if TruthyFlag(s.isBold) then [Block(RowSelectors(rows, t, false), [FontWeight("bold")], true)] else [];
    var italic := if TruthyFlag(s.isItalic) then [Block(RowSelectors(rows, t, false), [FontStyle("italic")], true)] else [];
    var op := if s.opacity.Some? then OpacityGroup(rows, t, s.opacity.value) else [];
    var rs := set r | r in rows;
    RowSelectorsTargets(rows, t, false, [FontWeight("bold")]);
    RowSelectorsTargets(rows, t, false, [FontStyle("italic")]);
    if s.opacity.Some? {
      var o := s.opacity.value;
      RowSelectorsTargets(rows, t, false, [Opacity(o)]);
      RowSelectorsTargets(rows, t, true, [Opacity(HoverOpacity(o))]);
      TargetsConcat([Block(RowSelectors(rows, t, false), [Opacity(o)], true)],
                    [Block(RowSelectors(rows, t, true), [Opacity(HoverOpacity(o))], true)], {t}, rs);
    }
    TargetsConcat(bold, italic, {t}, rs);
    TargetsConcat(bold + italic, op, {t}, rs);
  }

  lemma ExactTargets(p: string, s: Style)
    ensures Targets(ExactSection(p, s), {PathIs(p)}, {FolderTitle, FileTitle})
  {
    ColourTargets(FolderTitle, PathIs(p), s);
    ColourTargets(FileTitle, PathIs(p), s);
    FontAndOpacityTargets([FolderTitle, FileTitle], PathIs(p), s);
  }

  lemma CascadeTargets(row: Row, p: string, s: Style)
    ensures Targets(CascadeSection(row, p, s), {PathUnder(p)}, {row})
  {
    ColourTargets(row, PathUnder(p), s);
    FontAndOpacityTargets([row], PathUnder(p), s);
  }

  lemma PreviewTargets(p: string, s: Style)
    ensures Targets(PreviewSection(p, s), {PathIs(p)}, {PreviewItem})
  {
  }

  lemma EntryTargets(p: string, s: Style)
    ensures Targets(EntryBlocks(p, s), {PathIs(p), PathUnder(p)}, {FolderTitle, FileTitle, PreviewItem})
  {
    ExactTargets(p, s);
    CascadeTargets(FolderTitle, p, s);
    CascadeTargets(FileTitle, p, s);
    PreviewTargets(p, s);
  }

  /** Which selectors an entry can carry: its own path exactly, or its
      path as a prefix only on the row kind whose cascade flag is `true`;
      preview rows only for its own path and only with a background. */
  lemma EntrySelectors(p: string, s: Style, b: Block, sel: Selector)
    requires b in EntryBlocks(p, s) && sel in b.selectors
    ensures sel.test == PathIs(p) || sel.test == PathUnder(p)
    ensures sel.test == PathUnder(p) ==>
              || (sel.row == FolderTitle && TruthyFlag(s.applyToSubfolders))
              || (sel.row == FileTitle && TruthyFlag(s.applyToFiles))
    ensures sel.row == PreviewItem ==> sel.test == PathIs(p) && TruthyText(s.backgroundColor)
  {
    var exact := ExactSection(p, s);
    var folders := if TruthyFlag(s.applyToSubfolders) then CascadeSection(FolderTitle, p, s) else [];
    var files := if TruthyFlag(s.applyToFiles) then CascadeSection(FileTitle, p, s) else [];
    var preview := PreviewSection(p, s);
    assert EntryBlocks(p, s) == exact + folders + files + preview;
    if b in exact {
      ExactTargets(p, s);
    } else if b in folders {
      CascadeTargets(FolderTitle, p, s);
    } else if b in files {
      CascadeTargets(FileTitle, p, s);
    } else {
      assert b in preview;
      PreviewTargets(p, s);
    }
  }

  /** The rows an entry's blocks reach: the entry's own rows, folder rows
      below it only when it cascades to sub-folders, file rows below it
      only when it cascades to files, and its preview row only when it has
      a background. */
  lemma EntryReach(p: string, s: Style, b: Block, e: Element)
    requires b in EntryBlocks(p, s) && BlockMatches(b, e)
    ensures e.path == p || p + "/" <= e.path
    ensures e.path != p ==>
              || (e.row == FolderTitle && TruthyFlag(s.applyToSubfolders))
              || (e.row == FileTitle && TruthyFlag(s.applyToFiles))
    ensures e.row == PreviewItem ==> e.path == p && TruthyText(s.backgroundColor)
  {
    var i :| 0 <= i < |b.selectors| && SelectorMatches(b.selectors[i], e);
    EntrySelectors(p, s, b, b.selectors[i]);
    if e.path != p {
      assert b.selectors[i].test != PathIs(p);
    }
  }

  /** Every block of an entry is about the entry's path. */
  lemma EntryBlocksAbout(p: string, s: Style)
    ensures forall i :: 0 <= i < |EntryBlocks(p, s)| ==> BlockPath(EntryBlocks(p, s)[i]) == Some(p)
  {
    EntryTargets(p, s);
    TargetsAbout(EntryBlocks(p, s), p, {FolderTitle, FileTitle, PreviewItem});
  }

  /** Blocks whose selectors all test `p` exactly or as a prefix are about `p`. */
  lemma TargetsAbout(bs: seq<Block>, p: string, rows: set<Row>)
    requires Targets(bs, {PathIs(p), PathUnder(p)}, rows)
    ensures forall i :: 0 <= i < |bs| ==> BlockPath(bs[i]) == Some(p)
  {
    forall i | 0 <= i < |bs| ensures BlockPath(bs[i]) == Some(p) {
      assert bs[i] in bs;
      assert bs[i].selectors[0] in bs[i].selectors;
    }
  }

  // ---------------------------------------------------------------------
  // Which declarations an entry can carry.

  /** A declaration the style asks for: a colour only when the field is a
      non-empty string, its hover tint 20% white or black over that same
      colour, bold and italic only when `true`, and an opacity only when one
      is stored, either as stored or raised for hover. */
  predicate Allowed(s: Style, d: Declaration) {
    match d
    case BackgroundColor(c) => TruthyText(s.backgroundColor) && c == s.backgroundColor.value
    case BackgroundMix(_, percent, c) => TruthyText(s.backgroundColor) && c == s.backgroundColor.value && percent == 20
    case TextColor(c) => TruthyText(s.textColor) && c == s.textColor.value
    case FontWeight(w) => TruthyFlag(s.isBold) && w == "bold"
    case FontStyle(w) => TruthyFlag(s.isItalic) && w == "italic"
    case Opacity(o) => s.opacity.Some? && (o == s.opacity.value || o == HoverOpacity(s.opacity.value))
    case Transition(_, _) => false
  }

  ghost predicate AllAllowed(bs: seq<Block>, s: Style) {
    forall b :: b in bs ==> forall d :: d in b.declarations ==> Allowed(s, d)
  }

  lemma ColourAllowed(row: Row, t: PathTest, s: Style)
    ensures AllAllowed(ColourBlocks(row, t, s), s)
  {
    if TruthyText(s.backgroundColor) {
      var c := s.backgroundColor.value;
      assert forall b :: b in BackgroundGroup(row, t, c) ==>
        b.declarations in {[BackgroundColor(c)], [HoverBackground(Light, c)], [HoverBackground(Dark, c)]};
    }
  }

  lemma AllAllowedConcat(a: seq<Block>, b: seq<Block>, s: Style)
    requires AllAllowed(a, s) && AllAllowed(b, s)
    ensures AllAllowed(a + b, s)
  {
  }

  lemma OneBlockAllowed(sels: seq<Selector>, d: Declaration, s: Style)
    ensures Allowed(s, d) ==> AllAllowed([Block(sels, [d], true)], s)
  {
  }

  lemma OpacityAllowed(rows: seq<Row>, t: PathTest, s: Style)
    ensures AllAllowed(if s.opacity.Some? then OpacityGroup(rows, t, s.opacity.value) else [], s)
  {
    if s.opacity.Some? {
      var o := s.opacity.value;
      assert Allowed(s, Opacity(o)) && Allowed(s, Opacity(HoverOpacity(o)));
      var g := OpacityGroup(rows, t, o);
      assert forall b :: b in g ==> b == g[0] || b == g[1];
    }
  }

  lemma FontAndOpacityAllowed(rows: seq<Row>, t: PathTest, s: Style)
    ensures AllAllowed(FontAndOpacityBlocks(rows, t, s), s)
  {
    var bold := if TruthyFlag(s.isBold) then [Block(RowSelectors(rows, t, false), [FontWeight("bold")], true)] else [];
    var italic := if TruthyFlag(s.isItalic) then [Block(RowSelectors(rows, t, false), [FontStyle("italic")], true)] else [];
    var op := if s.opacity.Some? then OpacityGroup(rows, t, s.opacity.value) else [];
    OpacityAllowed(rows, t, s);
    if TruthyFlag(s.isBold) {
      assert Allowed(s, FontWeight("bold"));
      OneBlockAllowed(RowSelectors(rows, t, false), FontWeight("bold"), s);
    }
    if TruthyFlag(s.isItalic) {
      assert Allowed(s, FontStyle("italic"));
      OneBlockAllowed(RowSelectors(rows, t, false), FontStyle("italic"), s);
    }
    assert AllAllowed(bold, s) && AllAllowed(italic, s);
    AllAllowedConcat(bold, italic, s);
    AllAllowedConcat(bold + italic, op, s);
  }

  lemma ExactAllowed(p: string, s: Style)
    ensures AllAllowed(ExactSection(p, s), s)
  {
    ColourAllowed(FolderTitle, PathIs(p), s);
    ColourAllowed(FileTitle, PathIs(p), s);
    FontAndOpacityAllowed([FolderTitle, FileTitle], PathIs(p), s);
  }

  lemma CascadeAllowed(row: Row, p: string, s: Style)
    ensures AllAllowed(CascadeSection(row, p, s), s)
  {
    ColourAllowed(row, PathUnder(p), s);
    FontAndOpacityAllowed([row], PathUnder(p), s);
  }

  lemma PreviewDeclarationsAllowed(bg: string, s: Style)
    requires TruthyText(s.backgroundColor) && bg == s.backgroundColor.value
    ensures forall d :: d in PreviewDeclarations(bg, s) ==> Allowed(s, d)
  {
    var text := if TruthyText(s.textColor) then [TextColor(s.textColor.value)] else [];
    var bold := if TruthyFlag(s.isBold) then [FontWeight("bold")] else [];
    var italic := if TruthyFlag(s.isItalic) then [FontStyle("italic")] else [];
    var op := if s.opacity.Some? then [Opacity(s.opacity.value)] else [];
    var ds := PreviewDeclarations(bg, s);
    assert ds == [BackgroundColor(bg)] + text + bold + italic + op;
    forall d | d in ds ensures Allowed(s, d) {
      if d in text {
      } else if d in bold {
      } else if d in italic {
      } else if d in op {
      } else {
        assert d == BackgroundColor(bg);
      }
    }
  }

  lemma PreviewHoverAllowed(m: Mode, bg: string, s: Style)
    requires TruthyText(s.backgroundColor) && bg == s.backgroundColor.value
    ensures forall d :: d in PreviewHoverDeclarations(m, bg, s) ==> Allowed(s, d)
  {
  }

  lemma PreviewAllowed(p: string, s: Style)
    ensures AllAllowed(PreviewSection(p, s), s)
  {
    if TruthyText(s.backgroundColor) {
      PreviewDeclarationsAllowed(s.backgroundColor.value, s);
      PreviewHoverAllowed(Light, s.backgroundColor.value, s);
      PreviewHoverAllowed(Dark, s.backgroundColor.value, s);
      var bs := PreviewSection(p, s);
      assert forall b :: b in bs ==> b == bs[0] || b == bs[1] || b == bs[2];
    }
  }

  /** Nothing an entry emits comes from a field the style leaves unset or
      falsy: no hover tint without a background, no weight unless `isBold`
      is `true`, no slant unless `isItalic` is `true`, and so on. */
  lemma EntryAllowed(p: string, s: Style)
    ensures AllAllowed(EntryBlocks(p, s), s)
  {
    ExactAllowed(p, s);
    CascadeAllowed(FolderTitle, p, s);
    CascadeAllowed(FileTitle, p, s);
    PreviewAllowed(p, s);
  }

  // ---------------------------------------------------------------------
  // The whole sheet.

  lemma PathsConcat(head: seq<Block>, tail: seq<Block>, ks: seq<string>)
    requires ks != []
    requires forall i :: 0 <= i < |head| ==> BlockPath(head[i]) == Some(ks[0])
    requires forall i :: 0 <= i < |tail| ==> BlockPath(tail[i]).Some? && BlockPath(tail[i]).value in ks[1..]
    ensures forall i :: 0 <= i < |head + tail| ==>
              BlockPath((head + tail)[i]).Some? && BlockPath((head + tail)[i]).value in ks
  {
    forall i | 0 <= i < |head + tail|
      ensures BlockPath((head + tail)[i]).Some? && BlockPath((head + tail)[i]).value in ks
    {
      if i < |head| {
        assert (head + tail)[i] == head[i];
      } else {
        assert (head + tail)[i] == tail[i - |head|];
      }
    }
  }

  lemma {:induction false} EntriesPaths(styles: Dict<Style>, ks: seq<string>)
    requires forall k :: k in ks ==> k in styles.keys
    ensures forall i :: 0 <= i < |Entries(styles, ks)| ==>
              BlockPath(Entries(styles, ks)[i]).Some? && BlockPath(Entries(styles, ks)[i]).value in ks
  {
    if ks != [] {
      EntryBlocksAbout(ks[0], styles.values[ks[0]]);
      EntriesPaths(styles, ks[1..]);
      PathsConcat(EntryBlocks(ks[0], styles.values[ks[0]]), Entries(styles, ks[1..]), ks);
    }
  }

  lemma {:induction false} EntriesBlocksAbout(styles: Dict<Style>, ks: seq<string>, k: nat)
    requires forall q :: q in ks ==> q in styles.keys
    requires Distinct(ks) && k < |ks|
    ensures BlocksAbout(Entries(styles, ks), ks[k]) == EntryBlocks(ks[k], styles.values[ks[k]])
  {
    DistinctTail(ks);
    if k == 0 {
      EntriesBlocksAboutFirst(styles, ks);
    } else {
      var p := ks[k];
      var head, tail := EntryBlocks(ks[0], styles.values[ks[0]]), Entries(styles, ks[1..]);
      BlocksAboutConcat(head, tail, p);
      EntryBlocksAbout(ks[0], styles.values[ks[0]]);
      assert ks[0] != p;
      BlocksAboutNone(head, p);
      assert ks[1..][k - 1] == p;
      EntriesBlocksAbout(styles, ks[1..], k - 1);
    }
  }

  lemma EntriesBlocksAboutFirst(styles: Dict<Style>, ks: seq<string>)
    requires forall q :: q in ks ==> q in styles.keys
    requires ks != [] && ks[0] !in ks[1..]
    ensures BlocksAbout(Entries(styles, ks), ks[0]) == EntryBlocks(ks[0], styles.values[ks[0]])
  {
    var p := ks[0];
    var head, tail := EntryBlocks(p, styles.values[p]), Entries(styles, ks[1..]);
    BlocksAboutConcat(head, tail, p);
    EntryBlocksAbout(p, styles.values[p]);
    BlocksAboutAll(head, p);
    EntriesPaths(styles, ks[1..]);
    BlocksAboutNone(tail, p);
  }

  /** Each path's blocks are its own entry's blocks, and a path outside the
      table has none. */
  lemma UpdateStylesPerPath(styles: Dict<Style>, p: string)
    ensures BlocksAbout(UpdateStyles(styles)[1..], p)
            == if p in styles.keys then EntryBlocks(p, styles.values[p]) else []
  {
    assert UpdateStyles(styles)[1..] == Entries(styles, styles.keys);
    if p in styles.keys {
      var k :| 0 <= k < |styles.keys| && styles.keys[k] == p;
      EntriesBlocksAbout(styles, styles.keys, k);
    } else {
      EntriesPaths(styles, styles.keys);
      BlocksAboutNone(Entries(styles, styles.keys), p);
    }
  }

  /** A block about `p` is in the sheet exactly when `p` is in the table
      and its entry emits that block. */
  lemma UpdateStylesHas(styles: Dict<Style>, p: string, b: Block)
    requires BlockPath(b) == Some(p)
    ensures b in UpdateStyles(styles) <==> p in styles.keys && b in EntryBlocks(p, styles.values[p])
  {
    var sheet := UpdateStyles(styles);
    UpdateStylesPerPath(styles, p);
    assert sheet == [sheet[0]] + sheet[1..];
    assert BlockPath(ManagerTransition) == None;
  }

  /** Every block about `p` comes before every block about `q`. */
  ghost predicate Precedes(sheet: seq<Block>, p: string, q: string) {
    forall x, y ::
      (0 <= x < |sheet| && 0 <= y < |sheet| && BlockPath(sheet[x]) == Some(p) && BlockPath(sheet[y]) == Some(q))
      ==> x < y
  }

  lemma PrecedesHead(head: seq<Block>, tail: seq<Block>, p: string, q: string)
    requires forall i :: 0 <= i < |head| ==> BlockPath(head[i]) == Some(p)
    requires forall i :: 0 <= i < |tail| ==> BlockPath(tail[i]) != Some(p)
    requires p != q
    ensures Precedes(head + tail, p, q)
  {
  }

  lemma PrecedesTail(head: seq<Block>, tail: seq<Block>, p: string, q: string)
    requires forall i :: 0 <= i < |head| ==> BlockPath(head[i]) != Some(p) && BlockPath(head[i]) != Some(q)
    requires Precedes(tail, p, q)
    ensures Precedes(head + tail, p, q)
  {
    var out := head + tail;
    forall x, y | 0 <= x < |out| && 0 <= y < |out| && BlockPath(out[x]) == Some(p) && BlockPath(out[y]) == Some(q)
      ensures x < y
    {
      assert out[x] == tail[x - |head|] && out[y] == tail[y - |head|];
    }
  }

  lemma {:induction false} EntriesTableOrder(styles: Dict<Style>, ks: seq<string>)
    requires forall q :: q in ks ==> q in styles.keys
    requires Distinct(ks)
    ensures forall i, j :: 0 <= i < j < |ks| ==> Precedes(Entries(styles, ks), ks[i], ks[j])
  {
    if ks != [] {
      var head, tail := EntryBlocks(ks[0], styles.values[ks[0]]), Entries(styles, ks[1..]);
      DistinctTail(ks);
      EntryBlocksAbout(ks[0], styles.values[ks[0]]);
      EntriesPaths(styles, ks[1..]);
      EntriesTableOrder(styles, ks[1..]);
      forall i, j | 0 <= i < j < |ks| ensures Precedes(head + tail, ks[i], ks[j]) {
        assert ks[j] == ks[1..][j - 1];
        if i == 0 {
          PrecedesHead(head, tail, ks[0], ks[j]);
        } else {
          assert ks[i] == ks[1..][i - 1];
          PrecedesTail(head, tail, ks[i], ks[j]);
        }
      }
    }
  }

  /** Table order, not path length, decides emission order
      (src/core/StyleManager.ts:23): every block of an earlier table entry
      precedes every block of a later one. */
  lemma UpdateStylesTableOrder(styles: Dict<Style>)
    ensures forall i, j :: 0 <= i < j < |styles.keys| ==>
              Precedes(UpdateStyles(styles), styles.keys[i], styles.keys[j])
  {
    var ks := styles.keys;
    EntriesTableOrder(styles, ks);
    forall i, j | 0 <= i < j < |ks| ensures Precedes(UpdateStyles(styles), ks[i], ks[j]) {
      PrecedesTail([ManagerTransition], Entries(styles, ks), ks[i], ks[j]);
    }
  }

  // ---------------------------------------------------------------------
  // Field by field.

  /** An entry emits nothing at all exactly when none of its fields would
      produce a declaration; the cascade flags alone produce nothing. */
  lemma EntryEmpty(p: string, s: Style)
    ensures EntryBlocks(p, s) == [] <==> !RuleCompiler.HasPayload(s)
  {
    if RuleCompiler.HasPayload(s) {
      assert ExactSection(p, s) != [];
    }
  }

  /** A background colour gives each of the two row kinds a plain block and
      a hover block per theme, 20% white in the light theme and 20% black in
      the dark one, mixed over that colour; without one there are none
      (src/core/StyleManager.ts:27-43, 55-71). */
  lemma EntryBackground(p: string, s: Style, row: Row, m: Mode, c: string)
    requires row == FolderTitle || row == FileTitle
    ensures Block([Plain(row, PathIs(p))], [BackgroundColor(c)], true) in EntryBlocks(p, s)
            <==> TruthyText(s.backgroundColor) && c == s.backgroundColor.value
    ensures Block([Themed(m, row, PathIs(p))], [BackgroundMix(HoverTone(m), 20, c)], true) in EntryBlocks(p, s)
            <==> TruthyText(s.backgroundColor) && c == s.backgroundColor.value
  {
    EntryAllowed(p, s);
    var plain := Block([Plain(row, PathIs(p))], [BackgroundColor(c)], true);
    var hover := Block([Themed(m, row, PathIs(p))], [BackgroundMix(HoverTone(m), 20, c)], true);
    if plain in EntryBlocks(p, s) {
      assert BackgroundColor(c) in plain.declarations;
    }
    if hover in EntryBlocks(p, s) {
      assert BackgroundMix(HoverTone(m), 20, c) in hover.declarations;
    }
    if TruthyText(s.backgroundColor) && c == s.backgroundColor.value {
      assert plain in BackgroundGroup(row, PathIs(p), c);
      assert hover in BackgroundGroup(row, PathIs(p), c) by {
        if m == Light { assert hover == BackgroundGroup(row, PathIs(p), c)[1]; }
        else { assert hover == BackgroundGroup(row, PathIs(p), c)[2]; }
      }
      assert plain in ColourBlocks(row, PathIs(p), s) && hover in ColourBlocks(row, PathIs(p), s);
      assert plain in ExactSection(p, s) && hover in ExactSection(p, s);
      ExactInEntry(p, s, plain);
      ExactInEntry(p, s, hover);
    }
  }

  /** The same statement about the sheet itself, for a path in the table. */
  lemma UpdateStylesBackground(styles: Dict<Style>, p: string, row: Row, m: Mode, c: string)
    requires p in styles.keys
    requires row == FolderTitle || row == FileTitle
    ensures Block([Themed(m, row, PathIs(p))], [BackgroundMix(HoverTone(m), 20, c)], true) in UpdateStyles(styles)
            <==> TruthyText(styles.values[p].backgroundColor) && c == styles.values[p].backgroundColor.value
  {
    UpdateStylesHas(styles, p, Block([Themed(m, row, PathIs(p))], [BackgroundMix(HoverTone(m), 20, c)], true));
    EntryBackground(p, styles.values[p], row, m, c);
  }

  /** The text-colour block reaches the row at rest and hovered alike, in
      either theme (src/core/StyleManager.ts:45-52). */
  lemma TextBlockReach(row: Row, p: string, c: string, e: Element)
    ensures BlockMatches(TextBlock(row, PathIs(p), c), e) <==> e.row == row && e.path == p
  {
    if e.row == row && e.path == p {
      assert SelectorMatches(TextBlock(row, PathIs(p), c).selectors[0], e);
    }
  }

  /** A text colour is emitted for both row kinds of the path exactly when
      it is a non-empty string. */
  lemma EntryText(p: string, s: Style, row: Row, c: string)
    requires row == FolderTitle || row == FileTitle
    ensures TextBlock(row, PathIs(p), c) in EntryBlocks(p, s) <==> TruthyText(s.textColor) && c == s.textColor.value
  {
    EntryAllowed(p, s);
    if TextBlock(row, PathIs(p), c) in EntryBlocks(p, s) {
      assert TextColor(c) in TextBlock(row, PathIs(p), c).declarations;
    }
    if TruthyText(s.textColor) && c == s.textColor.value {
      assert TextBlock(row, PathIs(p), c) in ColourBlocks(row, PathIs(p), s);
      assert TextBlock(row, PathIs(p), c) in ExactSection(p, s);
    }
  }

  /** Weight and slant appear only for a flag that is `true`: `false` and
      unset both give nothing (src/core/StyleManager.ts:83-99). When the
      flag is `true` one block carries it over both row kinds. */
  lemma EntryBoldItalic(p: string, s: Style)
    ensures (exists b :: b in EntryBlocks(p, s) && FontWeight("bold") in b.declarations) <==> TruthyFlag(s.isBold)
    ensures (exists b :: b in EntryBlocks(p, s) && FontStyle("italic") in b.declarations) <==> TruthyFlag(s.isItalic)
    ensures TruthyFlag(s.isBold) ==>
              Block([Plain(FolderTitle, PathIs(p)), Plain(FileTitle, PathIs(p))], [FontWeight("bold")], true) in EntryBlocks(p, s)
    ensures TruthyFlag(s.isItalic) ==>
              Block([Plain(FolderTitle, PathIs(p)), Plain(FileTitle, PathIs(p))], [FontStyle("italic")], true) in EntryBlocks(p, s)
  {
    EntryAllowed(p, s);
    AllowedFonts(EntryBlocks(p, s), s);
    ExactFont(p, s);
    var bs := [Plain(FolderTitle, PathIs(p)), Plain(FileTitle, PathIs(p))];
    if TruthyFlag(s.isBold) {
      var b := Block(bs, [FontWeight("bold")], true);
      ExactInEntry(p, s, b);
      assert FontWeight("bold") in b.declarations;
    }
    if TruthyFlag(s.isItalic) {
      var b := Block(bs, [FontStyle("italic")], true);
      ExactInEntry(p, s, b);
      assert FontStyle("italic") in b.declarations;
    }
  }

  lemma AllowedFonts(bs: seq<Block>, s: Style)
    requires AllAllowed(bs, s)
    ensures (exists b :: b in bs && FontWeight("bold") in b.declarations) ==> TruthyFlag(s.isBold)
    ensures (exists b :: b in bs && FontStyle("italic") in b.declarations) ==> TruthyFlag(s.isItalic)
  {
    if exists b :: b in bs && FontWeight("bold") in b.declarations {
      var b :| b in bs && FontWeight("bold") in b.declarations;
      assert Allowed(s, FontWeight("bold"));
    }
    if exists b :: b in bs && FontStyle("italic") in b.declarations {
      var b :| b in bs && FontStyle("italic") in b.declarations;
      assert Allowed(s, FontStyle("italic"));
    }
  }

  lemma ExactInEntry(p: string, s: Style, b: Block)
    requires b in ExactSection(p, s)
    ensures b in EntryBlocks(p, s)
  {
  }

  lemma CascadeInEntry(row: Row, p: string, s: Style, b: Block)
    requires (row == FolderTitle && TruthyFlag(s.applyToSubfolders)) || (row == FileTitle && TruthyFlag(s.applyToFiles))
    requires b in CascadeSection(row, p, s)
    ensures b in EntryBlocks(p, s)
  {
  }

  lemma ExactFont(p: string, s: Style)
    ensures TruthyFlag(s.isBold) ==>
              Block([Plain(FolderTitle, PathIs(p)), Plain(FileTitle, PathIs(p))], [FontWeight("bold")], true) in ExactSection(p, s)
    ensures TruthyFlag(s.isItalic) ==>
              Block([Plain(FolderTitle, PathIs(p)), Plain(FileTitle, PathIs(p))], [FontStyle("italic")], true) in ExactSection(p, s)
  {
    var both := [FolderTitle, FileTitle];
    assert RowSelectors(both, PathIs(p), false) == [Plain(FolderTitle, PathIs(p)), Plain(FileTitle, PathIs(p))];
    var fo := FontAndOpacityBlocks(both, PathIs(p), s);
    if TruthyFlag(s.isBold) {
      assert Block(RowSelectors(both, PathIs(p), false), [FontWeight("bold")], true) in fo;
    }
    if TruthyFlag(s.isItalic) {
      assert Block(RowSelectors(both, PathIs(p), false), [FontStyle("italic")], true) in fo;
    }
    FontInExact(p, s);
  }

  lemma FontInExact(p: string, s: Style)
    ensures forall b :: b in FontAndOpacityBlocks([FolderTitle, FileTitle], PathIs(p), s) ==> b in ExactSection(p, s)
  {
  }

  /** A stored opacity, 0 included, is emitted for the path's rows at rest,
      and raised to `min(1, o + 0.15)` on hover; without one no opacity is
      emitted at all (src/core/StyleManager.ts:101-112). */
  lemma EntryOpacity(p: string, s: Style)
    ensures (exists b, d :: b in EntryBlocks(p, s) && d in b.declarations && d.Opacity?) <==> s.opacity.Some?
    ensures s.opacity.Some? ==>
              && Block([Plain(FolderTitle, PathIs(p)), Plain(FileTitle, PathIs(p))], [Opacity(s.opacity.value)], true)
                 in EntryBlocks(p, s)
              && Block([Hovered(FolderTitle, PathIs(p)), Hovered(FileTitle, PathIs(p))],
                       [Opacity(HoverOpacity(s.opacity.value))], true) in EntryBlocks(p, s)
  {
    forall b, d | b in EntryBlocks(p, s) && d in b.declarations && d.Opacity?
      ensures s.opacity.Some?
    {
      EntryAllowed(p, s);
      assert Allowed(s, d);
    }
    if s.opacity.Some? {
      var o := s.opacity.value;
      OpacityPresent(p, s, o);
      var b := Block([Plain(FolderTitle, PathIs(p)), Plain(FileTitle, PathIs(p))], [Opacity(o)], true);
      var d := Opacity(o);
      assert b in EntryBlocks(p, s) && d in b.declarations && d.Opacity?;
    }
  }

  lemma OpacityPresent(p: string, s: Style, o: real)
    requires s.opacity == Some(o)
    ensures Block([Plain(FolderTitle, PathIs(p)), Plain(FileTitle, PathIs(p))], [Opacity(o)], true) in EntryBlocks(p, s)
    ensures Block([Hovered(FolderTitle, PathIs(p)), Hovered(FileTitle, PathIs(p))], [Opacity(HoverOpacity(o))], true)
            in EntryBlocks(p, s)
  {
    var both := [FolderTitle, FileTitle];
    assert RowSelectors(both, PathIs(p), false) == [Plain(FolderTitle, PathIs(p)), Plain(FileTitle, PathIs(p))];
    assert RowSelectors(both, PathIs(p), true) == [Hovered(FolderTitle, PathIs(p)), Hovered(FileTitle, PathIs(p))];
    var g := OpacityGroup(both, PathIs(p), o);
    var fo := FontAndOpacityBlocks(both, PathIs(p), s);
    assert fo == fo[..|fo| - 2] + g;
    assert g[0] in fo && g[1] in fo;
    assert g[0] in ExactSection(p, s) && g[1] in ExactSection(p, s);
  }

  /** A cascade to sub-folders exists exactly when the flag is `true` and
      the style has a payload; likewise for files. */
  lemma EntryCascade(p: string, s: Style)
    ensures (exists b, sel :: b in EntryBlocks(p, s) && sel in b.selectors && sel.test == PathUnder(p) && sel.row == FolderTitle)
            <==> TruthyFlag(s.applyToSubfolders) && RuleCompiler.HasPayload(s)
    ensures (exists b, sel :: b in EntryBlocks(p, s) && sel in b.selectors && sel.test == PathUnder(p) && sel.row == FileTitle)
            <==> TruthyFlag(s.applyToFiles) && RuleCompiler.HasPayload(s)
  {
    EntryEmpty(p, s);
    forall b, sel | b in EntryBlocks(p, s) && sel in b.selectors && sel.test == PathUnder(p)
      ensures (sel.row == FolderTitle ==> TruthyFlag(s.applyToSubfolders))
      ensures (sel.row == FileTitle ==> TruthyFlag(s.applyToFiles))
    {
      EntrySelectors(p, s, b, sel);
    }
    if RuleCompiler.HasPayload(s) {
      if TruthyFlag(s.applyToSubfolders) {
        CascadeWitness(FolderTitle, p, s);
      }
      if TruthyFlag(s.applyToFiles) {
        CascadeWitness(FileTitle, p, s);
      }
    }
  }

  lemma CascadeWitness(row: Row, p: string, s: Style)
    requires RuleCompiler.HasPayload(s)
    requires (row == FolderTitle && TruthyFlag(s.applyToSubfolders)) || (row == FileTitle && TruthyFlag(s.applyToFiles))
    ensures exists b, sel :: b in EntryBlocks(p, s) && sel in b.selectors && sel.test == PathUnder(p) && sel.row == row
  {
    var cs := CascadeSection(row, p, s);
    assert cs != [];
    CascadeTargets(row, p, s);
    var b := cs[0];
    assert b in cs;
    var sel := b.selectors[0];
    assert sel in b.selectors;
    CascadeInEntry(row, p, s, b);
    assert sel.test in {PathUnder(p)} && sel.row in {row};
    assert b in EntryBlocks(p, s) && sel in b.selectors && sel.test == PathUnder(p) && sel.row == row;
  }

  /** The plain preview block lists the same declarations, in the same
      order, as the src/main.ts compiler gives the path. */
  lemma PreviewMatchesDeclarations(s: Style)
    requires TruthyText(s.backgroundColor)
    ensures PreviewDeclarations(s.backgroundColor.value, s) == RuleCompiler.Declarations(s)
  {
  }

  /** Preview-item blocks exist exactly when a background is set
      (src/core/StyleManager.ts:229-251), and then the plain one carries
      every field the style sets. */
  lemma EntryPreview(p: string, s: Style)
    ensures (exists b, sel :: b in EntryBlocks(p, s) && sel in b.selectors && sel.row == PreviewItem)
            <==> TruthyText(s.backgroundColor)
    ensures TruthyText(s.backgroundColor) ==>
              Block([Plain(PreviewItem, PathIs(p))], RuleCompiler.Declarations(s), true) in EntryBlocks(p, s)
  {
    forall b, sel | b in EntryBlocks(p, s) && sel in b.selectors && sel.row == PreviewItem
      ensures TruthyText(s.backgroundColor)
    {
      EntrySelectors(p, s, b, sel);
    }
    if TruthyText(s.backgroundColor) {
      PreviewMatchesDeclarations(s);
      var b := Block([Plain(PreviewItem, PathIs(p))], RuleCompiler.Declarations(s), true);
      assert b == PreviewSection(p, s)[0];
      assert b in EntryBlocks(p, s);
      assert Plain(PreviewItem, PathIs(p)) in b.selectors;
    }
  }
}
