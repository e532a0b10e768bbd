/** The stylesheet the compilers produce, as data rather than text.
    A block is a selector list plus declarations; a selector names a kind of
    explorer row (`.nav-folder-title`, `.nav-file-title`, `.preview-item`),
    optionally a theme (`body.theme-light` / `body.theme-dark`), optionally a
    test on the row's `data-path` attribute, and optionally `:hover`.

    Selectors hold the raw path. The source writes `CSS.escape(path)` into
    the attribute test; escaping exists so that the test compares against the
    literal path, and it is injective, so a selector of this datatype
    determines its text and `SelectorMatches` gives its meaning. */
module Css {
  import opened Wrappers

  datatype Row = FolderTitle | FileTitle | PreviewItem

  datatype Mode = Light | Dark

  /** No theme prefix, or `body.theme-light` / `body.theme-dark`. */
  datatype Scope = AllThemes | ThemeOnly(mode: Mode)

  /** No attribute test, `[data-path="p"]`, or `[data-path^="p/"]`. */
  datatype PathTest = AnyPath | PathIs(path: string) | PathUnder(path: string)

  datatype Selector = Selector(scope: Scope, row: Row, test: PathTest, hover: bool)

  datatype Tone = White | Black

  /** The animated properties a `transition` lists. */
  datatype Animated = BackgroundColorChange | ColorChange | OpacityChange

  datatype Declaration =
    | Transition(properties: seq<Animated>, seconds: real)
    | BackgroundColor(color: string)
      /** `color-mix(in srgb, <tone> <percent>%, <base>)` */
    | BackgroundMix(tone: Tone, percent: nat, base: string)
    | TextColor(color: string)
    | FontWeight(weight: string)
    | FontStyle(style: string)
    | Opacity(value: real)

  /** `important` marks every declaration of the block `!important`. */
  datatype Block = Block(selectors: seq<Selector>, declarations: seq<Declaration>, important: bool)

  /** An explorer row in a given theme and hover state. */
  datatype Element = Element(mode: Mode, row: Row, path: string, hovered: bool)

  predicate PathMatches(t: PathTest, path: string) {
    match t
    case AnyPath => true
    case PathIs(p) => path == p
    case PathUnder(p) => p + "/" <= path
  }

  predicate SelectorMatches(s: Selector, e: Element) {
    && (s.scope.AllThemes? || s.scope.mode == e.mode)
    && s.row == e.row
    && PathMatches(s.test, e.path)
    && (s.hover ==> e.hovered)
  }

  predicate BlockMatches(b: Block, e: Element) {
    exists i :: 0 <= i < |b.selectors| && SelectorMatches(b.selectors[i], e)
  }

  /** A plain selector: any theme, no `:hover`. */
  function Plain(row: Row, test: PathTest): Selector {
    Selector(AllThemes, row, test, false)
  }

  /** `<row><test>:hover` in any theme. */
  function Hovered(row: Row, test: PathTest): Selector {
    Selector(AllThemes, row, test, true)
  }

  function PathOfTest(t: PathTest): Option<string> {
    if t.AnyPath? then None else Some(t.path)
  }

  /** The path a block is about: that of its first selector. */
  function BlockPath(b: Block): Option<string> {
    if b.selectors == [] then None else PathOfTest(b.selectors[0].test)
  }

  /** The blocks of a sheet that are about path `p`, in sheet order. */
  function BlocksAbout(sheet: seq<Block>, p: string): (bs: seq<Block>)
    ensures forall b :: b in bs <==> b in sheet && BlockPath(b) == Some(p)
  {
    if sheet == [] then []
    else
      var rest := BlocksAbout(sheet[1..], p);
      assert forall b :: b in sheet <==> b == sheet[0] || b in sheet[1..];
      (if BlockPath(sheet[0]) == Some(p) then [sheet[0]] else []) + rest
  }

  lemma {:induction false} BlocksAboutConcat(a: seq<Block>, b: seq<Block>, p: string)
    ensures BlocksAbout(a + b, p) == BlocksAbout(a, p) + BlocksAbout(b, p)
  {
    if a == [] {
      assert a + b == b;
    } else {
      assert (a + b)[1..] == a[1..] + b;
      BlocksAboutConcat(a[1..], b, p);
    }
  }

  lemma {:induction false} BlocksAboutAll(bs: seq<Block>, p: string)
    requires forall i :: 0 <= i < |bs| ==> BlockPath(bs[i]) == Some(p)
    ensures BlocksAbout(bs, p) == bs
  {
    if bs != [] {
      BlocksAboutAll(bs[1..], p);
      assert bs == [bs[0]] + bs[1..];
    }
  }

  lemma {:induction false} BlocksAboutNone(bs: seq<Block>, p: string)
    requires forall i :: 0 <= i < |bs| ==> BlockPath(bs[i]) != Some(p)
    ensures BlocksAbout(bs, p) == []
  {
    if bs != [] {
      BlocksAboutNone(bs[1..], p);
    }
  }
}
