/** The stylesheet compiler of the current plugin entry point,
    `updateStyles` in src/main.ts, together with the part it shares with the
    older compiler of the root main.ts: turning one table entry, once its
    declaration list is known, into an exact-path block and up to two cascade
    blocks, and concatenating the entries in sorted-path order. */
module RuleCompiler {
  import opened Wrappers
  import opened Seqs
  import opened Dicts
  import opened Styles
  import opened Css
  import opened PathOrder

  /** One table entry ready for emission: the declarations its fields ask
      for and whether it cascades to sub-folders and to files. */
  datatype PathRule = PathRule(path: string, declarations: seq<Declaration>,
                               toSubfolders: bool, toFiles: bool)

  /** `.nav-folder-title, .nav-file-title { transition: … 0.2s … }`, the block
      every sheet of the current plugin starts with. */
  const BaseTransition := Block([Plain(FolderTitle, AnyPath), Plain(FileTitle, AnyPath)],
                                [Transition([BackgroundColorChange, ColorChange, OpacityChange], 0.2)],
                                false)

  /** The exact-path block: folder and file rows whose path is `p`. */
  function ExactBlock(p: string, ds: seq<Declaration>): Block {
    Block([Plain(FolderTitle, PathIs(p)), Plain(FileTitle, PathIs(p))], ds, false)
  }

  /** The sub-folder cascade block: folder rows under `p + "/"`. */
  function SubfolderBlock(p: string, ds: seq<Declaration>): Block {
    Block([Plain(FolderTitle, PathUnder(p))], ds, false)
  }

  /** The file cascade block: file rows under `p + "/"`. */
  function FilesBlock(p: string, ds: seq<Declaration>): Block {
    Block([Plain(FileTitle, PathUnder(p))], ds, false)
  }

  /** Each block kind is about the path it was built for. */
  lemma BlockLengths(p: string, ds: seq<Declaration>)
    ensures PathLength(ExactBlock(p, ds)) == JsLength(p)
    ensures PathLength(SubfolderBlock(p, ds)) == JsLength(p)
    ensures PathLength(FilesBlock(p, ds)) == JsLength(p)
  {
  }

  /** Which rows each block kind reaches. The exact block covers both row
      kinds of exactly one path; each cascade block covers one row kind and
      only strict descendants. */
  lemma BlockReach(p: string, ds: seq<Declaration>, e: Element)
    ensures BlockMatches(ExactBlock(p, ds), e) <==> e.path == p && e.row != PreviewItem
    ensures BlockMatches(SubfolderBlock(p, ds), e) <==> e.row == FolderTitle && p + "/" <= e.path
    ensures BlockMatches(FilesBlock(p, ds), e) <==> e.row == FileTitle && p + "/" <= e.path
  {
    var ex := ExactBlock(p, ds);
    if e.path == p && e.row != PreviewItem {
      if e.row == FolderTitle {
        assert SelectorMatches(ex.selectors[0], e);
      } else {
        assert SelectorMatches(ex.selectors[1], e);
      }
    }
    if BlockMatches(SubfolderBlock(p, ds), e) {
      assert SelectorMatches(SubfolderBlock(p, ds).selectors[0], e);
    }
    if e.row == FolderTitle && p + "/" <= e.path {
      assert SelectorMatches(SubfolderBlock(p, ds).selectors[0], e);
    }
    if BlockMatches(FilesBlock(p, ds), e) {
      assert SelectorMatches(FilesBlock(p, ds).selectors[0], e);
    }
    if e.row == FileTitle && p + "/" <= e.path {
      assert SelectorMatches(FilesBlock(p, ds).selectors[0], e);
    }
  }

  /** The current style fields that produce a declaration. */
  predicate HasPayload(s: Style) {
    TruthyText(s.backgroundColor) || TruthyText(s.textColor)
    || TruthyFlag(s.isBold) || TruthyFlag(s.isItalic) || s.opacity.Some?
  }

  /** What a style asks for, declaration by declaration: a colour only when
      it is a non-empty string, bold and italic only when `true`, and an
      opacity whenever one is stored, 0 included. */
  predicate Requests(s: Style, d: Declaration) {
    match d
    case BackgroundColor(c) => TruthyText(s.backgroundColor) && c == s.backgroundColor.value
    case TextColor(c) => TruthyText(s.textColor) && c == s.textColor.value
    case FontWeight(w) => TruthyFlag(s.isBold) && w == "bold"
    case FontStyle(w) => TruthyFlag(s.isItalic) && w == "italic"
    case Opacity(o) => s.opacity == Some(o)
    case _ => false
  }

  /** The declaration list of one style (src/main.ts:106-111), in the order
      background, colour, weight, slant, opacity. */
  function Declarations(s: Style): (ds: seq<Declaration>)
    ensures forall d :: d in ds <==> Requests(s, d)
    ensures ds == [] <==> !HasPayload(s)
  {
    var bg := if TruthyText(s.backgroundColor) then [BackgroundColor(s.backgroundColor.value)] else [];
    var fg := if TruthyText(s.textColor) then [TextColor(s.textColor.value)] else [];
    var wt := if TruthyFlag(s.isBold) then [FontWeight("bold")] else [];
    var st := if TruthyFlag(s.isItalic) then [FontStyle("italic")] else [];
    var op := if s.opacity.Some? then [Opacity(s.opacity.value)] else [];
    var ds := bg + fg + wt + st + op;
    forall d ensures d in ds <==> Requests(s, d) {
      assert d in ds <==> d in bg || d in fg || d in wt || d in st || d in op;
    }
    assert ds == [] <==> bg == [] && fg == [] && wt == [] && st == [] && op == [];
    ds
  }

  /** The blocks of one entry (src/main.ts:113-125): nothing when the
      declaration list is empty, otherwise the exact block followed by the
      cascade blocks its flags ask for, all with the same declarations. */
  function PathBlocks(r: PathRule): (bs: seq<Block>)
    ensures ExactBlock(r.path, r.declarations) in bs <==> r.declarations != []
    ensures SubfolderBlock(r.path, r.declarations) in bs <==> r.declarations != [] && r.toSubfolders
    ensures FilesBlock(r.path, r.declarations) in bs <==> r.declarations != [] && r.toFiles
    ensures forall b :: b in bs ==>
              || b == ExactBlock(r.path, r.declarations)
              || b == SubfolderBlock(r.path, r.declarations)
              || b == FilesBlock(r.path, r.declarations)
    ensures forall i :: 0 <= i < |bs| ==> BlockPath(bs[i]) == Some(r.path)
    ensures bs != [] ==> bs[0] == ExactBlock(r.path, r.declarations)
    ensures Distinct(bs)
  {
    var p, ds := r.path, r.declarations;
    if ds == [] then []
    else
      var bs := [ExactBlock(p, ds)]
        + (if r.toSubfolders then [SubfolderBlock(p, ds)] else [])
        + (if r.toFiles then [FilesBlock(p, ds)] else []);
      assert r.toSubfolders ==> SubfolderBlock(p, ds) in bs;
      assert r.toFiles ==> FilesBlock(p, ds) in bs;
      bs
  }

  function PathsOf(rules: seq<PathRule>): (ps: seq<string>)
    ensures |ps| == |rules|
    ensures forall i :: 0 <= i < |rules| ==> ps[i] == rules[i].path
  {
    if rules == [] then [] else [rules[0].path] + PathsOf(rules[1..])
  }

  /** The blocks of all entries, entry after entry. */
  function EmitAll(rules: seq<PathRule>): seq<Block> {
    if rules == [] then [] else PathBlocks(rules[0]) + EmitAll(rules[1..])
  }

  /** The `.length` of the path a block is about (0 for a block about
      none). */
  function PathLength(b: Block): nat {
    if BlockPath(b).Some? then JsLength(BlockPath(b).value) else 0
  }

  /** Every emitted block is about one of the entries' paths. */
  lemma {:induction false} EmitAllPaths(rules: seq<PathRule>)
    ensures forall i :: 0 <= i < |EmitAll(rules)| ==>
              BlockPath(EmitAll(rules)[i]).Some? && BlockPath(EmitAll(rules)[i]).value in PathsOf(rules)
  {
    if rules != [] {
      EmitAllPaths(rules[1..]);
      var head, tail := PathBlocks(rules[0]), EmitAll(rules[1..]);
      forall i | 0 <= i < |head + tail|
        ensures BlockPath((head + tail)[i]).Some? && BlockPath((head + tail)[i]).value in PathsOf(rules)
      {
        if i < |head| {
          assert (head + tail)[i] == head[i];
          assert PathsOf(rules)[0] == rules[0].path;
        } else {
          assert (head + tail)[i] == tail[i - |head|];
          var q := BlockPath(tail[i - |head|]).value;
          var k :| 0 <= k < |PathsOf(rules[1..])| && PathsOf(rules[1..])[k] == q;
          assert PathsOf(rules)[k + 1] == q;
        }
      }
    }
  }

  lemma EmitAllCons(rules: seq<PathRule>)
    requires rules != []
    ensures EmitAll(rules) == PathBlocks(rules[0]) + EmitAll(rules[1..])
    ensures PathsOf(rules) == [rules[0].path] + PathsOf(rules[1..])
  {
  }

  /** The first entry's blocks are all there is about its path when no
      later entry shares it. */
  lemma EmitAllBlocksAboutFirst(rules: seq<PathRule>)
    requires rules != [] && rules[0].path !in PathsOf(rules[1..])
    ensures BlocksAbout(EmitAll(rules), rules[0].path) == PathBlocks(rules[0])
  {
    var p := rules[0].path;
    var head, tail := PathBlocks(rules[0]), EmitAll(rules[1..]);
    EmitAllCons(rules);
    BlocksAboutConcat(head, tail, p);
    BlocksAboutAll(head, p);
    EmitAllPaths(rules[1..]);
    BlocksAboutNone(tail, p);
  }

  /** With distinct paths, the blocks about one entry's path are exactly the
      blocks that entry produced: no other entry contributes to them and no
      entry is emitted twice. */
  lemma {:induction false} EmitAllBlocksAbout(rules: seq<PathRule>, k: nat)
    requires Distinct(PathsOf(rules))
    requires k < |rules|
    ensures BlocksAbout(EmitAll(rules), rules[k].path) == PathBlocks(rules[k])
  {
    EmitAllCons(rules);
    DistinctCons(rules[0].path, PathsOf(rules[1..]));
    if k == 0 {
      EmitAllBlocksAboutFirst(rules);
    } else {
      var p := rules[k].path;
      var head, tail := PathBlocks(rules[0]), EmitAll(rules[1..]);
      assert rules[0].path != p by {
        assert PathsOf(rules)[0] == rules[0].path && PathsOf(rules)[k] == p;
      }
      BlocksAboutConcat(head, tail, p);
      BlocksAboutNone(head, p);
      EmitAllBlocksAbout(rules[1..], k - 1);
    }
  }

  /** A path that no entry has gets no block. */
  lemma {:induction false} EmitAllNothingAbout(rules: seq<PathRule>, p: string)
    requires p !in PathsOf(rules)
    ensures BlocksAbout(EmitAll(rules), p) == []
  {
    EmitAllPaths(rules);
    BlocksAboutNone(EmitAll(rules), p);
  }

  /** Entries sorted longest path first give blocks sorted the same way. */
  lemma {:induction false} EmitAllLongestFirst(rules: seq<PathRule>)
    requires LongestFirst(PathsOf(rules))
    ensures forall i, j :: 0 <= i < j < |EmitAll(rules)| ==>
              PathLength(EmitAll(rules)[i]) >= PathLength(EmitAll(rules)[j])
  {
    if rules != [] {
      var head, tail := PathBlocks(rules[0]), EmitAll(rules[1..]);
      var out := head + tail;
      assert PathsOf(rules) == [rules[0].path] + PathsOf(rules[1..]);
      assert LongestFirst(PathsOf(rules[1..])) by {
        forall i, j | 0 <= i < j < |PathsOf(rules[1..])|
          ensures JsLength(PathsOf(rules[1..])[i]) >= JsLength(PathsOf(rules[1..])[j])
        {
          assert PathsOf(rules)[i + 1] == PathsOf(rules[1..])[i];
          assert PathsOf(rules)[j + 1] == PathsOf(rules[1..])[j];
        }
      }
      EmitAllLongestFirst(rules[1..]);
      EmitAllPaths(rules[1..]);
      forall j | 0 <= j < |tail| ensures PathLength(tail[j]) <= JsLength(rules[0].path) {
        var q := BlockPath(tail[j]).value;
        var m :| 0 <= m < |PathsOf(rules[1..])| && PathsOf(rules[1..])[m] == q;
        assert PathsOf(rules)[m + 1] == q;
        assert PathsOf(rules)[0] == rules[0].path;
      }
      ConcatLongestFirst(head, tail, JsLength(rules[0].path));
    }
  }

  /** Blocks all about paths of one length, followed by blocks sorted
      longest first about paths no longer, are sorted longest first. */
  lemma ConcatLongestFirst(head: seq<Block>, tail: seq<Block>, n: nat)
    requires forall i :: 0 <= i < |head| ==> PathLength(head[i]) == n
    requires forall j :: 0 <= j < |tail| ==> PathLength(tail[j]) <= n
    requires forall i, j :: 0 <= i < j < |tail| ==> PathLength(tail[i]) >= PathLength(tail[j])
    ensures forall i, j :: 0 <= i < j < |head + tail| ==>
              PathLength((head + tail)[i]) >= PathLength((head + tail)[j])
  {
    var out := head + tail;
    forall i, j | 0 <= i < j < |out| ensures PathLength(out[i]) >= PathLength(out[j]) {
      if j < |head| {
        assert out[i] == head[i] && out[j] == head[j];
      } else if i < |head| {
        assert out[i] == head[i] && out[j] == tail[j - |head|];
      } else {
        assert out[i] == tail[i - |head|] && out[j] == tail[j - |head|];
      }
    }
  }

  /** The entry of path `p` (src/main.ts:102-111). */
  function RuleOf(p: string, s: Style): PathRule {
    PathRule(p, Declarations(s), TruthyFlag(s.applyToSubfolders), TruthyFlag(s.applyToFiles))
  }

  function Rules(styles: Dict<Style>, ps: seq<string>): (rules: seq<PathRule>)
    requires forall p :: p in ps ==> p in styles.keys
    ensures PathsOf(rules) == ps
    ensures forall i :: 0 <= i < |ps| ==> rules[i] == RuleOf(ps[i], styles.values[ps[i]])
  {
    if ps == [] then []
    else [RuleOf(ps[0], styles.values[ps[0]])] + Rules(styles, ps[1..])
  }

  /** The paths in visiting order: the table's keys sorted by
      `b.length - a.length`. */
  function SortedPaths(keys: seq<string>): seq<string> {
    SortByLengthDesc(keys)
  }

  /** What the sort guarantees of the visiting order: the table's paths,
      each once, longest first. */
  lemma SortedPathsFacts(keys: seq<string>)
    requires Distinct(keys)
    ensures multiset(SortedPaths(keys)) == multiset(keys)
    ensures Distinct(SortedPaths(keys))
    ensures LongestFirst(SortedPaths(keys))
    ensures forall p :: p in SortedPaths(keys) <==> p in keys
  {
    SortByLengthDescCorrect(keys);
    PermutationDistinct(keys, SortByLengthDesc(keys));
    assert forall p :: p in SortByLengthDesc(keys) <==> p in multiset(keys);
  }

  /** `updateStyles` of src/main.ts as one expression: the base block, then
      every entry's blocks, longest path first. */
  function UpdateStyles(styles: Dict<Style>): (sheet: seq<Block>)
    ensures |sheet| >= 1 && sheet[0] == BaseTransition
  {
    SortedPathsFacts(styles.keys);
    [BaseTransition] + EmitAll(Rules(styles, SortedPaths(styles.keys)))
  }

  /** The blocks about each path are decided by that path's own style alone:
      the blocks `PathBlocks` gives for it when it is in the table, none when
      it is not. */
  lemma UpdateStylesPerPath(styles: Dict<Style>, p: string)
    ensures BlocksAbout(UpdateStyles(styles)[1..], p)
            == if p in styles.keys then PathBlocks(RuleOf(p, styles.values[p])) else []
  {
    var ps := SortedPaths(styles.keys);
    SortedPathsFacts(styles.keys);
    var rules := Rules(styles, ps);
    assert UpdateStyles(styles)[1..] == EmitAll(rules);
    if p in styles.keys {
      var k :| 0 <= k < |ps| && ps[k] == p;
      EmitAllBlocksAbout(rules, k);
    } else {
      EmitAllNothingAbout(rules, p);
    }
  }

  /** Path blocks come in non-increasing order of path length (src/main.ts:97-98):
      the deepest entries are emitted first. */
  lemma UpdateStylesLongestFirst(styles: Dict<Style>)
    ensures var sheet := UpdateStyles(styles);
            forall i, j :: 1 <= i < j < |sheet| ==> PathLength(sheet[i]) >= PathLength(sheet[j])
  {
    SortedPathsFacts(styles.keys);
    var rules := Rules(styles, SortedPaths(styles.keys));
    EmitAllLongestFirst(rules);
    LongestFirstAfterHead(BaseTransition, EmitAll(rules));
  }

  lemma LongestFirstAfterHead(head: Block, tail: seq<Block>)
    requires forall i, j :: 0 <= i < j < |tail| ==> PathLength(tail[i]) >= PathLength(tail[j])
    ensures var sheet := [head] + tail;
            forall i, j :: 1 <= i < j < |sheet| ==> PathLength(sheet[i]) >= PathLength(sheet[j])
  {
    var sheet := [head] + tail;
    forall i, j | 1 <= i < j < |sheet| ensures PathLength(sheet[i]) >= PathLength(sheet[j]) {
      assert sheet[i] == tail[i - 1] && sheet[j] == tail[j - 1];
    }
  }

  /** What the table entry of `p` contributes to the sheet: an exact block
      iff its style has a payload (cascade flags alone give nothing), a
      cascade block iff there is a payload and the flag is `true`, and all
      of them carry the same declarations. */
  lemma UpdateStylesEntry(styles: Dict<Style>, p: string)
    requires p in styles.keys
    ensures var s, sheet := styles.values[p], UpdateStyles(styles);
            && (ExactBlock(p, Declarations(s)) in sheet <==> HasPayload(s))
            && (SubfolderBlock(p, Declarations(s)) in sheet <==> HasPayload(s) && TruthyFlag(s.applyToSubfolders))
            && (FilesBlock(p, Declarations(s)) in sheet <==> HasPayload(s) && TruthyFlag(s.applyToFiles))
            && (!HasPayload(s) ==> BlocksAbout(sheet[1..], p) == [])
  {
    var s, sheet := styles.values[p], UpdateStyles(styles);
    UpdateStylesPerPath(styles, p);
    var mine := PathBlocks(RuleOf(p, s));
    var ds := Declarations(s);
    forall b | b == ExactBlock(p, ds) || b == SubfolderBlock(p, ds) || b == FilesBlock(p, ds)
      ensures b in sheet <==> b in mine
    {
      if b in sheet {
        var i :| 0 <= i < |sheet| && sheet[i] == b;
        assert i != 0;
        assert b in sheet[1..] by { assert sheet[1..][i - 1] == b; }
      }
      if b in mine {
        assert b in sheet[1..];
      }
    }
  }

  /** Opacity 0 is not "unset": it is emitted (src/main.ts:111). */
  lemma ZeroOpacityEmitted(styles: Dict<Style>, p: string)
    requires p in styles.keys && styles.values[p].opacity == Some(0.0)
    ensures exists b :: b in UpdateStyles(styles) && b == ExactBlock(p, b.declarations)
                        && Opacity(0.0) in b.declarations
  {
    var s := styles.values[p];
    UpdateStylesEntry(styles, p);
    assert ExactBlock(p, Declarations(s)) in UpdateStyles(styles);
  }

  /** The emission order the compiler really produces for nested paths.
      When `a` cascades to sub-folders and `d` is a folder below it with a
      style of its own, every copy of `d`'s exact block precedes `a`'s
      sub-folder block, and both match `d`'s folder row. The two selectors
      have equal specificity and neither is `!important`, so in the browser
      the ancestor's cascade declarations override the descendant's own. */
  lemma AncestorCascadeFollowsOwnBlock(styles: Dict<Style>, a: string, d: string, mode: Mode, hovered: bool)
    requires a in styles.keys && d in styles.keys && a + "/" <= d
    requires HasPayload(styles.values[a]) && TruthyFlag(styles.values[a].applyToSubfolders)
    requires HasPayload(styles.values[d])
    ensures var sheet := UpdateStyles(styles);
            var own := ExactBlock(d, Declarations(styles.values[d]));
            var inherited := SubfolderBlock(a, Declarations(styles.values[a]));
            && own in sheet && inherited in sheet
            && BlockMatches(own, Element(mode, FolderTitle, d, hovered))
            && BlockMatches(inherited, Element(mode, FolderTitle, d, hovered))
            && forall i, j :: 0 <= i < |sheet| && 0 <= j < |sheet| && sheet[i] == own && sheet[j] == inherited ==> i < j
  {
    AncestorBlocksPresent(styles, a, d);
    AncestorBlocksOrder(styles, a, d);
    BlockReach(d, Declarations(styles.values[d]), Element(mode, FolderTitle, d, hovered));
    BlockReach(a, Declarations(styles.values[a]), Element(mode, FolderTitle, d, hovered));
  }

  lemma AncestorBlocksPresent(styles: Dict<Style>, a: string, d: string)
    requires a in styles.keys && d in styles.keys
    requires HasPayload(styles.values[a]) && TruthyFlag(styles.values[a].applyToSubfolders)
    requires HasPayload(styles.values[d])
    ensures ExactBlock(d, Declarations(styles.values[d])) in UpdateStyles(styles)
    ensures SubfolderBlock(a, Declarations(styles.values[a])) in UpdateStyles(styles)
  {
    UpdateStylesEntry(styles, a);
    UpdateStylesEntry(styles, d);
  }

  lemma AncestorBlocksOrder(styles: Dict<Style>, a: string, d: string)
    requires a in styles.keys && d in styles.keys && a + "/" <= d
    ensures var sheet := UpdateStyles(styles);
            var own := ExactBlock(d, Declarations(styles.values[d]));
            var inherited := SubfolderBlock(a, Declarations(styles.values[a]));
            forall i, j :: 0 <= i < |sheet| && 0 <= j < |sheet| && sheet[i] == own && sheet[j] == inherited ==> i < j
  {
    UpdateStylesLongestFirst(styles);
    NestedOrder(UpdateStyles(styles), a, d, Declarations(styles.values[a]), Declarations(styles.values[d]));
  }

  /** In a sheet that opens with the base block and then runs longest path
      first, the exact block of a nested path `d` precedes the cascade
      block of its ancestor `a`. */
  lemma NestedOrder(sheet: seq<Block>, a: string, d: string, da: seq<Declaration>, dd: seq<Declaration>)
    requires |sheet| >= 1 && sheet[0] == BaseTransition
    requires forall i, j :: 1 <= i < j < |sheet| ==> PathLength(sheet[i]) >= PathLength(sheet[j])
    requires a + "/" <= d
    ensures forall i, j ::
              (0 <= i < |sheet| && 0 <= j < |sheet| && sheet[i] == ExactBlock(d, dd) && sheet[j] == SubfolderBlock(a, da))
              ==> i < j
  {
    var own, inherited := ExactBlock(d, dd), SubfolderBlock(a, da);
    BlockLengths(d, dd);
    BlockLengths(a, da);
    assert PathLength(inherited) < PathLength(own) by {
      NestedLonger(a, d);
    }
    assert own.selectors != BaseTransition.selectors && inherited.selectors != BaseTransition.selectors;
    LongerFirst(sheet, own, inherited);
  }

  /** In a sheet whose blocks after the first are sorted longest path
      first, a block about a longer path comes before one about a shorter
      path. */
  lemma LongerFirst(sheet: seq<Block>, own: Block, inherited: Block)
    requires forall i, j :: 1 <= i < j < |sheet| ==> PathLength(sheet[i]) >= PathLength(sheet[j])
    requires PathLength(inherited) < PathLength(own)
    requires sheet != [] && sheet[0] != own && sheet[0] != inherited
    ensures forall i, j :: 0 <= i < |sheet| && 0 <= j < |sheet| && sheet[i] == own && sheet[j] == inherited ==> i < j
  {
    forall i, j | 0 <= i < |sheet| && 0 <= j < |sheet| && sheet[i] == own && sheet[j] == inherited
      ensures i < j
    {
      assert i != 0 && j != 0;
    }
  }

  /** One visit of the loop below (src/main.ts:106-125). */
  method EmitPath(path: string, style: Style) returns (pushed: seq<Block>)
    ensures pushed == PathBlocks(RuleOf(path, style))
  {
    var rules := Declarations(style);
    pushed := [];
    if |rules| > 0 {
      pushed := pushed + [ExactBlock(path, rules)];
      if TruthyFlag(style.applyToSubfolders) {
        pushed := pushed + [SubfolderBlock(path, rules)];
      }
      if TruthyFlag(style.applyToFiles) {
        pushed := pushed + [FilesBlock(path, rules)];
      }
    }
  }

  lemma EmitHead(styles: Dict<Style>, ps: seq<string>)
    requires ps != [] && forall q :: q in ps ==> q in styles.keys
    ensures EmitAll(Rules(styles, ps))
            == PathBlocks(RuleOf(ps[0], styles.values[ps[0]])) + EmitAll(Rules(styles, ps[1..]))
  {
  }

  /** The loop of `updateStyles` (src/main.ts:100-126) over the entries in
      visiting order `ps`: each path is visited once, a `processedPaths` set
      guards against visiting a path twice, and each visit pushes what
      `EmitPath` pushes. Every path ends up processed, whether or not it
      emitted anything. */
  method EmitEntries(styles: Dict<Style>, ps: seq<string>) returns (emitted: seq<Block>, processed: set<string>)
    requires Distinct(ps)
    requires forall q :: q in ps ==> q in styles.keys
    ensures emitted == EmitAll(Rules(styles, ps))
    ensures forall p :: p in processed <==> p in ps
  {
    emitted, processed := [], {};
    var rest := ps;
    while rest != []
      invariant Distinct(rest)
      invariant forall q :: q in rest ==> q in ps
      invariant forall q :: q in processed <==> q in ps && q !in rest
      invariant emitted + EmitAll(Rules(styles, rest)) == EmitAll(Rules(styles, ps))
    {
      var path := rest[0];
      if path !in processed {
        var pushed := EmitPath(path, styles.values[path]);
        EmitHead(styles, rest);
        ConcatAssoc(emitted, pushed, EmitAll(Rules(styles, rest[1..])));
        emitted := emitted + pushed;
        processed := processed + {path};
      } else {
        // paths are distinct, so none is met twice
        assert false;
      }
      DistinctCons(path, rest[1..]);
      assert rest == [path] + rest[1..];
      rest := rest[1..];
    }
    assert EmitAll(Rules(styles, rest)) == [];
  }

  /** `updateStyles` of src/main.ts:85-133 statement by statement: the base
      block, then the entries in sorted order. The result is the sheet
      `UpdateStyles` describes, and every table path ends up processed. */
  method UpdateStylesLoop(styles: Dict<Style>) returns (sheet: seq<Block>, processed: set<string>)
    ensures sheet == UpdateStyles(styles)
    ensures forall p :: p in processed <==> p in styles.keys
  {
    var sorted := SortedPaths(styles.keys);
    SortedPathsFacts(styles.keys);
    var emitted;
    emitted, processed := EmitEntries(styles, sorted);
    sheet := [BaseTransition] + emitted;
  }
}
