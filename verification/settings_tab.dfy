/** The settings tab of the current plugin, src/settings/ColorSettingsTab.ts:
    the draft style of "Create new preset", the preset handlers, the
    drag-and-drop reordering of the preset rows and the import of a
    settings file. Every handler maps the settings to an `Outcome`; the
    re-rendering `display` each one ends with touches the settings only
    through `Sync`. */
module SettingsTab {
  import opened Wrappers
  import opened Seqs
  import opened Dicts
  import opened Styles
  import opened Host
  import opened PluginSettings
  import opened PresetOrder
  import ColorUtils

  /** Order and table agree: every preset listed exactly once and nothing
      else listed. */
  ghost predicate Synced(s: Settings) {
    && Distinct(s.presetOrder)
    && (forall n :: n in s.presetOrder <==> n in s.presets.keys)
  }

  // ---------------------------------------------------------------------
  // Reconciliation and the draft.

  /** `syncPresetOrder`, run by the constructor and at the start of every
      `display`: reconcile the order with the preset names, then save. */
  function Sync(s: Settings): (o: Outcome<Settings>)
    ensures o.settings.styles == s.styles && o.settings.presets == s.presets
    ensures forall n :: n in o.settings.presetOrder <==> n in s.presets.keys
    ensures o.effects == SaveSettings(o.settings)
  {
    Saved(s.(presetOrder := SyncPresetOrder(s.presetOrder, s.presets.keys)))
  }

  /** From an order without duplicates, reconciling makes the settings
      synced. */
  lemma SyncEstablishes(s: Settings)
    requires Distinct(s.presetOrder)
    ensures Synced(Sync(s).settings)
  {
    SyncDistinct(s.presetOrder, s.presets.keys);
  }

  /** On synced settings the reconciliation only re-saves: the settings
      come back as they were. */
  lemma SyncFixpoint(s: Settings)
    requires Synced(s)
    ensures Sync(s).settings == s
  {
    SyncKeepsSynced(s.presetOrder, s.presets.keys);
  }

  /** `this.display()` at the end of a handler: it starts with the
      reconcile, whose save comes after the handler's own effects. The
      tables stay as the handler left them and the order ends up listing
      exactly the presets; settings that already agree come back as they
      were. */
  function Redisplay(o: Outcome<Settings>): (r: Outcome<Settings>)
    ensures r.settings.styles == o.settings.styles && r.settings.presets == o.settings.presets
    ensures forall n :: n in r.settings.presetOrder <==> n in o.settings.presets.keys
    ensures Synced(o.settings) ==> r.settings == o.settings
    ensures |r.effects| == |o.effects| + 2 && r.effects[..|o.effects|] == o.effects
    ensures r.effects[|o.effects|..] == SaveSettings(r.settings)
  {
    var synced := Sync(o.settings);
    assert Synced(o.settings) ==> synced.settings == o.settings by {
      if Synced(o.settings) { SyncFixpoint(o.settings); }
    }
    assert (o.effects + synced.effects)[|o.effects|..] == synced.effects;
    Outcome(synced.settings, o.effects + synced.effects)
  }

  // `resetPresetStyle`, also run by the constructor, is `Styles.Reset`.

  /** `/^#[0-9A-Fa-f]{6}$/`, the test a typed hex colour must pass. */
  predicate HexInputAccepted(v: string) {
    |v| == 7 && v[0] == '#' && ColorUtils.AllHexDigits(v[1..])
  }

  datatype ColourField = BackgroundField | TextField

  /** The `change` listener of a hex input: a value that passes the test
      becomes the draft's colour, anything else is ignored. */
  function OnHexInput(draft: Style, field: ColourField, v: string): (r: Style)
    ensures !HexInputAccepted(v) ==> r == draft
    ensures HexInputAccepted(v) && field == BackgroundField ==> r == draft.(backgroundColor := Some(v))
    ensures HexInputAccepted(v) && field == TextField ==> r == draft.(textColor := Some(v))
  {
    if !HexInputAccepted(v) then draft
    else match field
      case BackgroundField => draft.(backgroundColor := Some(v))
      case TextField => draft.(textColor := Some(v))
  }

  /** The input test accepts exactly the colours `hexToRGB` parses that are
      written with their `#`. */
  lemma HexInputParses(v: string)
    ensures HexInputAccepted(v) <==> |v| > 0 && v[0] == '#' && ColorUtils.HexToRgb(v).Ok?
  {
  }

  // ---------------------------------------------------------------------
  // Saving and deleting presets.

  /** The Save button of "Create new preset": on an empty name, or on a
      taken name whose overwrite is declined, nothing happens; otherwise the
      preset becomes a copy of the draft, its name is pushed onto the order
      unless already there, and the settings are saved. */
  function SavePreset(s: Settings, draft: Style, name: string, confirmed: bool): (o: Outcome<Settings>)
    ensures !SaveGoesAhead(s.presets, name, confirmed) ==> o == Unchanged(s)
    ensures SaveGoesAhead(s.presets, name, confirmed) ==>
              && Get(o.settings.presets, name) == Some(draft)
              && (forall k :: k != name ==> Get(o.settings.presets, k) == Get(s.presets, k))
              && o.settings.styles == s.styles
              && (name in s.presetOrder ==> o.settings.presetOrder == s.presetOrder)
              && (name !in s.presetOrder ==> o.settings.presetOrder == s.presetOrder + [name])
              && o.effects == SaveSettings(o.settings)
  {
    if !SaveGoesAhead(s.presets, name, confirmed) then Unchanged(s)
    else
      var order := if name in s.presetOrder then s.presetOrder else s.presetOrder + [name];
      GetAfterPut(s.presets, name, draft);
      Saved(s.(presets := Put(s.presets, name, draft), presetOrder := order))
  }

  /** The trash button of a preset row: the name leaves both the table and
      the order, the other entries keep their places, and nothing else
      changes. */
  function DeletePreset(s: Settings, name: string): (o: Outcome<Settings>)
    ensures Get(o.settings.presets, name) == None && name !in o.settings.presetOrder
    ensures forall k :: k != name ==> Get(o.settings.presets, k) == Get(s.presets, k)
    ensures forall n :: n != name ==> (n in o.settings.presetOrder <==> n in s.presetOrder)
    ensures |o.settings.presetOrder| <= |s.presetOrder|
    ensures name !in s.presetOrder ==> o.settings.presetOrder == s.presetOrder
    ensures forall i :: 0 <= i < |s.presetOrder| && s.presetOrder[i] == name
                        && name !in s.presetOrder[..i] && name !in s.presetOrder[i + 1..] ==>
              o.settings.presetOrder == s.presetOrder[..i] + s.presetOrder[i + 1..]
    ensures name !in s.presets.keys ==> o.settings.presets == s.presets
    ensures forall i :: 0 <= i < |s.presets.keys| && s.presets.keys[i] == name ==>
              o.settings.presets.keys == s.presets.keys[..i] + s.presets.keys[i + 1..]
    ensures o.settings.styles == s.styles
    ensures o.effects == SaveSettings(o.settings)
  {
    GetAfterRemove(s.presets, name);
    RemoveKeepsOrder(s.presets, name);
    WithoutOnce(s.presetOrder, name);
    Saved(s.(presets := Remove(s.presets, name), presetOrder := Without(s.presetOrder, name)))
  }

  /** Saving keeps order and table in agreement. */
  lemma SavePresetKeepsSynced(s: Settings, draft: Style, name: string, confirmed: bool)
    requires Synced(s)
    ensures Synced(SavePreset(s, draft, name, confirmed).settings)
  {
    if SaveGoesAhead(s.presets, name, confirmed) && name !in s.presetOrder {
      DistinctSnoc(s.presetOrder, name);
    }
  }

  /** Deleting keeps order and table in agreement. */
  lemma DeletePresetKeepsSynced(s: Settings, name: string)
    requires Synced(s)
    ensures Synced(DeletePreset(s, name).settings)
  {
    WithoutDistinct(s.presetOrder, name);
  }

  /** Deleting a preset just saved under a new name restores the settings,
      table order and display order included. */
  lemma DeleteUndoesSave(s: Settings, draft: Style, name: string, confirmed: bool)
    requires name != "" && name !in s.presets.keys && name !in s.presetOrder
    ensures DeletePreset(SavePreset(s, draft, name, confirmed).settings, name).settings == s
  {
    RemoveAfterPutNew(s.presets, name, draft);
    WithoutConcat(s.presetOrder, [name], name);
    assert Without([name], name) == [];
    assert s.presetOrder + [] == s.presetOrder;
  }

  /** The whole Save click of "Create new preset": when the save goes
      ahead, the handler's save is followed by the redisplay's reconcile
      and save. From agreeing settings that second save stores the same
      settings again. */
  function SavePresetClick(s: Settings, draft: Style, name: string, confirmed: bool): (o: Outcome<Settings>)
    ensures !SaveGoesAhead(s.presets, name, confirmed) ==> o == Unchanged(s)
    ensures SaveGoesAhead(s.presets, name, confirmed) && Synced(s) ==>
              var saved := SavePreset(s, draft, name, confirmed).settings;
              o.settings == saved && o.effects == SaveSettings(saved) + SaveSettings(saved)
  {
    if !SaveGoesAhead(s.presets, name, confirmed) then Unchanged(s)
    else
      assert Synced(s) ==> Synced(SavePreset(s, draft, name, confirmed).settings) by {
        if Synced(s) { SavePresetKeepsSynced(s, draft, name, confirmed); }
      }
      Redisplay(SavePreset(s, draft, name, confirmed))
  }

  /** The whole trash click: the handler's save, then the redisplay's
      reconcile and save, which from agreeing settings stores the same
      settings again. */
  function DeletePresetClick(s: Settings, name: string): (o: Outcome<Settings>)
    ensures Synced(s) ==>
              var deleted := DeletePreset(s, name).settings;
              o.settings == deleted && o.effects == SaveSettings(deleted) + SaveSettings(deleted)
    ensures forall n :: n in o.settings.presetOrder <==> n in o.settings.presets.keys
  {
    assert Synced(s) ==> Synced(DeletePreset(s, name).settings) by {
      if Synced(s) { DeletePresetKeepsSynced(s, name); }
    }
    Redisplay(DeletePreset(s, name))
  }

  // ---------------------------------------------------------------------
  // Reordering by drag and drop.

  /** The row elements of a list of names, each carrying its name as
      `data-preset-name`. */
  function Tagged(names: seq<string>): (rows: seq<Option<string>>)
    ensures |rows| == |names|
    ensures forall i :: 0 <= i < |names| ==> rows[i] == Some(names[i])
  {
    seq(|names|, i requires 0 <= i < |names| => Some(names[i]))
  }

  /** The preset rows `display` builds: one per order entry that has a
      preset, in order, each carrying its name. */
  function Rows(s: Settings): (rows: seq<Option<string>>)
    ensures |rows| <= |s.presetOrder|
    ensures forall r :: r in rows <==> r.Some? && r.value in s.presetOrder && r.value in s.presets.keys
    ensures forall r :: r in rows ==> r.Some?
    ensures Names(rows) == KeepIn(s.presetOrder, s.presets.keys)
    ensures |rows| == |KeepIn(s.presetOrder, s.presets.keys)|
  {
    var shown := KeepIn(s.presetOrder, s.presets.keys);
    var rows := Tagged(shown);
    NamesOfTagged(shown);
    assert forall r :: r in rows ==> r.Some? && r.value in shown by {
      forall r | r in rows ensures r.Some? && r.value in shown {
        var i :| 0 <= i < |rows| && rows[i] == r;
        assert r.value == shown[i];
      }
    }
    assert forall n :: n in shown ==> Some(n) in rows by {
      forall n | n in shown ensures Some(n) in rows {
        var i :| 0 <= i < |shown| && shown[i] == n;
        assert rows[i] == Some(n);
      }
    }
    rows
  }

  /** The rows other than the one at `d`, in order. */
  function TakeOut<T>(rows: seq<T>, d: nat): (r: seq<T>)
    requires d < |rows|
    ensures |r| == |rows| - 1
    ensures r == rows[..d] + rows[d + 1..]
    ensures multiset(r) + multiset{rows[d]} == multiset(rows)
  {
    assert rows == rows[..d] + [rows[d]] + rows[d + 1..];
    rows[..d] + rows[d + 1..]
  }

  /** `insertBefore` the row at `at`, or append when `at` is the length. */
  function PutBack<T>(rows: seq<T>, at: nat, x: T): (r: seq<T>)
    requires at <= |rows|
    ensures |r| == |rows| + 1 && r[at] == x
    ensures r[..at] + r[at + 1..] == rows
    ensures multiset(r) == multiset(rows) + multiset{x}
  {
    var r := rows[..at] + [x] + rows[at..];
    assert r[..at] == rows[..at] && r[at + 1..] == rows[at..];
    assert rows == rows[..at] + rows[at..];
    r
  }

  /** `dragover`: when a row is being dragged (`dragged`, its position), it
      is taken out and put back before the other row at position `before`
      among the rest, the first one whose midpoint lies below the pointer,
      or at the end when there is none. */
  function DragOver<T>(rows: seq<T>, dragged: Option<nat>, before: Option<nat>): (r: seq<T>)
    requires dragged.Some? ==> dragged.value < |rows|
    requires dragged.Some? && before.Some? ==> before.value < |rows| - 1
    ensures multiset(r) == multiset(rows)
    ensures dragged.None? ==> r == rows
    ensures dragged.Some? ==>
              var d, at := dragged.value, before.GetOr(|rows| - 1);
              && |r| == |rows| && at < |r| && r[at] == rows[d]
              && r[..at] + r[at + 1..] == rows[..d] + rows[d + 1..]
  {
    if dragged.None? then rows
    else
      var others := TakeOut(rows, dragged.value);
      PutBack(others, before.GetOr(|others|), rows[dragged.value])
  }

  /** The names the rows carry, in row order, rows without one skipped. */
  function Names(rows: seq<Option<string>>): (ns: seq<string>)
    ensures forall n :: n in ns <==> Some(n) in rows
    ensures |ns| <= |rows|
    ensures (forall i :: 0 <= i < |rows| ==> rows[i].Some?) ==>
              |ns| == |rows| && forall i :: 0 <= i < |rows| ==> ns[i] == rows[i].value
  {
    if rows == [] then []
    else (if rows[0].Some? then [rows[0].value] else []) + Names(rows[1..])
  }

  /** `drop`: when the event carries data, the order becomes the names of
      the rows as they now stand, in row order and duplicates kept, and the
      settings are saved. */
  function Drop(s: Settings, rows: seq<Option<string>>, hasData: bool): (o: Outcome<Settings>)
    ensures !hasData ==> o == Unchanged(s)
    ensures hasData ==>
              && o.settings.styles == s.styles && o.settings.presets == s.presets
              && o.settings.presetOrder == Names(rows)
              && (forall n :: n in o.settings.presetOrder <==> Some(n) in rows)
              && o.effects == SaveSettings(o.settings)
  {
    if !hasData then Unchanged(s) else Saved(s.(presetOrder := Names(rows)))
  }

  lemma {:induction false} NamesOfTagged(names: seq<string>)
    ensures Names(Tagged(names)) == names
  {
    if names != [] {
      NamesOfTagged(names[1..]);
      assert Tagged(names)[1..] == Tagged(names[1..]);
    }
  }

  /** Naming keeps order: the names of two stretches of rows are the names
      of the first followed by those of the second. */
  lemma {:induction false} NamesConcat(a: seq<Option<string>>, b: seq<Option<string>>)
    ensures Names(a + b) == Names(a) + Names(b)
  {
    if a == [] {
      assert a + b == b;
    } else {
      assert (a + b)[1..] == a[1..] + b;
      NamesConcat(a[1..], b);
    }
  }

  lemma TaggedTakeOut(x: seq<string>, d: nat)
    requires d < |x|
    ensures Tagged(TakeOut(x, d)) == TakeOut(Tagged(x), d)
  {
    var tx := Tagged(x);
    var l, r := Tagged(x[..d] + x[d + 1..]), tx[..d] + tx[d + 1..];
    assert |l| == |r|;
    forall k | 0 <= k < |l| ensures l[k] == r[k] {
      if k < d {
        assert (x[..d] + x[d + 1..])[k] == x[k];
        assert r[k] == tx[k];
      } else {
        assert (x[..d] + x[d + 1..])[k] == x[k + 1];
        assert r[k] == tx[k + 1];
      }
    }
    assert l == r;
  }

  lemma TaggedPutBack(x: seq<string>, at: nat, v: string)
    requires at <= |x|
    ensures Tagged(PutBack(x, at, v)) == PutBack(Tagged(x), at, Some(v))
  {
    var tx := Tagged(x);
    var grown := x[..at] + [v] + x[at..];
    var l, r := Tagged(grown), tx[..at] + [Some(v)] + tx[at..];
    assert |l| == |r|;
    forall k | 0 <= k < |l| ensures l[k] == r[k] {
      if k < at {
        assert grown[k] == x[k] && r[k] == tx[k];
      } else if k == at {
        assert grown[k] == v && r[k] == Some(v);
      } else {
        assert grown[k] == x[k - 1] && r[k] == tx[k - 1];
      }
    }
    assert l == r;
  }

  /** Tagging commutes with the drag: moving the row of a name is tagging
      the list with that name moved. */
  lemma TaggedMove(shown: seq<string>, d: nat, at: nat)
    requires d < |shown| && at < |shown|
    ensures Tagged(PutBack(TakeOut(shown, d), at, shown[d]))
            == PutBack(TakeOut(Tagged(shown), d), at, Tagged(shown)[d])
  {
    TaggedTakeOut(shown, d);
    TaggedPutBack(TakeOut(shown, d), at, shown[d]);
  }

  /** Each name occurs among the names as often as among the rows. */
  lemma {:induction false} NamesCount(rows: seq<Option<string>>, n: string)
    ensures multiset(Names(rows))[n] == multiset(rows)[Some(n)]
  {
    if rows != [] {
      NamesCount(rows[1..], n);
      assert rows == [rows[0]] + rows[1..];
    }
  }

  /** Rows that are a permutation of each other carry names that are. */
  lemma NamesPermutation(a: seq<Option<string>>, b: seq<Option<string>>)
    requires multiset(a) == multiset(b)
    ensures multiset(Names(a)) == multiset(Names(b))
  {
    forall n ensures multiset(Names(a))[n] == multiset(Names(b))[n] {
      NamesCount(a, n);
      NamesCount(b, n);
    }
  }

  /** The names of tagged rows after a drag are the names with the dragged
      one moved. */
  lemma NamesAfterDrag(shown: seq<string>, dragged: Option<nat>, before: Option<nat>)
    requires dragged.Some? ==> dragged.value < |shown|
    requires dragged.Some? && before.Some? ==> before.value < |shown| - 1
    ensures dragged.None? ==> Names(DragOver(Tagged(shown), dragged, before)) == shown
    ensures dragged.Some? ==>
              Names(DragOver(Tagged(shown), dragged, before))
              == PutBack(TakeOut(shown, dragged.value), before.GetOr(|shown| - 1), shown[dragged.value])
  {
    if dragged.Some? {
      var d, at := dragged.value, before.GetOr(|shown| - 1);
      var target := PutBack(TakeOut(shown, d), at, shown[d]);
      TaggedMove(shown, d, at);
      NamesOfTagged(target);
    } else {
      NamesOfTagged(shown);
    }
  }

  /** A drag followed by a drop sets the order to the names the rows showed
      with the dragged one moved to where it was dropped. */
  lemma DragThenDropOrder(s: Settings, dragged: Option<nat>, before: Option<nat>)
    requires dragged.Some? ==> dragged.value < |Rows(s)|
    requires dragged.Some? && before.Some? ==> before.value < |Rows(s)| - 1
    ensures var shown := KeepIn(s.presetOrder, s.presets.keys);
            var o := Drop(s, DragOver(Rows(s), dragged, before), true);
            && (dragged.None? ==> o.settings.presetOrder == shown)
            && (dragged.Some? ==>
                  o.settings.presetOrder
                  == PutBack(TakeOut(shown, dragged.value), before.GetOr(|shown| - 1), shown[dragged.value]))
  {
    var shown := KeepIn(s.presetOrder, s.presets.keys);
    assert Rows(s) == Tagged(shown);
    NamesAfterDrag(shown, dragged, before);
  }

  /** The order a drag and drop leaves is a rearrangement of the names the
      rows showed; on synced settings it is synced again. */
  lemma DragThenDrop(s: Settings, dragged: Option<nat>, before: Option<nat>)
    requires dragged.Some? ==> dragged.value < |Rows(s)|
    requires dragged.Some? && before.Some? ==> before.value < |Rows(s)| - 1
    ensures var o := Drop(s, DragOver(Rows(s), dragged, before), true);
            multiset(o.settings.presetOrder) == multiset(KeepIn(s.presetOrder, s.presets.keys))
    ensures Synced(s) ==> Synced(Drop(s, DragOver(Rows(s), dragged, before), true).settings)
  {
    var shown := KeepIn(s.presetOrder, s.presets.keys);
    var moved := DragOver(Rows(s), dragged, before);
    var order := Drop(s, moved, true).settings.presetOrder;
    NamesPermutation(moved, Rows(s));
    assert multiset(order) == multiset(shown);
    if Synced(s) {
      KeepInAll(s.presetOrder, s.presets.keys);
      PermutationDistinct(s.presetOrder, order);
      assert forall n :: n in order <==> n in multiset(s.presetOrder);
    }
  }

  // ---------------------------------------------------------------------
  // Importing a settings file.

  /** A settings file after `JSON.parse`: anything that is not a non-null
      object, or an object with some of the three members. */
  datatype Parsed =
    | NotAnObject
    | Object(styles: Option<Dict<Style>>, presets: Option<Dict<Style>>, presetOrder: Option<seq<string>>)

  /** The shape check: a non-null object with `styles` and `presets`. */
  predicate ImportAccepted(v: Parsed) {
    v.Object? && v.styles.Some? && v.presets.Some?
  }

  /** Import: an accepted file replaces the settings wholesale; the order
      is then reconciled (a missing one starting empty) with its own save,
      the handler saves once more, and the redisplay reconciles and saves a
      third time, which changes nothing more. A rejected file changes
      nothing. */
  function Import(s: Settings, v: Parsed): (o: Outcome<Settings>)
    ensures !ImportAccepted(v) ==> o == Unchanged(s)
    ensures ImportAccepted(v) ==>
              && o.settings.styles == v.styles.value && o.settings.presets == v.presets.value
              && (forall n :: n in o.settings.presetOrder <==> n in v.presets.value.keys)
              && o.effects == SaveSettings(o.settings) + SaveSettings(o.settings) + SaveSettings(o.settings)
  {
    if !ImportAccepted(v) then Unchanged(s)
    else
      var synced := Sync(Settings(v.styles.value, v.presets.value, v.presetOrder.GetOr([])));
      var handled := Outcome(synced.settings, synced.effects + SaveSettings(synced.settings));
      SyncIdempotent(v.presetOrder.GetOr([]), v.presets.value.keys);
      Redisplay(handled)
  }

  /** Nothing of the previous settings survives an accepted import. */
  lemma ImportReplaces(s: Settings, t: Settings, v: Parsed)
    requires ImportAccepted(v)
    ensures Import(s, v) == Import(t, v)
  {
  }

  /** An imported order without duplicates comes out synced. */
  lemma ImportSynced(s: Settings, v: Parsed)
    requires ImportAccepted(v) && Distinct(v.presetOrder.GetOr([]))
    ensures Synced(Import(s, v).settings)
  {
    SyncEstablishes(Settings(v.styles.value, v.presets.value, v.presetOrder.GetOr([])));
  }
}
