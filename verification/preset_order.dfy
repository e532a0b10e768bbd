/** The reconciliation of the preset display order with the preset table,
    `syncPresetOrder` of src/settings/ColorSettingsTab.ts: names the order
    lacks are pushed at the end in table order, then names without a preset
    are filtered out. */
module PresetOrder {
  import opened Seqs

  /** The `forEach` of the reconciliation: each table name the order does not
      yet include is pushed, so later checks see the names pushed before. */
  function AppendMissing(order: seq<string>, names: seq<string>): (r: seq<string>)
    ensures forall n :: n in r <==> n in order || n in names
    ensures order <= r
    decreases names
  {
    if names == [] then order
    else AppendMissing(if names[0] in order then order else order + [names[0]], names[1..])
  }

  /** The names of `names` that `order` lacks, in the order of `names`. */
  function Missing(names: seq<string>, order: seq<string>): (r: seq<string>)
    ensures forall n :: n in r <==> n in names && n !in order
  {
    if names == [] then []
    else (if names[0] in order then [] else [names[0]]) + Missing(names[1..], order)
  }

  /** `syncPresetOrder` on the order (`[]` when it was missing) and the
      preset names in table order. */
  function SyncPresetOrder(order: seq<string>, names: seq<string>): (r: seq<string>)
    ensures forall n :: n in r <==> n in names
  {
    KeepIn(AppendMissing(order, names), names)
  }

  /** Adding a name that a list does not contain changes nothing about which
      of that list's names are missing. */
  lemma {:induction false} MissingIgnores(names: seq<string>, order: seq<string>, x: string)
    requires x !in names
    ensures Missing(names, order + [x]) == Missing(names, order)
  {
    if names != [] {
      MissingIgnores(names[1..], order, x);
    }
  }

  /** With duplicate-free table names, pushing one by one appends exactly
      the missing names, in table order. */
  lemma {:induction false} AppendMissingIsConcat(order: seq<string>, names: seq<string>)
    requires Distinct(names)
    ensures AppendMissing(order, names) == order + Missing(names, order)
    decreases names
  {
    if names != [] {
      var x, rest := names[0], names[1..];
      DistinctTail(names);
      if x in order {
        AppendMissingIsConcat(order, rest);
      } else {
        AppendMissingIsConcat(order + [x], rest);
        MissingIgnores(rest, order, x);
        ConcatAssoc(order, [x], Missing(rest, order));
      }
    }
  }

  /** The reconciled order is the surviving entries in their old relative
      order, followed by the missing table names in table order. */
  lemma SyncShape(order: seq<string>, names: seq<string>)
    requires Distinct(names)
    ensures SyncPresetOrder(order, names) == KeepIn(order, names) + Missing(names, order)
  {
    AppendMissingIsConcat(order, names);
    KeepInConcat(order, Missing(names, order), names);
    KeepInAll(Missing(names, order), names);
  }

  /** Pushing only absent names keeps a duplicate-free order duplicate-free. */
  lemma {:induction false} AppendMissingDistinct(order: seq<string>, names: seq<string>)
    requires Distinct(order)
    ensures Distinct(AppendMissing(order, names))
    decreases names
  {
    if names != [] {
      if names[0] in order {
        AppendMissingDistinct(order, names[1..]);
      } else {
        DistinctSnoc(order, names[0]);
        AppendMissingDistinct(order + [names[0]], names[1..]);
      }
    }
  }

  /** The reconciliation introduces no duplicates. */
  lemma SyncDistinct(order: seq<string>, names: seq<string>)
    requires Distinct(order)
    ensures Distinct(SyncPresetOrder(order, names))
  {
    AppendMissingDistinct(order, names);
    KeepInDistinct(AppendMissing(order, names), names);
  }

  /** When every table name is already in the order, pushing adds nothing. */
  lemma {:induction false} AppendMissingNothing(order: seq<string>, names: seq<string>)
    requires forall n :: n in names ==> n in order
    ensures AppendMissing(order, names) == order
  {
    if names != [] {
      AppendMissingNothing(order, names[1..]);
    }
  }

  /** Reconciling twice with no change in between is reconciling once. */
  lemma SyncIdempotent(order: seq<string>, names: seq<string>)
    ensures SyncPresetOrder(SyncPresetOrder(order, names), names) == SyncPresetOrder(order, names)
  {
    var r := SyncPresetOrder(order, names);
    AppendMissingNothing(r, names);
    KeepInAll(r, names);
  }

  /** An order whose members are exactly the table names is left as it is,
      whatever their arrangement. */
  lemma SyncKeepsSynced(order: seq<string>, names: seq<string>)
    requires forall n :: n in order <==> n in names
    ensures SyncPresetOrder(order, names) == order
  {
    AppendMissingNothing(order, names);
    KeepInAll(order, names);
  }

  /** From a duplicate-free order, the result is a permutation of the names. */
  lemma SyncPermutation(order: seq<string>, names: seq<string>)
    requires Distinct(order) && Distinct(names)
    ensures multiset(SyncPresetOrder(order, names)) == multiset(names)
  {
    SyncDistinct(order, names);
    SameMembersPermutation(SyncPresetOrder(order, names), names);
  }
}
