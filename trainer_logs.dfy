/**
 * The trainer's nested log dictionary and the recursive merge that
 * accumulates hook results into it (brainstorm/training/trainer.py,
 * `Trainer._add_log`).
 */
module TrainerLogs {

  /** A logged scalar. Floating-point values are opaque tokens: `NaN` is the
      sentinel that `_start_hooks` stores, `MeanOf(l)` stands for
      `np.mean(l)` of an epoch's losses. */
  datatype Scalar = NaN | Value(v: int) | MeanOf(losses: seq<Scalar>)

  /** A value handed to `_add_log`: Python `None`, a non-dict value, or a
      dict whose items are visited in insertion order. */
  datatype Val = NoneVal | Leaf(s: Scalar) | Dict(items: seq<Item>)

  datatype Item = Item(key: string, val: Val)

  /** What the log holds under one name: an accumulated list of values or a
      nested log. */
  datatype Entry = Series(values: seq<Scalar>) | Nested(sub: map<string, Entry>)

  type Log = map<string, Entry>

  /** The log after a merge, and whether the merge completed. When `ok` is
      false Python raised a TypeError or AttributeError half-way; `log` then
      holds the in-place updates done before the failure. */
  datatype Merged = Merged(log: Log, ok: bool)

  /** The values already listed under `name`, or none. */
  function SeriesOf(log: Log, name: string): seq<Scalar>
  {
    if name in log && log[name].Series? then log[name].values else []
  }

  ghost predicate AllNone(items: seq<Item>)
  {
    forall i :: 0 <= i < |items| ==> items[i].val.NoneVal?
  }

  /** `_add_log(name, val, logs=log)`. */
  function AddLog(log: Log, name: string, val: Val): (r: Merged)
    decreases val, 1
    // every other key is left exactly as it was
    ensures forall k :: k != name ==> (k in r.log <==> k in log)
    ensures forall k :: k != name && k in log ==> r.log[k] == log[k]
    // None is ignored
    ensures val.NoneVal? ==> r == Merged(log, true)
    // a scalar creates the list if missing and extends it by one element;
    // appending to a nested log fails and changes nothing
    ensures val.Leaf? ==> (r.ok <==> name !in log || log[name].Series?)
    ensures val.Leaf? && r.ok ==> name in r.log && r.log[name] == Series(SeriesOf(log, name) + [val.s])
    ensures val.Leaf? && !r.ok ==> r.log == log
    // a dict recurses into a (possibly new) nested log
    ensures val.Dict? && (name !in log || log[name].Nested?) ==> name in r.log && r.log[name].Nested?
    // a dict merged into a list fails on the first item that is not None
    ensures val.Dict? && name in log && log[name].Series? ==>
              r.log == log && (r.ok <==> AllNone(val.items))
  {
    match val
    case NoneVal => Merged(log, true)
    case Leaf(x) =>
      if name !in log then
        assert SeriesOf(log, name) + [x] == [x];
        Merged(log[name := Series([x])], true)
      else if log[name].Series? then Merged(log[name := Series(log[name].values + [x])], true)
      else Merged(log, false)
    case Dict(items) =>
      if name !in log then
        var m := AddItems(map[], val, 0);
        Merged(log[name := Nested(m.log)], m.ok)
      else if log[name].Nested? then
        var m := AddItems(log[name].sub, val, 0);
        Merged(log[name := Nested(m.log)], m.ok)
      else
        Merged(log, NoneFrom(items, 0))
  }

  /** The loop `for k, v in val.items(): _add_log(k, v, logs=sub)` from item
      `i` on; it stops at the first failing item. */
  function AddItems(sub: Log, d: Val, i: nat): Merged
    requires d.Dict? && i <= |d.items|
    decreases d, 0, |d.items| - i
  {
    if i == |d.items| then Merged(sub, true)
    else
      assert d.items[i] in d.items;
      var m := AddLog(sub, d.items[i].key, d.items[i].val);
      if !m.ok then m else AddItems(m.log, d, i + 1)
  }

  /** Whether the items from `i` on are all None (so that a merge into a
      list raises nothing). */
  function NoneFrom(items: seq<Item>, i: nat): (r: bool)
    requires i <= |items|
    decreases |items| - i
    ensures r <==> forall j :: i <= j < |items| ==> items[j].val.NoneVal?
  {
    if i == |items| then true else items[i].val.NoneVal? && NoneFrom(items, i + 1)
  }

  ghost predicate KeysDistinctFrom(items: seq<Item>, i: nat)
  {
    forall j, k :: i <= j < k < |items| ==> items[j].key != items[k].key
  }

  /** Merging a flat dict of scalars with distinct keys into a nested log
      whose entries for those keys are lists (or missing) succeeds and
      extends each of those lists by exactly its one value; keys the dict
      does not mention are untouched. */
  lemma {:induction false} FlatDictAppendsKeywise(sub: Log, d: Val, i: nat)
    requires d.Dict? && i <= |d.items|
    requires forall j :: i <= j < |d.items| ==> d.items[j].val.Leaf?
    requires KeysDistinctFrom(d.items, i)
    requires forall j :: i <= j < |d.items| ==> SeriesOrAbsent(sub, d.items[j].key)
    ensures AddItems(sub, d, i).ok
    ensures forall j :: i <= j < |d.items| ==>
              d.items[j].key in AddItems(sub, d, i).log &&
              AddItems(sub, d, i).log[d.items[j].key] == Series(SeriesOf(sub, d.items[j].key) + [d.items[j].val.s])
    ensures forall k :: (forall j :: i <= j < |d.items| ==> d.items[j].key != k) ==>
              (k in AddItems(sub, d, i).log <==> k in sub) &&
              (k in sub ==> AddItems(sub, d, i).log[k] == sub[k])
    decreases |d.items| - i
  {
    if i < |d.items| {
      var m := AddLog(sub, d.items[i].key, d.items[i].val);
      assert m.ok;
      forall j | i + 1 <= j < |d.items|
        ensures SeriesOrAbsent(m.log, d.items[j].key)
      {
        assert d.items[j].key != d.items[i].key;
      }
      FlatDictAppendsKeywise(m.log, d, i + 1);
      assert AddItems(sub, d, i) == AddItems(m.log, d, i + 1);
      forall j | i + 1 <= j < |d.items|
        ensures SeriesOf(m.log, d.items[j].key) == SeriesOf(sub, d.items[j].key)
      {
        assert d.items[j].key != d.items[i].key;
      }
    }
  }

  ghost predicate SeriesOrAbsent(log: Log, k: string)
  {
    k !in log || log[k].Series?
  }

  /** `_add_log` with a flat dict of scalars: the name gets a nested log in
      which every key of the dict has its list extended by one value. */
  lemma DictOfScalarsMergesKeywise(log: Log, name: string, d: Val)
    requires d.Dict?
    requires forall j :: 0 <= j < |d.items| ==> d.items[j].val.Leaf?
    requires KeysDistinctFrom(d.items, 0)
    requires name !in log || (log[name].Nested? &&
               forall j :: 0 <= j < |d.items| ==> SeriesOrAbsent(log[name].sub, d.items[j].key))
    ensures AddLog(log, name, d).ok
    ensures var r := AddLog(log, name, d).log;
            name in r && r[name].Nested? &&
            forall j :: 0 <= j < |d.items| ==>
              var k := d.items[j].key;
              var before := if name in log then log[name].sub else map[];
              k in r[name].sub && r[name].sub[k] == Series(SeriesOf(before, k) + [d.items[j].val.s])
  {
    var before: Log := if name in log then log[name].sub else map[];
    FlatDictAppendsKeywise(before, d, 0);
  }

  // ------------------------------------------------- merging a dict keywise

  /** Two logs agree under key `k`. */
  ghost predicate SameAt(a: Log, b: Log, k: string)
  {
    (k in a <==> k in b) && (k in a ==> a[k] == b[k])
  }

  /** `_add_log(k, v, logs)` looks at `logs` only under `k`. */
  lemma AddLogLocal(a: Log, b: Log, k: string, v: Val)
    requires SameAt(a, b, k)
    ensures AddLog(a, k, v).ok == AddLog(b, k, v).ok
    ensures SameAt(AddLog(a, k, v).log, AddLog(b, k, v).log, k)
  {
  }

  /** Every item from `i` on merges without error into `sub` on its own. */
  ghost predicate AllOk(sub: Log, items: seq<Item>, i: nat)
  {
    forall j :: i <= j < |items| ==> AddLog(sub, items[j].key, items[j].val).ok
  }

  /** Under the key of each item from `i` on, `r` holds that item's own
      merge into `sub`. */
  ghost predicate EachMerged(r: Log, sub: Log, items: seq<Item>, i: nat)
  {
    forall j :: i <= j < |items| ==>
      SameAt(r, AddLog(sub, items[j].key, items[j].val).log, items[j].key)
  }

  /** No item from `i` on has key `k`. */
  ghost predicate NotItem(items: seq<Item>, i: nat, k: string)
  {
    forall j :: i <= j < |items| ==> items[j].key != k
  }

  /** The item at `f` is the first whose merge fails: the items before it
      are merged, its own merge is left half-done, and the later ones are
      not merged at all. */
  ghost predicate FailsFirstAt(sub: Log, items: seq<Item>, i: nat, f: nat, r: Log)
  {
    i <= f < |items| &&
    (forall j :: i <= j < f ==>
       AddLog(sub, items[j].key, items[j].val).ok &&
       SameAt(r, AddLog(sub, items[j].key, items[j].val).log, items[j].key)) &&
    !AddLog(sub, items[f].key, items[f].val).ok &&
    SameAt(r, AddLog(sub, items[f].key, items[f].val).log, items[f].key) &&
    (forall j :: f < j < |items| ==> SameAt(r, sub, items[j].key))
  }

  /** The item loop of `_add_log` over a dict with distinct keys (nested
      dicts and None items included) merges each item into its own key as
      if it were alone: it succeeds iff every item's merge succeeds, then
      each key holds its own merge; keys of no item are untouched; on a
      failure the items before the first failing one are merged. */
  lemma {:induction false} ItemsMergeKeywise(sub: Log, d: Val, i: nat)
    requires d.Dict? && i <= |d.items|
    requires KeysDistinctFrom(d.items, i)
    ensures AddItems(sub, d, i).ok <==> AllOk(sub, d.items, i)
    ensures AddItems(sub, d, i).ok ==> EachMerged(AddItems(sub, d, i).log, sub, d.items, i)
    ensures forall k :: NotItem(d.items, i, k) ==> SameAt(AddItems(sub, d, i).log, sub, k)
    ensures !AddItems(sub, d, i).ok ==> exists f :: FailsFirstAt(sub, d.items, i, f, AddItems(sub, d, i).log)
    decreases |d.items| - i
  {
    var items := d.items;
    if i == |items| {
      return;
    }
    var m := AddLog(sub, items[i].key, items[i].val);
    if !m.ok {
      assert AddItems(sub, d, i) == m;
      FirstItemFails(sub, items, i);
      return;
    }
    var r := AddItems(m.log, d, i + 1);
    assert AddItems(sub, d, i) == r;
    ItemsMergeKeywise(m.log, d, i + 1);
    assert NotItem(items, i + 1, items[i].key);
    StepAllOk(sub, items, i);
    StepUntouched(r.log, sub, items, i);
    if r.ok {
      StepEachMerged(r.log, sub, items, i);
    } else {
      var f :| FailsFirstAt(m.log, items, i + 1, f, r.log);
      StepFails(r.log, sub, items, i, f);
    }
  }

  /** When the first item fails, the loop stops there with its partial merge. */
  lemma FirstItemFails(sub: Log, items: seq<Item>, i: nat)
    requires i < |items| && KeysDistinctFrom(items, i)
    requires !AddLog(sub, items[i].key, items[i].val).ok
    ensures FailsFirstAt(sub, items, i, i, AddLog(sub, items[i].key, items[i].val).log)
    ensures !AllOk(sub, items, i)
    ensures forall k :: NotItem(items, i, k) ==> SameAt(AddLog(sub, items[i].key, items[i].val).log, sub, k)
  {
    LaterItemsUnaffected(sub, items, i);
    var m := AddLog(sub, items[i].key, items[i].val).log;
    forall k | NotItem(items, i, k) ensures SameAt(m, sub, k)
    {
      assert items[i].key != k;
    }
  }

  lemma StepAllOk(sub: Log, items: seq<Item>, i: nat)
    requires i < |items| && KeysDistinctFrom(items, i)
    requires AddLog(sub, items[i].key, items[i].val).ok
    ensures AllOk(AddLog(sub, items[i].key, items[i].val).log, items, i + 1) <==> AllOk(sub, items, i)
  {
    LaterItemsUnaffected(sub, items, i);
  }

  lemma StepUntouched(r: Log, sub: Log, items: seq<Item>, i: nat)
    requires i < |items|
    requires forall k :: NotItem(items, i + 1, k) ==> SameAt(r, AddLog(sub, items[i].key, items[i].val).log, k)
    ensures forall k :: NotItem(items, i, k) ==> SameAt(r, sub, k)
  {
    var m := AddLog(sub, items[i].key, items[i].val).log;
    forall k | NotItem(items, i, k) ensures SameAt(r, sub, k)
    {
      assert NotItem(items, i + 1, k) && items[i].key != k;
      assert SameAt(r, m, k);
      assert k in m <==> k in sub;
      if k in sub {
        assert m[k] == sub[k];
      }
    }
  }

  lemma StepEachMerged(r: Log, sub: Log, items: seq<Item>, i: nat)
    requires i < |items| && KeysDistinctFrom(items, i)
    requires EachMerged(r, AddLog(sub, items[i].key, items[i].val).log, items, i + 1)
    requires SameAt(r, AddLog(sub, items[i].key, items[i].val).log, items[i].key)
    ensures EachMerged(r, sub, items, i)
  {
    LaterItemsUnaffected(sub, items, i);
  }

  lemma StepFails(r: Log, sub: Log, items: seq<Item>, i: nat, f: nat)
    requires i < |items| && KeysDistinctFrom(items, i)
    requires AddLog(sub, items[i].key, items[i].val).ok
    requires FailsFirstAt(AddLog(sub, items[i].key, items[i].val).log, items, i + 1, f, r)
    requires SameAt(r, AddLog(sub, items[i].key, items[i].val).log, items[i].key)
    ensures FailsFirstAt(sub, items, i, f, r)
  {
    LaterItemsUnaffected(sub, items, i);
  }

  /** Merging item `i` leaves the keys of the later items as they were, so
      each later item merges into the new log exactly as into the old. */
  lemma LaterItemsUnaffected(sub: Log, items: seq<Item>, i: nat)
    requires i < |items| && KeysDistinctFrom(items, i)
    ensures forall j :: i + 1 <= j < |items| ==>
              SameAt(AddLog(sub, items[i].key, items[i].val).log, sub, items[j].key)
    ensures forall j :: i + 1 <= j < |items| ==>
              AddLog(AddLog(sub, items[i].key, items[i].val).log, items[j].key, items[j].val).ok
                == AddLog(sub, items[j].key, items[j].val).ok &&
              SameAt(AddLog(AddLog(sub, items[i].key, items[i].val).log, items[j].key, items[j].val).log,
                     AddLog(sub, items[j].key, items[j].val).log, items[j].key)
  {
    var m := AddLog(sub, items[i].key, items[i].val).log;
    forall j | i + 1 <= j < |items|
      ensures SameAt(m, sub, items[j].key)
      ensures AddLog(m, items[j].key, items[j].val).ok == AddLog(sub, items[j].key, items[j].val).ok
      ensures SameAt(AddLog(m, items[j].key, items[j].val).log, AddLog(sub, items[j].key, items[j].val).log,
                     items[j].key)
    {
      assert items[j].key != items[i].key;
      AddLogLocal(m, sub, items[j].key, items[j].val);
    }
  }

  /** `_add_log` with a dict under a name that is missing or already a
      nested log: the merge succeeds iff each item's own merge into the
      nested log succeeds; then each key of the nested log holds its item's
      merge and the other keys are untouched; a failure leaves the items
      before the first failing one merged. */
  lemma DictMergesKeywise(log: Log, name: string, d: Val)
    requires d.Dict? && KeysDistinctFrom(d.items, 0)
    requires name !in log || log[name].Nested?
    ensures var before := if name in log then log[name].sub else map[];
            var r := AddLog(log, name, d);
            name in r.log && r.log[name].Nested? &&
            (r.ok <==> AllOk(before, d.items, 0)) &&
            (r.ok ==> EachMerged(r.log[name].sub, before, d.items, 0)) &&
            (forall k :: NotItem(d.items, 0, k) ==> SameAt(r.log[name].sub, before, k)) &&
            (!r.ok ==> exists f :: FailsFirstAt(before, d.items, 0, f, r.log[name].sub))
  {
    var before: Log := if name in log then log[name].sub else map[];
    ItemsMergeKeywise(before, d, 0);
    assert AddLog(log, name, d) == Merged(log[name := Nested(AddItems(before, d, 0).log)], AddItems(before, d, 0).ok);
  }
}
