// Deep merge of nested string-keyed mappings (`dict_merge` in
// src/helper/main.py, lines 132-154).

module DictMerge {
  import opened Outcome

  /** A value found in a nested mapping: a mapping, a plain leaf value, or
      the missing-value placeholder (a NaN or None, for which `pd.isna`
      holds). Key order is not modelled. */
  datatype Value = Dict(entries: map<string, Value>) | Leaf(text: string) | Missing

  /** The empty mapping `{}`. */
  const Empty: Value := Dict(map[])

  /** Policies for two incompatible leaves; any other string keeps the left one. */
  const Raise := "raise"
  const Remove := "remove"

  /** The merge of two values of which at least one is not a mapping
      (lines 134-145): equal values and missing placeholders resolve to the
      other side; otherwise the policy decides. */
  function MergeLeaves(d1: Value, d2: Value, incompatible: string): (r: Result<Value>)
    ensures d1 == d2 || d1.Missing? || d2.Missing? ==> r == Ok(if d1.Missing? then d2 else d1)
    ensures r.Err? <==> incompatible == Raise && d1 != d2 && !d1.Missing? && !d2.Missing?
    ensures r.Err? ==> r.error == MergeConflict
    ensures r.Ok? && d1 != d2 && !d1.Missing? && !d2.Missing? ==>
              r.value == (if incompatible == Remove then Empty else d1)
  {
    if d1 == d2 then Ok(d1)
    else if d1.Missing? then Ok(d2)
    else if d2.Missing? then Ok(d1)
    else if incompatible == Raise then Err(MergeConflict)
    else if incompatible == Remove then Ok(Empty)
    else Ok(d1)
  }

  /** The union of the keys found on one side only, with their values, and
      the merged common keys whose merged value is not `{}` (line 148). */
  function Combine(left: map<string, Value>, right: map<string, Value>, merged: map<string, Value>)
    : (r: map<string, Value>)
    requires merged.Keys == left.Keys * right.Keys
    ensures forall k :: k in r <==> (k in left || k in right) && !(k in merged && merged[k] == Empty)
  {
    map k | k in left.Keys + right.Keys && !(k in merged && merged[k] == Empty) ::
      if k in merged then merged[k] else if k in left then left[k] else right[k]
  }

  /** `dict_merge_impl(d1, d2)` (lines 133-148): two mappings merge key by
      key, any failing common key failing the whole merge; anything else is
      merged as leaves. */
  function Merge(d1: Value, d2: Value, incompatible: string): (r: Result<Value>)
    ensures r.Err? ==> incompatible == Raise && r.error == MergeConflict
    ensures d1.Dict? && d2.Dict? && r.Ok? ==>
              r.value.Dict? && r.value.entries.Keys <= d1.entries.Keys + d2.entries.Keys
    decreases d1
  {
    if d1.Dict? && d2.Dict? then
      var merged := map k | k in d1.entries.Keys * d2.entries.Keys ::
                      Merge(d1.entries[k], d2.entries[k], incompatible);
      if exists k :: k in merged && merged[k].Err? then Err(MergeConflict)
      else Ok(Dict(Combine(d1.entries, d2.entries, map k | k in merged :: merged[k].value)))
    else MergeLeaves(d1, d2, incompatible)
  }

  /** What a successful merge of two mappings holds at each key. */
  lemma MergeEntry(d1: Value, d2: Value, incompatible: string, k: string)
    requires d1.Dict? && d2.Dict? && Merge(d1, d2, incompatible).Ok?
    ensures var e := Merge(d1, d2, incompatible).value.entries;
      && (k in d1.entries && k !in d2.entries ==> k in e && e[k] == d1.entries[k])
      && (k !in d1.entries && k in d2.entries ==> k in e && e[k] == d2.entries[k])
      && (k !in d1.entries && k !in d2.entries ==> k !in e)
      && (k in d1.entries && k in d2.entries ==>
            var m := Merge(d1.entries[k], d2.entries[k], incompatible);
            m.Ok? && (k in e <==> m.value != Empty) && (k in e ==> e[k] == m.value))
  {
    if k in d1.entries && k in d2.entries {
      var merged := map k | k in d1.entries.Keys * d2.entries.Keys ::
                      Merge(d1.entries[k], d2.entries[k], incompatible);
      assert k in merged;
    }
  }

  /** Two values clash when, along a path of keys present on both sides,
      they reach two different values that are not both mappings and of
      which neither is missing. */
  predicate Clash(d1: Value, d2: Value)
    decreases d1
  {
    if d1.Dict? && d2.Dict? then
      exists k :: k in d1.entries && k in d2.entries && Clash(d1.entries[k], d2.entries[k])
    else d1 != d2 && !d1.Missing? && !d2.Missing?
  }

  /** A merge fails exactly when the policy is "raise" and the values clash. */
  lemma {:induction false} MergeFailsIff(d1: Value, d2: Value, incompatible: string)
    ensures Merge(d1, d2, incompatible).Err? <==> incompatible == Raise && Clash(d1, d2)
    decreases d1
  {
    if d1.Dict? && d2.Dict? {
      var merged := map k | k in d1.entries.Keys * d2.entries.Keys ::
                      Merge(d1.entries[k], d2.entries[k], incompatible);
      forall k | k in d1.entries && k in d2.entries
        ensures merged[k].Err? <==> incompatible == Raise && Clash(d1.entries[k], d2.entries[k])
      {
        MergeFailsIff(d1.entries[k], d2.entries[k], incompatible);
      }
      if Merge(d1, d2, incompatible).Err? {
        var k :| k in merged && merged[k].Err?;
        assert Clash(d1.entries[k], d2.entries[k]);
      }
      if incompatible == Raise && Clash(d1, d2) {
        var k :| k in d1.entries && k in d2.entries && Clash(d1.entries[k], d2.entries[k]);
        assert merged[k].Err?;
      }
    }
  }

  /** A value whose nested mappings are never empty (the shape merges
      produce: merged `{}` values are dropped). */
  predicate Pruned(v: Value)
    decreases v
  {
    v.Dict? ==> forall k :: k in v.entries ==> v.entries[k] != Empty && Pruned(v.entries[k])
  }

  /** Merging a pruned value with itself gives it back, under every policy. */
  lemma {:induction false} SelfMerge(x: Value, incompatible: string)
    requires Pruned(x)
    ensures Merge(x, x, incompatible) == Ok(x)
    decreases x
  {
    if x.Dict? {
      var merged := map k | k in x.entries.Keys * x.entries.Keys ::
                      Merge(x.entries[k], x.entries[k], incompatible);
      forall k | k in x.entries ensures merged[k] == Ok(x.entries[k]) {
        SelfMerge(x.entries[k], incompatible);
      }
      var values := map k | k in merged :: merged[k].value;
      assert values == x.entries;
      var c := Combine(x.entries, x.entries, values);
      assert c.Keys == x.entries.Keys;
      assert c == x.entries;
    }
  }

  /** A nested empty mapping disappears when a value is merged with itself. */
  lemma SelfMergeDropsEmpty(incompatible: string)
    ensures Merge(Dict(map["a" := Empty]), Dict(map["a" := Empty]), incompatible) == Ok(Empty)
  {
    var d := Dict(map["a" := Empty]);
    SelfMerge(Empty, incompatible);
    assert d.entries.Keys * d.entries.Keys == {"a"};
    var merged := map k | k in d.entries.Keys * d.entries.Keys :: Merge(d.entries[k], d.entries[k], incompatible);
    assert merged == map["a" := Ok(Empty)];
    assert Combine(d.entries, d.entries, map k | k in merged :: merged[k].value) == map[];
  }

  /** The missing placeholder is a unit on both sides. */
  lemma MissingUnit(x: Value, incompatible: string)
    ensures Merge(Missing, x, incompatible) == Ok(x)
    ensures Merge(x, Missing, incompatible) == Ok(x)
  {
  }

  /** The empty mapping is a unit on both sides for mappings. */
  lemma EmptyUnit(entries: map<string, Value>, incompatible: string)
    ensures Merge(Empty, Dict(entries), incompatible) == Ok(Dict(entries))
    ensures Merge(Dict(entries), Empty, incompatible) == Ok(Dict(entries))
  {
    assert Empty.entries.Keys * entries.Keys == {};
    assert entries.Keys * Empty.entries.Keys == {};
    assert Combine(map[], entries, map[]) == entries;
    assert Combine(entries, map[], map[]) == entries;
  }

  /** Under "raise" and "remove" the order of the two arguments does not
      matter; any other policy keeps the left leaf. */
  lemma {:induction false} MergeSymmetric(d1: Value, d2: Value, incompatible: string)
    requires incompatible == Raise || incompatible == Remove
    ensures Merge(d1, d2, incompatible) == Merge(d2, d1, incompatible)
    decreases d1
  {
    if d1.Dict? && d2.Dict? {
      var m12 := map k | k in d1.entries.Keys * d2.entries.Keys ::
                   Merge(d1.entries[k], d2.entries[k], incompatible);
      var m21 := map k | k in d2.entries.Keys * d1.entries.Keys ::
                   Merge(d2.entries[k], d1.entries[k], incompatible);
      forall k | k in d1.entries && k in d2.entries ensures m12[k] == m21[k] {
        MergeSymmetric(d1.entries[k], d2.entries[k], incompatible);
      }
      assert m12 == m21;
      if !exists k :: k in m12 && m12[k].Err? {
        CombineSymmetric(d1.entries, d2.entries, map k | k in m12 :: m12[k].value);
      }
    }
  }

  /** Combining does not depend on which side is left. */
  lemma CombineSymmetric(left: map<string, Value>, right: map<string, Value>, merged: map<string, Value>)
    requires merged.Keys == left.Keys * right.Keys
    ensures Combine(left, right, merged) == Combine(right, left, merged)
  {
    var c, c' := Combine(left, right, merged), Combine(right, left, merged);
    assert c.Keys == c'.Keys;
  }

  /** A merge of pruned values is pruned. */
  lemma {:induction false} MergeKeepsPruned(d1: Value, d2: Value, incompatible: string)
    requires Pruned(d1) && Pruned(d2) && Merge(d1, d2, incompatible).Ok?
    ensures Pruned(Merge(d1, d2, incompatible).value)
    decreases d1
  {
    if d1.Dict? && d2.Dict? {
      var e := Merge(d1, d2, incompatible).value.entries;
      forall k | k in e ensures e[k] != Empty && Pruned(e[k]) {
        MergeEntry(d1, d2, incompatible, k);
        if k in d1.entries && k in d2.entries {
          MergeKeepsPruned(d1.entries[k], d2.entries[k], incompatible);
        }
      }
    }
  }

  /** `dict_merge(*d)` (lines 132, 149-154): no argument gives `{}`, one
      gives it back, more are merged left to right. */
  function FoldMerge(ds: seq<Value>, incompatible: string): (r: Result<Value>)
    ensures r.Err? ==> incompatible == Raise && r.error == MergeConflict
    decreases |ds|
  {
    if |ds| == 0 then Ok(Empty)
    else if |ds| == 1 then Ok(ds[0])
    else
      var curr :- FoldMerge(ds[..|ds| - 1], incompatible);
      Merge(curr, ds[|ds| - 1], incompatible)
  }

  /** The nested call `dict_merge(v, d2[k])` of line 147 is the pairwise merge. */
  lemma PairFold(d1: Value, d2: Value, incompatible: string)
    ensures FoldMerge([d1, d2], incompatible) == Merge(d1, d2, incompatible)
  {
    assert [d1, d2][..1] == [d1];
  }

  /** A merge of pruned values is pruned, whatever their number. */
  lemma {:induction false} FoldKeepsPruned(ds: seq<Value>, incompatible: string)
    requires forall i :: 0 <= i < |ds| ==> Pruned(ds[i])
    requires FoldMerge(ds, incompatible).Ok?
    ensures Pruned(FoldMerge(ds, incompatible).value)
    decreases |ds|
  {
    if |ds| > 1 {
      var front := ds[..|ds| - 1];
      FoldKeepsPruned(front, incompatible);
      MergeKeepsPruned(FoldMerge(front, incompatible).value, ds[|ds| - 1], incompatible);
    }
  }

  /** Once a prefix fails, the whole sequence fails the same way. */
  lemma {:induction false} FoldPrefixFails(ds: seq<Value>, i: nat, incompatible: string)
    requires 1 <= i <= |ds| && FoldMerge(ds[..i], incompatible).Err?
    ensures FoldMerge(ds, incompatible) == FoldMerge(ds[..i], incompatible)
    decreases |ds| - i
  {
    if i < |ds| {
      assert ds[..i + 1][..i] == ds[..i];
      FoldPrefixFails(ds, i + 1, incompatible);
    } else {
      assert ds[..i] == ds;
    }
  }

  /** The loop of lines 149-154. */
  method DictMergeAll(ds: seq<Value>, incompatible: string) returns (r: Result<Value>)
    ensures r == FoldMerge(ds, incompatible)
  {
    if |ds| == 0 {
      return Ok(Empty);
    }
    var curr := ds[0];
    assert ds[..1] == [ds[0]];
    for i := 1 to |ds|
      invariant FoldMerge(ds[..i], incompatible) == Ok(curr)
    {
      assert ds[..i + 1][..i] == ds[..i] && ds[..i + 1][i] == ds[i];
      var next := Merge(curr, ds[i], incompatible);
      if next.Err? {
        FoldPrefixFails(ds, i + 1, incompatible);
        return next;
      }
      curr := next.value;
    }
    assert ds[..|ds|] == ds;
    return Ok(curr);
  }
}
