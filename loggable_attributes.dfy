/** `getLoggableAttributes`: which attributes of a model changed, after the visible,
    hidden and timestamp filters, paired with their original values. */
module LoggableAttributes {
  import opened PhpArrays

  /** The housekeeping timestamp columns, never logged. */
  const Timestamps: seq<string> := ["created_at", "updated_at", "deleted_at"]

  /** What the logger reads from an Eloquent model: its class name and the results of
      `getAttributes()`, `getOriginal()`, `getChanges()`, `getVisible()` and `getHidden()`. */
  datatype Model = Model(
    className: string,
    attributes: Entries,
    original: Entries,
    changes: Entries,
    visible: seq<string>,
    hidden: seq<string>)

  /** The array handed to `withProperties`: `[]`, or `['attributes' => ..., 'old' => ...]`. */
  datatype Properties = NoProperties | Changes(attributes: Entries, oldValues: Entries)

  /** Whether the filters let the key `k` through: the visible list, when non-empty, must
      name it; the hidden list must not; and it is not a timestamp column. */
  predicate Kept(model: Model, k: string) {
    && (|model.visible| > 0 ==> k in model.visible)
    && k !in model.hidden
    && k !in Timestamps
  }

  /** The part of an attribute map that the filters let through. */
  function KeptPart(model: Model, m: map<string, Value>): map<string, Value> {
    map k | k in m && Kept(model, k) :: m[k]
  }

  /** The candidate attributes after the three filters, in their original order. */
  function Filtered(model: Model, values: Entries): (r: Entries)
    ensures forall k :: k in KeyList(r) <==> k in KeyList(values) && Kept(model, k)
    ensures ToMap(r) == KeptPart(model, ToMap(values))
    ensures DistinctKeys(values) ==> DistinctKeys(r)
  {
    var visible := if |model.visible| > 0 then IntersectKey(values, model.visible) else values;
    var hidden := if |model.hidden| > 0 then DiffKey(visible, model.hidden) else visible;
    DiffKey(hidden, Timestamps)
  }

  /** The filters keep the order of the candidates: filtering a concatenation is
      concatenating the filtered parts. */
  lemma FilteredAppend(model: Model, a: Entries, b: Entries)
    ensures Filtered(model, a + b) == Filtered(model, a) + Filtered(model, b)
  {
    FilterKeysAppend(a, b, model.visible, true);
    var va := if |model.visible| > 0 then IntersectKey(a, model.visible) else a;
    var vb := if |model.visible| > 0 then IntersectKey(b, model.visible) else b;
    FilterKeysAppend(va, vb, model.hidden, false);
    var ha := if |model.hidden| > 0 then DiffKey(va, model.hidden) else va;
    var hb := if |model.hidden| > 0 then DiffKey(vb, model.hidden) else vb;
    FilterKeysAppend(ha, hb, Timestamps, false);
  }

  /** The `$changed` and `$old` arrays the loop builds from `values`: every entry whose new
      value is not identical to the original value (or `null` when there is none). */
  function ChangedAndOld(values: Entries, original: Entries): (r: (Entries, Entries))
    ensures KeyList(r.0) == KeyList(r.1)
    ensures forall k :: k in KeyList(r.0) ==> k in KeyList(values)
    ensures DistinctKeys(values) ==> DistinctKeys(r.0) && DistinctKeys(r.1)
  {
    if values == [] then ([], [])
    else
      var (changed, oldValues) := ChangedAndOld(values[..|values| - 1], original);
      var (key, newValue) := values[|values| - 1];
      var oldValue := ValueOrNull(original, key);
      Snoc(changed, (key, newValue));
      Snoc(oldValues, (key, oldValue));
      if oldValue != newValue then (changed + [(key, newValue)], oldValues + [(key, oldValue)])
      else (changed, oldValues)
  }

  /** One more iteration of the loop: the next entry is appended to both arrays exactly when
      its value changed. */
  lemma ChangedAndOldSnoc(values: Entries, e: (string, Value), original: Entries)
    ensures var r, o := ChangedAndOld(values, original), ValueOrNull(original, e.0);
      ChangedAndOld(values + [e], original) ==
        if o != e.1 then (r.0 + [e], r.1 + [(e.0, o)]) else r
  {
    Snoc(values, e);
  }

  /** The loop keeps the order of the candidates: over a concatenation, `$changed` and
      `$old` are the concatenations of the arrays built from each part. */
  lemma {:induction false} ChangedAndOldAppend(a: Entries, b: Entries, original: Entries)
    ensures ChangedAndOld(a + b, original).0 == ChangedAndOld(a, original).0 + ChangedAndOld(b, original).0
    ensures ChangedAndOld(a + b, original).1 == ChangedAndOld(a, original).1 + ChangedAndOld(b, original).1
  {
    if b == [] {
      assert a + b == a;
      assert ChangedAndOld(b, original) == ([], []);
    } else {
      var init, e := b[..|b| - 1], b[|b| - 1];
      assert b == init + [e];
      assert a + b == (a + init) + [e];
      ChangedAndOldAppend(a, init, original);
      ChangedAndOldSnoc(a + init, e, original);
      ChangedAndOldSnoc(init, e, original);
      var ra, ri, o := ChangedAndOld(a, original), ChangedAndOld(init, original), ValueOrNull(original, e.0);
      if o != e.1 {
        assert ChangedAndOld(b, original) == (ri.0 + [e], ri.1 + [(e.0, o)]);
        AppendSnoc(ra.0, ri.0, e);
        AppendSnoc(ra.1, ri.1, (e.0, o));
      } else {
        assert ChangedAndOld(b, original) == ri;
      }
    }
  }

  /** What `getLoggableAttributes($model, $values)` returns. */
  function Loggable(model: Model, values: Mixed): (r: Properties)
    ensures !values.Array? ==> r == NoProperties
    ensures r.Changes? ==> r.attributes != [] && KeyList(r.attributes) == KeyList(r.oldValues)
  {
    match values
    case Scalar(_) => NoProperties
    case Array(a) =>
      var (changed, oldValues) := ChangedAndOld(Filtered(model, a), model.original);
      if changed == [] then NoProperties else Changes(changed, oldValues)
  }

  /** `getLoggableAttributes`, step by step as the source does it: the filters reassign the
      candidate array, then one pass (`CollectChanges`) builds `$changed` and `$old`. */
  method GetLoggableAttributes(model: Model, values: Mixed) returns (r: Properties)
    ensures r == Loggable(model, values)
  {
    if !values.Array? {
      return NoProperties;
    }
    var candidates := values.entries;
    if |model.visible| > 0 {
      candidates := IntersectKey(candidates, model.visible);
    }
    if |model.hidden| > 0 {
      candidates := DiffKey(candidates, model.hidden);
    }
    candidates := DiffKey(candidates, Timestamps);

    var changed, oldValues := CollectChanges(candidates, model.original);
    if changed == [] {
      return NoProperties;
    }
    return Changes(changed, oldValues);
  }

  /** The `foreach` loop of `getLoggableAttributes`: it appends each entry whose new value is
      not identical to its original-or-null value to `$changed`, and that original value to
      `$old`. */
  method CollectChanges(candidates: Entries, original: Entries) returns (changed: Entries, oldValues: Entries)
    ensures (changed, oldValues) == ChangedAndOld(candidates, original)
  {
    changed, oldValues := [], [];
    var i := 0;
    while i < |candidates|
      invariant 0 <= i <= |candidates|
      invariant (changed, oldValues) == ChangedAndOld(candidates[..i], original)
    {
      var (key, newValue) := candidates[i];
      var oldValue := ValueOrNull(original, key);
      assert candidates[..i + 1] == candidates[..i] + [(key, newValue)];
      ChangedAndOldSnoc(candidates[..i], (key, newValue), original);
      if oldValue != newValue {
        changed := changed + [(key, newValue)];
        oldValues := oldValues + [(key, oldValue)];
      }
      i := i + 1;
    }
    assert candidates[..i] == candidates;
  }

  /** The logged attributes of a result, as a map (empty for `[]`). */
  function AttributesOf(p: Properties): map<string, Value> {
    if p.Changes? then ToMap(p.attributes) else map[]
  }

  /** The logged original values of a result, as a map (empty for `[]`). */
  function OldOf(p: Properties): map<string, Value> {
    if p.Changes? then ToMap(p.oldValues) else map[]
  }

  /** The changed keys of `values` against `original`, with the new values. */
  function ChangedMap(m: map<string, Value>, original: Entries): map<string, Value> {
    map k | k in m && m[k] != ValueOrNull(original, k) :: m[k]
  }

  /** The changed keys of `values` against `original`, with the original-or-null values. */
  function OldMap(m: map<string, Value>, original: Entries): map<string, Value> {
    map k | k in m && m[k] != ValueOrNull(original, k) :: ValueOrNull(original, k)
  }

  /** The loop's result as maps: exactly the changed keys, with new and old values. */
  lemma {:induction false} ChangedAndOldMaps(values: Entries, original: Entries)
    requires DistinctKeys(values)
    ensures ToMap(ChangedAndOld(values, original).0) == ChangedMap(ToMap(values), original)
    ensures ToMap(ChangedAndOld(values, original).1) == OldMap(ToMap(values), original)
  {
    if values != [] {
      var init, e := values[..|values| - 1], values[|values| - 1];
      ChangedAndOldMaps(init, original);
      var r := ChangedAndOld(init, original);
      var m, o := ToMap(init), ValueOrNull(original, e.0);
      assert e.0 !in m;
      assert ToMap(values) == m[e.0 := e.1];
      MapsAfterInsert(m, original, e.0, e.1);
      if o != e.1 {
        assert ChangedAndOld(values, original) == (r.0 + [(e.0, e.1)], r.1 + [(e.0, o)]);
        Snoc(r.0, (e.0, e.1));
        Snoc(r.1, (e.0, o));
      } else {
        assert ChangedAndOld(values, original) == r;
      }
    }
  }

  /** Adding a fresh key adds it to both maps when its value changed, and to neither
      otherwise. */
  lemma MapsAfterInsert(m: map<string, Value>, original: Entries, key: string, v: Value)
    requires key !in m
    ensures var o := ValueOrNull(original, key);
      && ChangedMap(m[key := v], original) == (if v != o then ChangedMap(m, original)[key := v] else ChangedMap(m, original))
      && OldMap(m[key := v], original) == (if v != o then OldMap(m, original)[key := o] else OldMap(m, original))
  {
  }

  /** Soundness and completeness: a key is logged exactly when it is in the candidate array,
      survives the filters and its new value is not identical to its original value (or
      `null` when it has none); it is then logged with its new value under `attributes`
      and that original-or-null value under `old`. */
  lemma LoggableSpec(model: Model, a: Entries)
    requires DistinctKeys(a)
    ensures var r := Loggable(model, Array(a));
      && (forall k :: k in AttributesOf(r) <==>
            k in ToMap(a) && Kept(model, k) && ToMap(a)[k] != ValueOrNull(model.original, k))
      && (forall k :: k in AttributesOf(r) ==> AttributesOf(r)[k] == ToMap(a)[k])
      && OldOf(r).Keys == AttributesOf(r).Keys
      && (forall k :: k in OldOf(r) ==> OldOf(r)[k] == ValueOrNull(model.original, k))
  {
    var f := Filtered(model, a);
    var co := ChangedAndOld(f, model.original);
    var r := Loggable(model, Array(a));
    ChangedAndOldMaps(f, model.original);
    assert |co.0| == |co.1|;
    assert AttributesOf(r) == ChangedMap(ToMap(f), model.original);
    assert OldOf(r) == OldMap(ToMap(f), model.original);
  }

  /** The result is empty (no `attributes`, no `old`) exactly when every key that survives
      the filters keeps its original-or-null value. */
  lemma NoPropertiesIffUnchanged(model: Model, a: Entries)
    requires DistinctKeys(a)
    ensures Loggable(model, Array(a)) == NoProperties <==>
      forall k :: k in ToMap(a) && Kept(model, k) ==> ToMap(a)[k] == ValueOrNull(model.original, k)
  {
    var r := Loggable(model, Array(a));
    LoggableSpec(model, a);
    if r.Changes? {
      var k := r.attributes[0].0;
      KeyListAt(r.attributes, 0);
      assert k in AttributesOf(r);
      assert ToMap(a)[k] != ValueOrNull(model.original, k);
    } else {
      assert AttributesOf(r) == map[];
    }
  }

  /** The `i`-th key is the key of the `i`-th entry. */
  lemma {:induction false} KeyListAt(a: Entries, i: nat)
    requires i < |a|
    ensures KeyList(a)[i] == a[i].0
  {
    if i < |a| - 1 {
      KeyListAt(a[..|a| - 1], i);
    }
  }

  /** Every logged key is a key of the candidate array that the filters let through (so it
      is in the visible list when that is non-empty, never in the hidden list, never a
      timestamp column), and `attributes` and `old` list the same keys in the same order. */
  lemma LoggedKeys(model: Model, values: Mixed)
    ensures var r := Loggable(model, values);
      r.Changes? ==>
        && KeyList(r.attributes) == KeyList(r.oldValues)
        && values.Array?
        && (forall k :: k in KeyList(r.attributes) ==> k in KeyList(values.entries) && Kept(model, k))
        && (DistinctKeys(values.entries) ==> DistinctKeys(r.attributes) && DistinctKeys(r.oldValues))
  {
  }

  /** `created_at`, `updated_at` and `deleted_at` are never logged, whatever the visible and
      hidden lists say. */
  lemma TimestampsNeverLogged(model: Model, values: Mixed)
    ensures var r := Loggable(model, values);
      r.Changes? ==> forall k :: k in Timestamps ==> k !in KeyList(r.attributes) && k !in KeyList(r.oldValues)
  {
  }

  /** Because a missing original reads as `null`, a key with no original whose new value is
      `null` is not logged. */
  lemma NullWithoutOriginalNotLogged(model: Model, a: Entries, k: string)
    requires DistinctKeys(a)
    requires k in ToMap(a) && ToMap(a)[k] == Null && k !in ToMap(model.original)
    ensures k !in AttributesOf(Loggable(model, Array(a)))
  {
    LoggableSpec(model, a);
  }
}
