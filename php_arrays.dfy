/** The small part of PHP's value and array semantics that the model logger relies on:
    attribute values compared with `!==`, ordered key/value arrays, and the two key
    filters `array_intersect_key` and `array_diff_key` (applied to `array_flip` of a
    list of names). */
module PhpArrays {

  datatype Option<+T> = None | Some(value: T)

  /** An attribute value. Strict identity `!==` on these is Dafny's `!=`; the
      cross-type details of PHP's identity (int against float, ...) are not modelled. */
  datatype Value = Null | Bool(b: bool) | Int(i: int) | Str(s: string)

  /** A PHP array with string keys, in insertion order. */
  type Entries = seq<(string, Value)>

  /** A PHP `mixed` argument: either an array or some other (scalar or null) value. */
  datatype Mixed = Array(entries: Entries) | Scalar(value: Value)

  /** The keys of an array, in order. */
  function KeyList(a: Entries): (ks: seq<string>)
    ensures |ks| == |a|
  {
    if a == [] then [] else KeyList(a[..|a| - 1]) + [a[|a| - 1].0]
  }

  /** PHP arrays never hold a key twice. */
  predicate DistinctKeys(a: Entries) {
    a == [] || (DistinctKeys(a[..|a| - 1]) && a[|a| - 1].0 !in KeyList(a[..|a| - 1]))
  }

  /** The key-to-value view of an array. */
  function ToMap(a: Entries): (m: map<string, Value>)
    ensures forall k :: k in m <==> k in KeyList(a)
  {
    if a == [] then map[] else ToMap(a[..|a| - 1])[a[|a| - 1].0 := a[|a| - 1].1]
  }

  /** `$a[$k] ?? null`: the value under `k`, or `null` when there is none. */
  function ValueOrNull(a: Entries, k: string): (v: Value)
    ensures k !in KeyList(a) ==> v == Null
    ensures k in ToMap(a) ==> v == ToMap(a)[k]
    ensures v != Null ==> k in ToMap(a) && ToMap(a)[k] == v
  {
    if k in ToMap(a) then ToMap(a)[k] else Null
  }

  /** Splitting off the last entry undoes appending it. */
  lemma Snoc(a: Entries, e: (string, Value))
    ensures (a + [e])[..|a|] == a && (a + [e])[|a|] == e && a + [e] != []
  {
  }

  /** The entries of `a` whose key is (`keep`) or is not (`!keep`) in `names`, in order:
      `array_intersect_key($a, array_flip($names))` when `keep`, `array_diff_key(...)`
      otherwise. */
  function FilterKeys(a: Entries, names: seq<string>, keep: bool): (r: Entries)
    ensures forall k :: k in KeyList(r) <==> k in KeyList(a) && (k in names) == keep
    ensures ToMap(r) == Restrict(ToMap(a), names, keep)
    ensures DistinctKeys(a) ==> DistinctKeys(r)
  {
    if a == [] then []
    else
      var init, e := a[..|a| - 1], a[|a| - 1];
      var rest := FilterKeys(init, names, keep);
      Snoc(rest, e);
      RestrictUpdate(ToMap(init), names, keep, e.0, e.1);
      if (e.0 in names) == keep then rest + [e] else rest
  }

  /** Filtering one more entry appends it exactly when its key passes. */
  lemma FilterKeysSnoc(a: Entries, e: (string, Value), names: seq<string>, keep: bool)
    ensures FilterKeys(a + [e], names, keep) ==
      if (e.0 in names) == keep then FilterKeys(a, names, keep) + [e] else FilterKeys(a, names, keep)
  {
    Snoc(a, e);
  }

  /** The filters keep the order of the entries: filtering a concatenation is concatenating
      the filtered parts. */
  lemma {:induction false} FilterKeysAppend(a: Entries, b: Entries, names: seq<string>, keep: bool)
    ensures FilterKeys(a + b, names, keep) == FilterKeys(a, names, keep) + FilterKeys(b, names, keep)
  {
    if b == [] {
      assert a + b == a;
    } else {
      var init, e := b[..|b| - 1], b[|b| - 1];
      assert b == init + [e];
      assert a + b == (a + init) + [e];
      FilterKeysAppend(a, init, names, keep);
      FilterKeysSnoc(a + init, e, names, keep);
      FilterKeysSnoc(init, e, names, keep);
      AppendSnoc(FilterKeys(a, names, keep), FilterKeys(init, names, keep), e);
    }
  }

  /** Appending an entry after a concatenation appends it to the second part. */
  lemma AppendSnoc(x: Entries, y: Entries, e: (string, Value))
    ensures x + (y + [e]) == (x + y) + [e]
  {
  }

  /** The part of `m` whose keys are (`keep`) or are not (`!keep`) in `names`. */
  function Restrict(m: map<string, Value>, names: seq<string>, keep: bool): map<string, Value> {
    map k | k in m && (k in names) == keep :: m[k]
  }

  /** Restricting after an update is updating after restricting, for a key that passes. */
  lemma RestrictUpdate(m: map<string, Value>, names: seq<string>, keep: bool, k: string, v: Value)
    ensures Restrict(m[k := v], names, keep) ==
      if (k in names) == keep then Restrict(m, names, keep)[k := v] else Restrict(m, names, keep)
  {
  }

  /** `array_intersect_key($a, array_flip($names))`: the entries whose key is named. */
  function IntersectKey(a: Entries, names: seq<string>): (r: Entries)
    ensures ToMap(r) == Restrict(ToMap(a), names, true)
    ensures DistinctKeys(a) ==> DistinctKeys(r)
  {
    FilterKeys(a, names, true)
  }

  /** `array_diff_key($a, array_flip($names))`: the entries whose key is not named. */
  function DiffKey(a: Entries, names: seq<string>): (r: Entries)
    ensures ToMap(r) == Restrict(ToMap(a), names, false)
    ensures DistinctKeys(a) ==> DistinctKeys(r)
  {
    FilterKeys(a, names, false)
  }
}
