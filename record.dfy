/**
 * The map utilities of record/record.go.
 *
 * Go ranges over a map in no specified order; each loop here takes the
 * next key with `:|`, which commits to no order either, so every contract
 * holds whichever order the keys are visited in. A nil map or slice
 * argument whose nil-ness decides the result is an `Option`; where the
 * source only reads the argument, nil and empty behave alike and the
 * argument is a plain `map` or `seq`.
 */
module Record {
  import opened Wrappers

  /** `m` restricted to the keys in `keys`. */
  function Restrict<K(!new), V>(m: map<K, V>, keys: set<K>): (r: map<K, V>)
    ensures forall k :: k in r <==> k in m && k in keys
    ensures forall k :: k in r ==> r[k] == m[k]
  {
    map k | k in m.Keys && k in keys :: m[k]
  }

  // ------------------------------------------------------------- Keys, Values

  /** No element occurs twice. */
  predicate Distinct<T(==)>(s: seq<T>)
  {
    forall i, j :: 0 <= i < j < |s| ==> s[i] != s[j]
  }

  /** The keys in `order` are exactly the keys of `m`, each once: an order in which `m` can be ranged over. */
  ghost predicate Enumerates<K(!new), V>(m: map<K, V>, order: seq<K>)
  {
    && |order| == |m|
    && Distinct(order)
    && forall k :: k in order <==> k in m
  }

  /** `Keys`: every key of the map exactly once, in no specified order. */
  method Keys<K(!new), V>(m: map<K, V>) returns (keys: seq<K>)
    ensures Enumerates(m, keys)
  {
    keys := [];
    var rest := m.Keys;
    while rest != {}
      invariant rest <= m.Keys
      invariant forall k :: k in keys <==> k in m && k !in rest
      invariant Distinct(keys)
      invariant |keys| + |rest| == |m|
      decreases |rest|
    {
      var k :| k in rest;
      keys := keys + [k];
      rest := rest - {k};
    }
  }

  /** The values `m` holds at the keys of `order`, in that order. */
  function Along<K(!new), V>(m: map<K, V>, order: seq<K>): (r: seq<V>)
    requires forall i :: 0 <= i < |order| ==> order[i] in m
    ensures |r| == |order|
    ensures forall i :: 0 <= i < |order| ==> r[i] == m[order[i]]
  {
    seq(|order|, i requires 0 <= i < |order| => m[order[i]])
  }

  /** Along an enumeration of `m`, the value of every key occurs, and every entry is the value of some key. */
  lemma AlongHasValues<K(!new), V>(m: map<K, V>, order: seq<K>)
    requires Enumerates(m, order)
    ensures forall k :: k in m ==> m[k] in Along(m, order)
    ensures forall i :: 0 <= i < |order| ==> exists k :: k in m && m[k] == Along(m, order)[i]
  {
    var r := Along(m, order);
    forall k | k in m
      ensures m[k] in r
    {
      var i :| 0 <= i < |order| && order[i] == k;
      assert r[i] == m[k];
    }
    forall i | 0 <= i < |order|
      ensures exists k :: k in m && m[k] == r[i]
    {
      assert order[i] in m && m[order[i]] == r[i];
    }
  }

  /**
   * `Values`: the values of the map, one per key, in the order of some
   * ranging over its keys (`order`, which the source does not fix).
   */
  method Values<K(!new), V>(m: map<K, V>) returns (values: seq<V>, ghost order: seq<K>)
    ensures |values| == |m|
    ensures forall k :: k in m ==> m[k] in values
    ensures forall i :: 0 <= i < |values| ==> exists k :: k in m && m[k] == values[i]
    ensures Enumerates(m, order)
    ensures values == Along(m, order)
  {
    values, order := ValuesAlong(m);
    AlongHasValues(m, order);
  }

  /** The loop of `Values`: ranges over the keys in some order, collecting each key's value. */
  method ValuesAlong<K(!new), V>(m: map<K, V>) returns (values: seq<V>, ghost order: seq<K>)
    ensures Enumerates(m, order)
    ensures values == Along(m, order)
  {
    values, order := [], [];
    var rest := m.Keys;
    while rest != {}
      invariant rest <= m.Keys
      invariant forall k :: k in order <==> k in m && k !in rest
      invariant Distinct(order)
      invariant |order| + |rest| == |m|
      invariant values == Along(m, order)
      decreases |rest|
    {
      var k :| k in rest;
      values, order := values + [m[k]], order + [k];
      rest := rest - {k};
    }
  }

  // ----------------------------------------------------- Clone, Filter, MapValues

  /** `Clone`: nil for nil, otherwise a map with the same keys and values. */
  method Clone<K(!new), V>(m: Option<map<K, V>>) returns (r: Option<map<K, V>>)
    ensures r.None? <==> m.None?
    ensures r.Some? ==> r.value == m.value
  {
    if m.None? {
      return None;
    }
    var clone: map<K, V> := map[];
    var rest := m.value.Keys;
    while rest != {}
      invariant rest <= m.value.Keys
      invariant clone == Restrict(m.value, m.value.Keys - rest)
      decreases |rest|
    {
      var k :| k in rest;
      clone := clone[k := m.value[k]];
      rest := rest - {k};
    }
    return Some(clone);
  }

  /** `Filter`: nil for nil, otherwise exactly the entries satisfying the predicate, values unchanged. */
  method Filter<K(!new), V>(m: Option<map<K, V>>, pred: (K, V) -> bool) returns (r: Option<map<K, V>>)
    ensures r.None? <==> m.None?
    ensures r.Some? ==> forall k :: k in r.value <==> k in m.value && pred(k, m.value[k])
    ensures r.Some? ==> forall k :: k in r.value ==> r.value[k] == m.value[k]
  {
    if m.None? {
      return None;
    }
    var result: map<K, V> := map[];
    var rest := m.value.Keys;
    while rest != {}
      invariant rest <= m.value.Keys
      invariant forall k :: k in result <==> k in m.value && k !in rest && pred(k, m.value[k])
      invariant forall k :: k in result ==> result[k] == m.value[k]
      decreases |rest|
    {
      var k :| k in rest;
      var v := m.value[k];
      if pred(k, v) {
        result := result[k := v];
      }
      rest := rest - {k};
    }
    return Some(result);
  }

  /** `MapValues`: nil for nil, otherwise the same keys with the mapper applied to each value. */
  method MapValues<K(!new), InV, OutV>(m: Option<map<K, InV>>, mapper: InV -> OutV) returns (r: Option<map<K, OutV>>)
    ensures r.None? <==> m.None?
    ensures r.Some? ==> r.value.Keys == m.value.Keys
    ensures r.Some? ==> forall k :: k in r.value ==> r.value[k] == mapper(m.value[k])
  {
    if m.None? {
      return None;
    }
    var result: map<K, OutV> := map[];
    var rest := m.value.Keys;
    while rest != {}
      invariant rest <= m.value.Keys
      invariant result.Keys == m.value.Keys - rest
      invariant forall k :: k in result ==> result[k] == mapper(m.value[k])
      decreases |rest|
    {
      var k :| k in rest;
      result := result[k := mapper(m.value[k])];
      rest := rest - {k};
    }
    return Some(result);
  }

  // ------------------------------------------------------------------ Merge

  /** The maps laid over one another in order, later entries replacing earlier ones. */
  function Merged<K(!new), V>(maps: seq<map<K, V>>): (r: map<K, V>)
    ensures |maps| > 0 ==> maps[|maps| - 1].Keys <= r.Keys
  {
    if maps == [] then map[] else Merged(maps[..|maps| - 1]) + maps[|maps| - 1]
  }

  /** The merged map has exactly the keys of the arguments. */
  lemma {:induction false} MergedKeys<K(!new), V>(maps: seq<map<K, V>>, k: K)
    ensures k in Merged(maps) <==> exists i :: 0 <= i < |maps| && k in maps[i]
  {
    if maps != [] {
      var init := maps[..|maps| - 1];
      MergedKeys(init, k);
      if k in Merged(init) {
        var i :| 0 <= i < |init| && k in init[i];
        assert k in maps[i];
      }
      if i :| 0 <= i < |maps| - 1 && k in maps[i] {
        assert k in init[i];
      }
    }
  }

  /** A key takes its value from the last argument that has it. */
  lemma {:induction false} MergedLastWins<K(!new), V>(maps: seq<map<K, V>>, k: K, i: nat)
    requires i < |maps| && k in maps[i]
    requires forall j :: i < j < |maps| ==> k !in maps[j]
    ensures k in Merged(maps) && Merged(maps)[k] == maps[i][k]
  {
    var n := |maps| - 1;
    if i < n {
      var init := maps[..n];
      assert init[i] == maps[i];
      MergedLastWins(init, k, i);
    }
  }

  /** Copies every entry of `m` into `r`, replacing the values of keys `r` already has. */
  method PutAll<K(!new), V>(r: map<K, V>, m: map<K, V>) returns (r': map<K, V>)
    ensures r' == r + m
  {
    r' := r;
    var rest := m.Keys;
    while rest != {}
      invariant rest <= m.Keys
      invariant r' == r + Restrict(m, m.Keys - rest)
      decreases |rest|
    {
      var k :| k in rest;
      r' := r'[k := m[k]];
      rest := rest - {k};
    }
    assert Restrict(m, m.Keys - rest) == m;
  }

  /** `Merge`: one map holding every key of the arguments, each with the value of the last argument that has it. */
  method Merge<K(!new), V>(maps: seq<map<K, V>>) returns (r: map<K, V>)
    ensures r == Merged(maps)
  {
    r := map[];
    for i := 0 to |maps|
      invariant r == Merged(maps[..i])
    {
      r := PutAll(r, maps[i]);
      assert maps[..i + 1][..i] == maps[..i];
    }
    assert maps[..|maps|] == maps;
  }

  /** The source's example: merging {a: 1, b: 2} with {b: 3, c: 4} gives {a: 1, b: 3, c: 4}. */
  lemma MergeExample()
    ensures Merged([map["a" := 1, "b" := 2], map["b" := 3, "c" := 4]]) == map["a" := 1, "b" := 3, "c" := 4]
  {
    var m1, m2 := map["a" := 1, "b" := 2], map["b" := 3, "c" := 4];
    assert [m1, m2][..1] == [m1];
    var none: seq<map<string, int>> := [];
    assert [m1][..0] == none;
  }

  // ---------------------------------------------------------- ToSet, Associate

  /** The set of the elements of a slice. */
  function Elements<T(!new)>(s: seq<T>): (r: set<T>)
    ensures forall x :: x in r <==> x in s
    ensures |r| <= |s|
  {
    if s == [] then
      {}
    else
      var init := s[..|s| - 1];
      var r := Elements(init) + {s[|s| - 1]};
      assert s == init + [s[|s| - 1]];
      r
  }

  /** `ToSet`: nil for nil, otherwise a map whose keys are the elements of the slice, duplicates collapsed. */
  method ToSet<K(!new)>(input: Option<seq<K>>) returns (r: Option<map<K, ()>>)
    ensures r.None? <==> input.None?
    ensures r.Some? ==> r.value.Keys == Elements(input.value)
    ensures r.Some? ==> |r.value| <= |input.value|
  {
    if input.None? {
      return None;
    }
    var s := input.value;
    var result: map<K, ()> := map[];
    for i := 0 to |s|
      invariant result.Keys == Elements(s[..i])
    {
      assert s[..i + 1][..i] == s[..i];
      result := result[s[i] := ()];
    }
    assert s[..|s|] == s;
    return Some(result);
  }

  /** The source's example: the elements of ["a", "b", "a"] are the two keys "a" and "b". */
  lemma ToSetExample()
    ensures Elements(["a", "b", "a"]) == {"a", "b"}
    ensures |Elements(["a", "b", "a"])| == 2
  {
    var e := Elements(["a", "b", "a"]);
    assert "a" == ["a", "b", "a"][0] && "b" == ["a", "b", "a"][1];
    assert e == {"a", "b"};
  }

  /** The map built from the pairs the transform gives, in order, later pairs replacing earlier ones with the same key. */
  function Associated<T, K(!new), V>(s: seq<T>, transform: T -> (K, V)): (r: map<K, V>)
    ensures s != [] ==> transform(s[|s| - 1]).0 in r
  {
    if s == [] then
      map[]
    else
      var kv := transform(s[|s| - 1]);
      Associated(s[..|s| - 1], transform)[kv.0 := kv.1]
  }

  /** A key is in the associated map exactly when the transform gives it for some element. */
  lemma {:induction false} AssociatedKeys<T, K(!new), V>(s: seq<T>, transform: T -> (K, V), k: K)
    ensures k in Associated(s, transform) <==> exists i :: 0 <= i < |s| && transform(s[i]).0 == k
  {
    if s != [] {
      var init := s[..|s| - 1];
      AssociatedKeys(init, transform, k);
      if k in Associated(init, transform) {
        var i :| 0 <= i < |init| && transform(init[i]).0 == k;
        assert init[i] == s[i];
      }
      if i :| 0 <= i < |s| - 1 && transform(s[i]).0 == k {
        assert init[i] == s[i];
      }
    }
  }

  /** A key takes the value of the last pair that has it. */
  lemma {:induction false} AssociatedLastWins<T, K(!new), V>(s: seq<T>, transform: T -> (K, V), i: nat)
    requires i < |s|
    requires forall j :: i < j < |s| ==> transform(s[j]).0 != transform(s[i]).0
    ensures transform(s[i]).0 in Associated(s, transform)
    ensures Associated(s, transform)[transform(s[i]).0] == transform(s[i]).1
  {
    var n := |s| - 1;
    if i < n {
      var init := s[..n];
      assert init[i] == s[i];
      forall j | i < j < |init|
        ensures transform(init[j]).0 != transform(init[i]).0
      {
        assert init[j] == s[j];
      }
      AssociatedLastWins(init, transform, i);
    }
  }

  /** `Associate`: nil for nil, otherwise the map of the transform's pairs, the last pair for a key winning. */
  method Associate<T, K(!new), V>(input: Option<seq<T>>, transform: T -> (K, V)) returns (r: Option<map<K, V>>)
    ensures r.None? <==> input.None?
    ensures r.Some? ==> r.value == Associated(input.value, transform)
  {
    if input.None? {
      return None;
    }
    var s := input.value;
    var result: map<K, V> := map[];
    for i := 0 to |s|
      invariant result == Associated(s[..i], transform)
    {
      assert s[..i + 1][..i] == s[..i];
      var kv := transform(s[i]);
      result := result[kv.0 := kv.1];
    }
    assert s[..|s|] == s;
    return Some(result);
  }

  // ------------------------------------------------------ SortedKeys, SortedValues

  /** Ascending order. */
  predicate Sorted(s: seq<int>)
  {
    forall p, q :: 0 <= p < q < |s| ==> s[p] <= s[q]
  }

  /** Sorts `a` in place, ascending, keeping its elements (stands for `slices.Sort`). */
  method Sort(a: array<int>)
    modifies a
    ensures Sorted(a[..])
    ensures multiset(a[..]) == multiset(old(a[..]))
  {
    for i := 0 to a.Length
      invariant Sorted(a[..i])
      invariant multiset(a[..]) == multiset(old(a[..]))
    {
      var j := i;
      while j > 0 && a[j - 1] > a[j]
        invariant 0 <= j <= i
        invariant forall p, q :: 0 <= p < q <= i && q != j ==> a[p] <= a[q]
        invariant multiset(a[..]) == multiset(old(a[..]))
        decreases j
      {
        SwapAdjacent(a, j);
        j := j - 1;
      }
    }
  }

  /** Exchanges `a[j - 1]` and `a[j]`, leaving the rest and the elements' multiset alone. */
  method SwapAdjacent(a: array<int>, j: int)
    requires 0 < j < a.Length
    modifies a
    ensures a[j - 1] == old(a[j]) && a[j] == old(a[j - 1])
    ensures forall k :: 0 <= k < a.Length && k != j - 1 && k != j ==> a[k] == old(a[k])
    ensures multiset(a[..]) == multiset(old(a[..]))
  {
    a[j - 1], a[j] := a[j], a[j - 1];
  }

  /** Two positions holding the same element make it occur twice in the multiset. */
  lemma RepeatCounted<T>(t: seq<T>, i: nat, j: nat)
    requires i < j < |t| && t[i] == t[j]
    ensures multiset(t)[t[i]] >= 2
  {
    assert t == t[..i] + [t[i]] + t[i + 1..j] + [t[j]] + t[j + 1..];
  }

  /** A slice without repeats holds each element at most once. */
  lemma {:induction false} DistinctCounted<T>(s: seq<T>, x: T)
    requires Distinct(s)
    ensures multiset(s)[x] <= 1
  {
    if s != [] {
      var init := s[..|s| - 1];
      assert s == init + [s[|s| - 1]];
      DistinctCounted(init, x);
      if x == s[|s| - 1] {
        assert x !in init;
      }
    }
  }

  /** Reordering keeps a slice free of repeats. */
  lemma DistinctPermutation<T>(s: seq<T>, t: seq<T>)
    requires Distinct(s) && multiset(s) == multiset(t)
    ensures Distinct(t)
  {
    forall i, j | 0 <= i < j < |t|
      ensures t[i] != t[j]
    {
      if t[i] == t[j] {
        RepeatCounted(t, i, j);
        DistinctCounted(s, t[i]);
      }
    }
  }

  /** Any reordering of an enumeration of `m` is one too. */
  lemma EnumeratesPermutation<K(!new), V>(m: map<K, V>, s: seq<K>, t: seq<K>)
    requires Enumerates(m, s) && multiset(s) == multiset(t)
    ensures Enumerates(m, t)
  {
    DistinctPermutation(s, t);
    assert |t| == |multiset(t)| == |multiset(s)| == |s|;
    forall k
      ensures k in t <==> k in m
    {
      assert k in t <==> k in multiset(t);
      assert k in s <==> k in multiset(s);
    }
  }

  /** A sorted slice without repeats is strictly ascending. */
  lemma SortedDistinctAscending(s: seq<int>)
    requires Sorted(s) && Distinct(s)
    ensures forall p, q :: 0 <= p < q < |s| ==> s[p] < s[q]
  {
  }

  /** `slices.Sort` on a slice value: the same elements, ascending. */
  method SortSlice(s: seq<int>) returns (r: seq<int>)
    ensures multiset(r) == multiset(s)
    ensures Sorted(r)
  {
    var a := new int[|s|](i requires 0 <= i < |s| => s[i]);
    assert a[..] == s;
    Sort(a);
    r := a[..];
  }

  /** `SortedKeys`: the keys of the map, each exactly once, strictly ascending. */
  method SortedKeys<V>(m: map<int, V>) returns (r: seq<int>)
    ensures Enumerates(m, r)
    ensures forall p, q :: 0 <= p < q < |r| ==> r[p] < r[q]
  {
    var keys := Keys(m);
    r := SortSlice(keys);
    EnumeratesPermutation(m, keys, r);
    SortedDistinctAscending(r);
  }

  /** `SortedValues`: the values of the map, one per key, ascending. */
  method SortedValues<K(!new)>(m: map<K, int>) returns (r: seq<int>, ghost order: seq<K>)
    ensures Enumerates(m, order)
    ensures multiset(r) == multiset(Along(m, order))
    ensures Sorted(r)
  {
    var values;
    values, order := Values(m);
    r := SortSlice(values);
  }
}
