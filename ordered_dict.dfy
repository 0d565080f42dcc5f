/**
 * Python's `dict` as the collection uses it: keys kept in the order they
 * were first inserted, a later insertion under an existing key replacing the
 * value in place. `collections.Counter` is such a dict from elements to
 * their number of occurrences.
 */
module OrderedDicts {

  datatype Dict<K, V> = Dict(keys: seq<K>, entries: map<K, V>)

  /** The keys are distinct and are exactly the keys of the map. */
  ghost predicate Valid<K(!new), V>(d: Dict<K, V>) {
    && (forall i, j :: 0 <= i < j < |d.keys| ==> d.keys[i] != d.keys[j])
    && (forall k :: k in d.entries <==> k in d.keys)
  }

  function Empty<K(!new), V>(): (d: Dict<K, V>)
    ensures Valid(d) && d.keys == []
  {
    Dict([], map[])
  }

  /** `d[k] = v`: a new key goes last, an existing key keeps its place. */
  function Put<K(==,!new), V>(d: Dict<K, V>, k: K, v: V): (r: Dict<K, V>)
    requires Valid(d)
    ensures Valid(r)
    ensures r.entries == d.entries[k := v]
    ensures r.keys == if k in d.entries then d.keys else d.keys + [k]
  {
    if k in d.entries then Dict(d.keys, d.entries[k := v])
    else Dict(d.keys + [k], d.entries[k := v])
  }

  /** `d.values()`, in key order. */
  function Values<K(!new), V>(d: Dict<K, V>): (vs: seq<V>)
    requires Valid(d)
    ensures |vs| == |d.keys|
    ensures forall i :: 0 <= i < |d.keys| ==> vs[i] == d.entries[d.keys[i]]
  {
    seq(|d.keys|, i requires 0 <= i < |d.keys| => d.entries[d.keys[i]])
  }

  /** The first position at which `key` gives `k`, or `|vs|` if none does. */
  function FirstIndex<T, K(==)>(vs: seq<T>, key: T -> K, k: K): (n: nat)
    ensures n <= |vs|
    ensures n < |vs| ==> key(vs[n]) == k
    ensures forall i :: 0 <= i < n ==> key(vs[i]) != k
  {
    if vs == [] then 0
    else if key(vs[0]) == k then 0
    else 1 + FirstIndex(vs[1..], key, k)
  }

  /** No later element has the same key as the one at `i`. */
  predicate IsLastWithKey<T, K(==)>(vs: seq<T>, key: T -> K, i: int)
    requires 0 <= i < |vs|
  {
    forall j :: i < j < |vs| ==> key(vs[j]) != key(vs[i])
  }

  /** `{key(v): v for v in vs}`: the keys are exactly those of the elements. */
  function FromValues<T, K(==,!new)>(vs: seq<T>, key: T -> K): (d: Dict<K, T>)
    ensures Valid(d)
    ensures forall k :: k in d.entries <==> exists i :: 0 <= i < |vs| && key(vs[i]) == k
  {
    if vs == [] then Empty()
    else
      var init := vs[..|vs| - 1];
      assert forall i :: 0 <= i < |init| ==> init[i] == vs[i];
      Put(FromValues(init, key), key(vs[|vs| - 1]), vs[|vs| - 1])
  }

  /** The value kept under a key is the last element with that key. */
  lemma {:induction false} FromValuesLastWins<T, K(!new)>(vs: seq<T>, key: T -> K, i: int)
    requires 0 <= i < |vs| && IsLastWithKey(vs, key, i)
    ensures FromValues(vs, key).entries[key(vs[i])] == vs[i]
  {
    var init := vs[..|vs| - 1];
    if i < |init| {
      assert forall j :: 0 <= j < |init| ==> init[j] == vs[j];
      assert IsLastWithKey(init, key, i);
      FromValuesLastWins(init, key, i);
    }
  }

  /** Every value kept is the last element with its key. */
  lemma {:induction false} FromValuesKeepsLast<T, K(!new)>(vs: seq<T>, key: T -> K, k: K)
    requires k in FromValues(vs, key).entries
    ensures exists i :: 0 <= i < |vs| && key(vs[i]) == k && FromValues(vs, key).entries[k] == vs[i] && IsLastWithKey(vs, key, i)
  {
    var n := |vs| - 1;
    var init := vs[..n];
    FromValuesStep(vs, key);
    if k == key(vs[n]) {
      assert IsLastWithKey(vs, key, n);
    } else {
      FromValuesKeepsLast(init, key, k);
      var i :| 0 <= i < |init| && key(init[i]) == k && FromValues(init, key).entries[k] == init[i] && IsLastWithKey(init, key, i);
      LastWithKeyExtends(vs, key, i);
    }
  }

  /** The dict of a non-empty sequence is that of its prefix with the last element put in. */
  lemma FromValuesStep<T, K(!new)>(vs: seq<T>, key: T -> K)
    requires vs != []
    ensures FromValues(vs, key) == Put(FromValues(vs[..|vs| - 1], key), key(vs[|vs| - 1]), vs[|vs| - 1])
  {
  }

  /** An element last with its key in a prefix stays last when the next element has another key. */
  lemma LastWithKeyExtends<T, K>(vs: seq<T>, key: T -> K, i: int)
    requires 0 <= i < |vs| - 1
    requires IsLastWithKey(vs[..|vs| - 1], key, i)
    requires key(vs[|vs| - 1]) != key(vs[i])
    ensures IsLastWithKey(vs, key, i)
  {
    var init := vs[..|vs| - 1];
    forall j | i < j < |vs| ensures key(vs[j]) != key(vs[i]) {
      if j < |vs| - 1 {
        assert init[j] == vs[j] && init[i] == vs[i];
      }
    }
  }

  /** `ks` lists keys in the order in which each first appears in `vs`. */
  ghost predicate InFirstAppearanceOrder<T, K>(vs: seq<T>, key: T -> K, ks: seq<K>) {
    forall i, j :: 0 <= i < j < |ks| ==> FirstIndex(vs, key, ks[i]) < FirstIndex(vs, key, ks[j])
  }

  /** The keys come in the order in which each first appears among the elements. */
  lemma {:induction false} FromValuesFirstAppearance<T, K(!new)>(vs: seq<T>, key: T -> K)
    ensures InFirstAppearanceOrder(vs, key, FromValues(vs, key).keys)
  {
    if vs != [] {
      var n := |vs| - 1;
      var init := vs[..n];
      var d0 := FromValues(init, key);
      FromValuesStep(vs, key);
      FromValuesFirstAppearance(init, key);
      KeysAppearEarly(init, key);
      PrefixOrderKept(vs, key, d0.keys);
      if key(vs[n]) !in d0.entries {
        NewKeyAppearsLast(vs, key);
        AppendLaterKey(vs, key, d0.keys, key(vs[n]));
      }
    }
  }

  /** Every key of the dict first appears at some position of the sequence. */
  lemma KeysAppearEarly<T, K(!new)>(vs: seq<T>, key: T -> K)
    ensures forall i :: 0 <= i < |FromValues(vs, key).keys| ==> FirstIndex(vs, key, FromValues(vs, key).keys[i]) < |vs|
  {
    var d := FromValues(vs, key);
    forall i | 0 <= i < |d.keys| ensures FirstIndex(vs, key, d.keys[i]) < |vs| {
      assert d.keys[i] in d.entries;
      var j :| 0 <= j < |vs| && key(vs[j]) == d.keys[i];
    }
  }

  /** A key the prefix does not hold first appears at the last position. */
  lemma NewKeyAppearsLast<T, K(!new)>(vs: seq<T>, key: T -> K)
    requires vs != [] && key(vs[|vs| - 1]) !in FromValues(vs[..|vs| - 1], key).entries
    ensures FirstIndex(vs, key, key(vs[|vs| - 1])) >= |vs| - 1
  {
    var init := vs[..|vs| - 1];
    var k := key(vs[|vs| - 1]);
    FirstIndexAgrees(vs, init, key, k);
  }

  /** Keys ordered by first appearance in a prefix, and all present there, stay so ordered in the whole. */
  lemma PrefixOrderKept<T, K>(vs: seq<T>, key: T -> K, ks: seq<K>)
    requires vs != []
    requires InFirstAppearanceOrder(vs[..|vs| - 1], key, ks)
    requires forall i :: 0 <= i < |ks| ==> FirstIndex(vs[..|vs| - 1], key, ks[i]) < |vs| - 1
    ensures InFirstAppearanceOrder(vs, key, ks)
    ensures forall i :: 0 <= i < |ks| ==> FirstIndex(vs, key, ks[i]) < |vs| - 1
  {
    var init := vs[..|vs| - 1];
    forall i | 0 <= i < |ks| ensures FirstIndex(vs, key, ks[i]) == FirstIndex(init, key, ks[i]) < |init| {
      FirstIndexAgrees(vs, init, key, ks[i]);
    }
  }

  lemma AppendLaterKey<T, K>(vs: seq<T>, key: T -> K, ks: seq<K>, k: K)
    requires InFirstAppearanceOrder(vs, key, ks)
    requires forall i :: 0 <= i < |ks| ==> FirstIndex(vs, key, ks[i]) < |vs| - 1
    requires FirstIndex(vs, key, k) >= |vs| - 1
    ensures InFirstAppearanceOrder(vs, key, ks + [k])
  {
    var ks' := ks + [k];
    forall i, j | 0 <= i < j < |ks'| ensures FirstIndex(vs, key, ks'[i]) < FirstIndex(vs, key, ks'[j]) {
      assert ks'[i] == ks[i];
      if j < |ks| { assert ks'[j] == ks[j]; }
    }
  }

  /** The keys of the elements, in order. */
  function KeysOf<T, K>(vs: seq<T>, key: T -> K): (ks: seq<K>)
    ensures |ks| == |vs| && forall i :: 0 <= i < |vs| ==> ks[i] == key(vs[i])
  {
    seq(|vs|, i requires 0 <= i < |vs| => key(vs[i]))
  }

  /** When every value carries its own key, the values' keys are the dict's keys in order. */
  lemma KeysOfValues<K(!new), V>(d: Dict<K, V>, key: V -> K)
    requires Valid(d) && forall k :: k in d.entries ==> key(d.entries[k]) == k
    ensures KeysOf(Values(d), key) == d.keys
  {
  }

  /** With no two elements sharing a key, the keys are the elements' keys in order. */
  lemma {:induction false} FromDistinctKeys<T, K(!new)>(vs: seq<T>, key: T -> K)
    requires forall i, j :: 0 <= i < j < |vs| ==> key(vs[i]) != key(vs[j])
    ensures FromValues(vs, key).keys == KeysOf(vs, key)
  {
    if vs != [] {
      var n := |vs| - 1;
      var init := vs[..n];
      assert forall i :: 0 <= i < n ==> init[i] == vs[i];
      FromDistinctKeys(init, key);
      var d0 := FromValues(init, key);
      assert key(vs[n]) !in d0.entries;
      assert KeysOf(vs, key) == KeysOf(init, key) + [key(vs[n])];
    }
  }

  /** With no two elements sharing a key, `d.values()` gives the elements back in order. */
  lemma FromDistinctValues<T, K(!new)>(vs: seq<T>, key: T -> K)
    requires forall i, j :: 0 <= i < j < |vs| ==> key(vs[i]) != key(vs[j])
    ensures Values(FromValues(vs, key)) == vs
  {
    FromDistinctKeys(vs, key);
    var d := FromValues(vs, key);
    forall i | 0 <= i < |vs| ensures Values(d)[i] == vs[i] {
      assert IsLastWithKey(vs, key, i);
      FromValuesLastWins(vs, key, i);
    }
  }

  /** Appending an element does not move the first position of a key already present. */
  lemma FirstIndexOfPrefix<T, K>(vs: seq<T>, key: T -> K)
    requires vs != []
    ensures forall k :: FirstIndex(vs[..|vs| - 1], key, k) < |vs| - 1 ==> FirstIndex(vs, key, k) == FirstIndex(vs[..|vs| - 1], key, k)
    ensures forall k :: FirstIndex(vs[..|vs| - 1], key, k) == |vs| - 1 ==> FirstIndex(vs, key, k) >= |vs| - 1
  {
    forall k ensures FirstIndex(vs[..|vs| - 1], key, k) < |vs| - 1 ==> FirstIndex(vs, key, k) == FirstIndex(vs[..|vs| - 1], key, k) {
      FirstIndexAgrees(vs, vs[..|vs| - 1], key, k);
    }
    forall k ensures FirstIndex(vs[..|vs| - 1], key, k) == |vs| - 1 ==> FirstIndex(vs, key, k) >= |vs| - 1 {
      FirstIndexAgrees(vs, vs[..|vs| - 1], key, k);
    }
  }

  /** Two sequences that agree on a prefix agree on first positions that fall inside it. */
  lemma FirstIndexAgrees<T, K>(vs: seq<T>, ws: seq<T>, key: T -> K, k: K)
    requires |ws| <= |vs| && ws == vs[..|ws|]
    ensures FirstIndex(ws, key, k) < |ws| ==> FirstIndex(vs, key, k) == FirstIndex(ws, key, k)
    ensures FirstIndex(ws, key, k) == |ws| ==> FirstIndex(vs, key, k) >= |ws|
  {
    var n := FirstIndex(vs, key, k);
    var m := FirstIndex(ws, key, k);
    if m < |ws| {
      assert key(vs[m]) == k;
    }
  }

  /**
   * `Counter(xs)`: each distinct element, in the order it first appears,
   * with its number of occurrences.
   */
  function Count<K(==,!new)>(xs: seq<K>): (c: Dict<K, nat>)
    ensures Valid(c)
    ensures forall k :: k in c.entries <==> k in xs
    ensures forall k :: k in c.entries ==> c.entries[k] == multiset(xs)[k]
  {
    if xs == [] then Empty()
    else
      var init := xs[..|xs| - 1];
      var x := xs[|xs| - 1];
      var c0 := Count(init);
      assert xs == init + [x];
      Put(c0, x, (if x in c0.entries then c0.entries[x] else 0) + 1)
  }

  /** Every element counted occurs at least once. */
  lemma CountPositive<K(!new)>(xs: seq<K>)
    ensures forall k :: k in Count(xs).entries ==> Count(xs).entries[k] >= 1
  {
  }

  /** `Counter` orders its keys exactly as a dict comprehension keyed by the elements would. */
  lemma {:induction false} CountKeys<K(!new)>(xs: seq<K>)
    ensures Count(xs).keys == FromValues(xs, x => x).keys
  {
    if xs != [] {
      var init := xs[..|xs| - 1];
      CountKeys(init);
      var c0 := Count(init);
      var d0 := FromValues(init, x => x);
      assert forall k :: k in c0.entries <==> k in d0.entries by {
        forall k ensures k in c0.entries <==> k in d0.entries {
          if k in d0.entries {
            var i :| 0 <= i < |init| && init[i] == k;
          }
        }
      }
    }
  }

  /** The keys of `Counter(xs)` come in the order in which each first appears in `xs`. */
  lemma CountFirstAppearance<K(!new)>(xs: seq<K>)
    ensures InFirstAppearanceOrder(xs, x => x, Count(xs).keys)
  {
    CountKeys(xs);
    FromValuesFirstAppearance(xs, x => x);
  }

  /** The keys of `Counter(key(v) for v in vs)` come in the order in which each key first appears among `vs`. */
  lemma KeysOfFirstAppearance<T, K(!new)>(vs: seq<T>, key: T -> K)
    ensures InFirstAppearanceOrder(vs, key, Count(KeysOf(vs, key)).keys)
  {
    var xs := KeysOf(vs, key);
    CountFirstAppearance(xs);
    forall k: K ensures FirstIndex(xs, x => x, k) == FirstIndex(vs, key, k) {
      FirstIndexOfKeys(vs, key, k);
    }
  }

  /** A key first appears among the keys where its element first appears among the elements. */
  lemma FirstIndexOfKeys<T, K>(vs: seq<T>, key: T -> K, k: K)
    ensures FirstIndex(KeysOf(vs, key), x => x, k) == FirstIndex(vs, key, k)
  {
  }

  /** The sum of the values under `ks`. */
  function SumOver<K>(ks: seq<K>, m: map<K, nat>): nat
    requires forall i :: 0 <= i < |ks| ==> ks[i] in m
  {
    if ks == [] then 0 else SumOver(ks[..|ks| - 1], m) + m[ks[|ks| - 1]]
  }

  /** The sum of all the counts. */
  function Total<K(!new)>(c: Dict<K, nat>): nat
    requires Valid(c)
  {
    SumOver(c.keys, c.entries)
  }

  lemma {:induction false} SumOverOther<K>(ks: seq<K>, m: map<K, nat>, k: K, v: nat)
    requires forall i :: 0 <= i < |ks| ==> ks[i] in m && ks[i] != k
    ensures SumOver(ks, m[k := v]) == SumOver(ks, m)
  {
    if ks != [] {
      SumOverOther(ks[..|ks| - 1], m, k, v);
    }
  }

  lemma {:induction false} SumOverIncrement<K>(ks: seq<K>, m: map<K, nat>, k: K)
    requires forall i :: 0 <= i < |ks| ==> ks[i] in m
    requires forall i, j :: 0 <= i < j < |ks| ==> ks[i] != ks[j]
    requires k in ks && k in m
    ensures SumOver(ks, m[k := m[k] + 1]) == SumOver(ks, m) + 1
  {
    var n := |ks| - 1;
    var init := ks[..n];
    if ks[n] == k {
      assert forall i :: 0 <= i < |init| ==> init[i] != k;
      SumOverOther(init, m, k, m[k] + 1);
    } else {
      assert k in init by {
        var i :| 0 <= i < |ks| && ks[i] == k;
        assert i < n && init[i] == k;
      }
      SumOverIncrement(init, m, k);
    }
  }

  /** The counts add up to the number of elements counted. */
  lemma {:induction false} CountTotal<K(!new)>(xs: seq<K>)
    ensures Total(Count(xs)) == |xs|
  {
    if xs != [] {
      var init := xs[..|xs| - 1];
      CountTotal(init);
      CountStep(xs);
      TotalOfIncrement(Count(init), xs[|xs| - 1]);
    }
  }

  /** Adding one to the count of `x`, or listing it with a count of 1, adds one to the total. */
  lemma TotalOfIncrement<K(!new)>(c: Dict<K, nat>, x: K)
    requires Valid(c)
    ensures Total(Put(c, x, (if x in c.entries then c.entries[x] else 0) + 1)) == Total(c) + 1
  {
    if x in c.entries {
      SumOverIncrement(c.keys, c.entries, x);
    } else {
      var ks := c.keys + [x];
      assert ks[..|ks| - 1] == c.keys;
      SumOverOther(c.keys, c.entries, x, 1);
    }
  }

  /** Counting one more element adds one to its count, or lists it last with a count of 1. */
  lemma CountStep<K(!new)>(xs: seq<K>)
    requires xs != []
    ensures var c0, x := Count(xs[..|xs| - 1]), xs[|xs| - 1];
      Count(xs) == Put(c0, x, (if x in c0.entries then c0.entries[x] else 0) + 1)
  {
  }

  /** `d.items()`, in key order. */
  function Items<K(!new), V>(d: Dict<K, V>): (items: seq<(K, V)>)
    requires Valid(d)
    ensures |items| == |d.keys|
    ensures forall i :: 0 <= i < |d.keys| ==> items[i] == (d.keys[i], d.entries[d.keys[i]])
  {
    seq(|d.keys|, i requires 0 <= i < |d.keys| => (d.keys[i], d.entries[d.keys[i]]))
  }

  /** The sum of the counts in a list of pairs. */
  function SumCounts<K>(items: seq<(K, nat)>): nat {
    if items == [] then 0 else SumCounts(items[..|items| - 1]) + items[|items| - 1].1
  }

  lemma {:induction false} SumCountsOfItems<K(!new)>(ks: seq<K>, m: map<K, nat>, items: seq<(K, nat)>)
    requires forall i :: 0 <= i < |ks| ==> ks[i] in m
    requires |items| == |ks| && forall i :: 0 <= i < |ks| ==> items[i] == (ks[i], m[ks[i]])
    ensures SumCounts(items) == SumOver(ks, m)
  {
    if ks != [] {
      SumCountsOfItems(ks[..|ks| - 1], m, items[..|items| - 1]);
    }
  }

  /**
   * `Counter(xs).items()`: one pair per distinct element, in the order of
   * first appearance, holding its number of occurrences; the counts add up
   * to `|xs|`.
   */
  function Tally<K(==,!new)>(xs: seq<K>): (items: seq<(K, nat)>)
    ensures forall i, j :: 0 <= i < j < |items| ==> items[i].0 != items[j].0
    ensures forall k :: (exists i :: 0 <= i < |items| && items[i].0 == k) <==> k in xs
    ensures forall i :: 0 <= i < |items| ==> items[i].1 == multiset(xs)[items[i].0] >= 1
    ensures SumCounts(items) == |xs|
  {
    var c := Count(xs);
    CountTotal(xs);
    var items := Items(c);
    SumCountsOfItems(c.keys, c.entries, items);
    ItemsCoverKeys(c);
    items
  }

  /** Every key of the dict is the key of one of its items. */
  lemma ItemsCoverKeys<K(!new), V>(d: Dict<K, V>)
    requires Valid(d)
    ensures forall k :: k in d.entries ==> exists i :: 0 <= i < |Items(d)| && Items(d)[i].0 == k
  {
    forall k | k in d.entries ensures exists i :: 0 <= i < |Items(d)| && Items(d)[i].0 == k {
      var i :| 0 <= i < |d.keys| && d.keys[i] == k;
      assert Items(d)[i].0 == k;
    }
  }

  /** `Counter(xs).items()` lists the keys in the counter's key order. */
  lemma TallyOrder<K(!new)>(xs: seq<K>)
    ensures |Tally(xs)| == |Count(xs).keys|
    ensures forall i :: 0 <= i < |Tally(xs)| ==> Tally(xs)[i].0 == Count(xs).keys[i]
  {
  }

  /** The number of distinct keys of a valid dict is its number of entries. */
  lemma KeysCardinality<K(!new), V>(d: Dict<K, V>)
    requires Valid(d)
    ensures |d.entries| == |d.keys|
  {
    DistinctCardinality(d.keys);
    assert d.entries.Keys == ElementsOf(d.keys);
  }

  ghost function ElementsOf<K>(ks: seq<K>): set<K> {
    set x | x in ks
  }

  lemma {:induction false} DistinctCardinality<K>(ks: seq<K>)
    requires forall i, j :: 0 <= i < j < |ks| ==> ks[i] != ks[j]
    ensures |ElementsOf(ks)| == |ks|
  {
    if ks != [] {
      var n := |ks| - 1;
      var init := ks[..n];
      DistinctCardinality(init);
      assert ElementsOf(ks) == ElementsOf(init) + {ks[n]};
      assert ks[n] !in ElementsOf(init);
    }
  }
}
