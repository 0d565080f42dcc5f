/**
 * The three count records of the PEP collection (`StatusCount`, `TypeCount`,
 * `PythonVersionCount`). Each pairs a key with a count. Equality and `>`
 * look at the key only. The other comparisons come from `functools.total_ordering`
 * built on `__gt__`: `a < b` is `not a > b and a != b`, `a <= b` is
 * `not a > b`, and `a >= b` is `a > b or a == b`.
 */
module PepCounts {
  import opened Wrappers
  import opened Errors
  import opened Text
  import opened PepRecord

  /**
   * Python's `a > b` on two JSON scalars. Two strings compare by code
   * point, two integers numerically, and any other pairing (a `None`, or a
   * string against an integer) raises `TypeError`.
   */
  function ValueGt(a: Value, b: Value): (r: Result<bool, Error>)
    ensures r.Err? <==> !(a.Str? && b.Str?) && !(a.Int? && b.Int?)
    ensures r.Err? ==> r.error == Unorderable
  {
    if a.Str? && b.Str? then Ok(LexLess(b.s, a.s))
    else if a.Int? && b.Int? then Ok(a.i > b.i)
    else Err(Unorderable)
  }

  /** `total_ordering`'s `__lt__` from `__gt__` and `__eq__`. */
  function LtFromGt(gt: Result<bool, Error>, eq: bool): Result<bool, Error> {
    var g :- gt; Ok(!g && !eq)
  }

  /** `total_ordering`'s `__le__` from `__gt__`. */
  function LeFromGt(gt: Result<bool, Error>): Result<bool, Error> {
    var g :- gt; Ok(!g)
  }

  /** `total_ordering`'s `__ge__` from `__gt__` and `__eq__`. */
  function GeFromGt(gt: Result<bool, Error>, eq: bool): Result<bool, Error> {
    var g :- gt; Ok(g || eq)
  }

  /** On two string keys the four derived comparisons are plain string order. */
  lemma StrKeyOrder(a: string, b: string)
    ensures ValueGt(Str(a), Str(b)) == Ok(LexLess(b, a))
    ensures LtFromGt(ValueGt(Str(a), Str(b)), a == b) == Ok(LexLess(a, b))
    ensures LeFromGt(ValueGt(Str(a), Str(b))) == Ok(a == b || LexLess(a, b))
    ensures GeFromGt(ValueGt(Str(a), Str(b)), a == b) == Ok(a == b || LexLess(b, a))
  {
    if a == b {
      LexIrreflexive(a);
    } else {
      LexTotal(a, b);
      if LexLess(a, b) {
        LexAsymmetric(a, b);
      } else {
        LexAsymmetric(b, a);
      }
    }
  }

  /** On two integer keys the four derived comparisons are numeric order. */
  lemma IntKeyOrder(a: int, b: int)
    ensures LtFromGt(ValueGt(Int(a), Int(b)), a == b) == Ok(a < b)
    ensures LeFromGt(ValueGt(Int(a), Int(b))) == Ok(a <= b)
    ensures GeFromGt(ValueGt(Int(a), Int(b)), a == b) == Ok(a >= b)
  {
  }

  /** How many of `<`, `==`, `>` hold. */
  function Holding(lt: bool, eq: bool, gt: bool): nat {
    (if lt then 1 else 0) + (if eq then 1 else 0) + (if gt then 1 else 0)
  }

  datatype StatusCount = StatusCount(status: Value, count: int) {
    /** `__eq__`: the statuses are equal. */
    predicate Eq(other: StatusCount) {
      status == other.status
    }

    /** `__gt__`: the statuses compare greater. */
    function Gt(other: StatusCount): Result<bool, Error> {
      ValueGt(status, other.status)
    }

    function Lt(other: StatusCount): Result<bool, Error> {
      LtFromGt(Gt(other), Eq(other))
    }

    function Le(other: StatusCount): Result<bool, Error> {
      LeFromGt(Gt(other))
    }

    function Ge(other: StatusCount): Result<bool, Error> {
      GeFromGt(Gt(other), Eq(other))
    }
  }

  datatype TypeCount = TypeCount(pepType: Value, count: int) {
    /** `__eq__`: the types are equal. */
    predicate Eq(other: TypeCount) {
      pepType == other.pepType
    }

    /** `__gt__`: the types compare greater. */
    function Gt(other: TypeCount): Result<bool, Error> {
      ValueGt(pepType, other.pepType)
    }

    function Lt(other: TypeCount): Result<bool, Error> {
      LtFromGt(Gt(other), Eq(other))
    }

    function Le(other: TypeCount): Result<bool, Error> {
      LeFromGt(Gt(other))
    }

    function Ge(other: TypeCount): Result<bool, Error> {
      GeFromGt(Gt(other), Eq(other))
    }
  }

  /** The version is always a `str`, so its comparisons never raise. */
  datatype PythonVersionCount = PythonVersionCount(version: string, count: int) {
    predicate Eq(other: PythonVersionCount) {
      version == other.version
    }

    predicate Gt(other: PythonVersionCount) {
      LexLess(other.version, version)
    }

    predicate Lt(other: PythonVersionCount) {
      !Gt(other) && !Eq(other)
    }

    predicate Le(other: PythonVersionCount) {
      !Gt(other)
    }

    predicate Ge(other: PythonVersionCount) {
      Gt(other) || Eq(other)
    }
  }

  /**
   * With string statuses, every comparison of two status counts is the string
   * order of their statuses, whatever the counts.
   */
  lemma StatusOrder(a: StatusCount, b: StatusCount)
    requires a.status.Str? && b.status.Str?
    ensures a.Lt(b) == Ok(LexLess(a.status.s, b.status.s))
    ensures a.Gt(b) == Ok(LexLess(b.status.s, a.status.s))
    ensures a.Le(b) == Ok(a.status == b.status || LexLess(a.status.s, b.status.s))
    ensures a.Ge(b) == Ok(a.status == b.status || LexLess(b.status.s, a.status.s))
  {
    StrKeyOrder(a.status.s, b.status.s);
  }

  /** Exactly one of `a < b`, `a == b`, `a > b` holds for string statuses. */
  lemma StatusTrichotomy(a: StatusCount, b: StatusCount)
    requires a.status.Str? && b.status.Str?
    ensures a.Lt(b).Ok? && a.Gt(b).Ok?
    ensures Holding(a.Lt(b).value, a.Eq(b), a.Gt(b).value) == 1
  {
    StatusOrder(a, b);
    if a.status.s != b.status.s {
      LexTotal(a.status.s, b.status.s);
    }
    if LexLess(a.status.s, b.status.s) {
      LexAsymmetric(a.status.s, b.status.s);
    }
    if a.status == b.status {
      LexIrreflexive(a.status.s);
    }
  }

  /** `a < b` exactly when `b > a`, and `<` is transitive. */
  lemma StatusLtConverseTransitive(a: StatusCount, b: StatusCount, c: StatusCount)
    requires a.status.Str? && b.status.Str? && c.status.Str?
    ensures a.Lt(b) == b.Gt(a)
    ensures a.Lt(b) == Ok(true) && b.Lt(c) == Ok(true) ==> a.Lt(c) == Ok(true)
  {
    StatusOrder(a, b);
    StatusOrder(b, c);
    StatusOrder(a, c);
    StatusOrder(b, a);
    if LexLess(a.status.s, b.status.s) && LexLess(b.status.s, c.status.s) {
      LexTransitive(a.status.s, b.status.s, c.status.s);
    }
  }

  /** A missing status (`None`) cannot be ordered against anything, nor a string against an integer in either order. */
  lemma StatusUnorderable(a: StatusCount, b: StatusCount)
    requires a.status.Null? || b.status.Null? || (a.status.Str? && b.status.Int?) || (a.status.Int? && b.status.Str?)
    ensures a.Gt(b) == Err(Unorderable) && a.Lt(b) == Err(Unorderable)
    ensures a.Le(b) == Err(Unorderable) && a.Ge(b) == Err(Unorderable)
  {
  }

  /** With string types, every comparison of two type counts is the string order of their types. */
  lemma TypeOrder(a: TypeCount, b: TypeCount)
    requires a.pepType.Str? && b.pepType.Str?
    ensures a.Lt(b) == Ok(LexLess(a.pepType.s, b.pepType.s))
    ensures a.Gt(b) == Ok(LexLess(b.pepType.s, a.pepType.s))
    ensures a.Le(b) == Ok(a.pepType == b.pepType || LexLess(a.pepType.s, b.pepType.s))
    ensures a.Ge(b) == Ok(a.pepType == b.pepType || LexLess(b.pepType.s, a.pepType.s))
  {
    StrKeyOrder(a.pepType.s, b.pepType.s);
  }

  /** Exactly one of `a < b`, `a == b`, `a > b` holds for string types. */
  lemma TypeTrichotomy(a: TypeCount, b: TypeCount)
    requires a.pepType.Str? && b.pepType.Str?
    ensures a.Lt(b).Ok? && a.Gt(b).Ok?
    ensures Holding(a.Lt(b).value, a.Eq(b), a.Gt(b).value) == 1
  {
    TypeOrder(a, b);
    if a.pepType.s != b.pepType.s {
      LexTotal(a.pepType.s, b.pepType.s);
    }
    if LexLess(a.pepType.s, b.pepType.s) {
      LexAsymmetric(a.pepType.s, b.pepType.s);
    }
    if a.pepType == b.pepType {
      LexIrreflexive(a.pepType.s);
    }
  }

  /** Every comparison of two version counts is the string order of their versions. */
  lemma VersionOrder(a: PythonVersionCount, b: PythonVersionCount)
    ensures a.Lt(b) <==> LexLess(a.version, b.version)
    ensures a.Le(b) <==> a.version == b.version || LexLess(a.version, b.version)
    ensures a.Ge(b) <==> a.version == b.version || LexLess(b.version, a.version)
    ensures Holding(a.Lt(b), a.Eq(b), a.Gt(b)) == 1
  {
    StrKeyOrder(a.version, b.version);
    if a.version != b.version {
      LexTotal(a.version, b.version);
    }
    if LexLess(a.version, b.version) {
      LexAsymmetric(a.version, b.version);
    }
    if a.version == b.version {
      LexIrreflexive(a.version);
    }
  }

  // Sorting and comparing lists of counts.

  /** The keys are strings and each comes once. */
  ghost predicate DistinctStrKeys(ks: seq<Value>) {
    && (forall i :: 0 <= i < |ks| ==> ks[i].Str?)
    && (forall i, j :: 0 <= i < j < |ks| ==> ks[i] != ks[j])
  }

  /** The order `sorted` leaves keys in: no later key compares less than an earlier one. */
  ghost predicate SortedKeys(ks: seq<Value>) {
    forall i, j :: 0 <= i < j < |ks| ==> LtFromGt(ValueGt(ks[j], ks[i]), ks[j] == ks[i]) == Ok(false)
  }

  ghost predicate StrictlyAscending(ks: seq<string>) {
    forall i, j :: 0 <= i < j < |ks| ==> LexLess(ks[i], ks[j])
  }

  /** Two strictly ascending lists of the same strings are the same list. */
  lemma {:induction false} AscendingUnique(a: seq<string>, b: seq<string>)
    requires StrictlyAscending(a) && StrictlyAscending(b)
    requires forall k :: k in a <==> k in b
    ensures a == b
  {
    if a == [] {
      assert forall i :: 0 <= i < |b| ==> b[i] in a;
    } else {
      assert a[0] in b;
      assert b != [];
      assert b[0] in a;
      var i :| 0 <= i < |a| && a[i] == b[0];
      var j :| 0 <= j < |b| && b[j] == a[0];
      if i > 0 && j > 0 {
        LexAsymmetric(a[0], a[i]);
      }
      assert a[0] == b[0];
      forall k ensures k in a[1..] <==> k in b[1..] {
        if k in a[1..] {
          var m :| 1 <= m < |a| && a[m] == k;
          LexIrreflexive(a[0]);
          assert k != a[0];
          assert k in b;
        }
        if k in b[1..] {
          var m :| 1 <= m < |b| && b[m] == k;
          LexIrreflexive(b[0]);
          assert k != b[0];
          assert k in a;
        }
      }
      AscendingUnique(a[1..], b[1..]);
      assert a == [a[0]] + a[1..] && b == [b[0]] + b[1..];
    }
  }

  /** The texts of string keys. */
  function Texts(ks: seq<Value>): (ts: seq<string>)
    requires forall i :: 0 <= i < |ks| ==> ks[i].Str?
    ensures |ts| == |ks| && forall i :: 0 <= i < |ks| ==> ts[i] == ks[i].s
  {
    seq(|ks|, i requires 0 <= i < |ks| => ks[i].s)
  }

  /** Sorted distinct string keys are strictly ascending. */
  lemma SortedStrictlyAscending(ks: seq<Value>)
    requires DistinctStrKeys(ks) && SortedKeys(ks)
    ensures StrictlyAscending(Texts(ks))
  {
    var ts := Texts(ks);
    forall i, j | 0 <= i < j < |ks| ensures LexLess(ts[i], ts[j]) {
      StrKeyOrder(ts[j], ts[i]);
      assert ks[i] != ks[j];
      LexTotal(ts[i], ts[j]);
    }
  }

  /**
   * Two sorted lists of distinct string keys holding the same keys are the
   * same list: sorting leaves no room for the order or the counts.
   */
  lemma SortedKeysAgree(a: seq<Value>, b: seq<Value>)
    requires DistinctStrKeys(a) && SortedKeys(a)
    requires DistinctStrKeys(b) && SortedKeys(b)
    requires forall k :: k in a <==> k in b
    ensures a == b
  {
    SortedStrictlyAscending(a);
    SortedStrictlyAscending(b);
    var ta, tb := Texts(a), Texts(b);
    forall k ensures k in ta <==> k in tb {
      if k in ta {
        var i :| 0 <= i < |ta| && ta[i] == k;
        assert a[i] == Str(k) && a[i] in a;
        var j :| 0 <= j < |b| && b[j] == Str(k);
        assert tb[j] == k;
      }
      if k in tb {
        var i :| 0 <= i < |tb| && tb[i] == k;
        assert b[i] == Str(k) && b[i] in b;
        var j :| 0 <= j < |a| && a[j] == Str(k);
        assert ta[j] == k;
      }
    }
    AscendingUnique(ta, tb);
    assert forall i :: 0 <= i < |a| ==> a[i] == Str(ta[i]);
    assert forall i :: 0 <= i < |b| ==> b[i] == Str(tb[i]);
  }

  /** A sequence holding an element at two places counts it at least twice. */
  lemma TwoPlaces<T>(s: seq<T>, i: int, j: int)
    requires 0 <= i < j < |s| && s[i] == s[j]
    ensures multiset(s)[s[i]] >= 2
  {
    assert s == s[..j] + [s[j]] + s[j + 1..];
    assert s[..j][i] == s[i];
    assert multiset(s[..j])[s[i]] >= 1;
  }

  /** A sequence without repeats counts each element at most once. */
  lemma {:induction false} NoRepeats<T>(s: seq<T>, x: T)
    requires forall i, j :: 0 <= i < j < |s| ==> s[i] != s[j]
    ensures multiset(s)[x] <= 1
  {
    if s != [] {
      assert s == [s[0]] + s[1..];
      NoRepeats(s[1..], x);
      if x == s[0] {
        assert x !in s[1..];
      }
    }
  }

  /** Reordering a list whose keys are distinct keeps them distinct. */
  lemma PermutationKeepsDistinct<T>(s: seq<T>, xs: seq<T>, key: T -> Value)
    requires multiset(s) == multiset(xs)
    requires forall i, j :: 0 <= i < j < |xs| ==> key(xs[i]) != key(xs[j])
    ensures forall i, j :: 0 <= i < j < |s| ==> key(s[i]) != key(s[j])
  {
    forall i, j | 0 <= i < j < |s| ensures key(s[i]) != key(s[j]) {
      if key(s[i]) == key(s[j]) {
        assert s[i] in multiset(xs) && s[j] in multiset(xs);
        var a :| 0 <= a < |xs| && xs[a] == s[i];
        var b :| 0 <= b < |xs| && xs[b] == s[j];
        assert a == b;
        TwoPlaces(s, i, j);
        NoRepeats(xs, s[i]);
      }
    }
  }

  function StatusOfCount(c: StatusCount): Value {
    c.status
  }

  function TypeOfCount(c: TypeCount): Value {
    c.pepType
  }

  /** The statuses of a list of status counts, in order. */
  function StatusKeys(s: seq<StatusCount>): (ks: seq<Value>)
    ensures |ks| == |s| && forall i :: 0 <= i < |s| ==> ks[i] == s[i].status
  {
    seq(|s|, i requires 0 <= i < |s| => s[i].status)
  }

  /** The types of a list of type counts, in order. */
  function TypeKeys(s: seq<TypeCount>): (ks: seq<Value>)
    ensures |ks| == |s| && forall i :: 0 <= i < |s| ==> ks[i] == s[i].pepType
  {
    seq(|s|, i requires 0 <= i < |s| => s[i].pepType)
  }

  /** `s` is what `sorted(xs)` returns: a reordering with no later element less than an earlier. */
  ghost predicate SortsStatuses(s: seq<StatusCount>, xs: seq<StatusCount>) {
    && multiset(s) == multiset(xs)
    && forall i, j :: 0 <= i < j < |s| ==> s[j].Lt(s[i]) == Ok(false)
  }

  ghost predicate SortsTypes(s: seq<TypeCount>, xs: seq<TypeCount>) {
    && multiset(s) == multiset(xs)
    && forall i, j :: 0 <= i < j < |s| ==> s[j].Lt(s[i]) == Ok(false)
  }

  /** Python's `==` on two lists of status counts: same length, elements equal by status. */
  predicate StatusListsEqual(s: seq<StatusCount>, t: seq<StatusCount>) {
    |s| == |t| && forall i :: 0 <= i < |s| ==> s[i].Eq(t[i])
  }

  predicate TypeListsEqual(s: seq<TypeCount>, t: seq<TypeCount>) {
    |s| == |t| && forall i :: 0 <= i < |s| ==> s[i].Eq(t[i])
  }

  /** A reordering keeps the set of keys. */
  lemma PermutationKeepsKeys<T>(s: seq<T>, xs: seq<T>, key: T -> Value, ks: seq<Value>, kxs: seq<Value>)
    requires multiset(s) == multiset(xs)
    requires |ks| == |s| && forall i :: 0 <= i < |s| ==> ks[i] == key(s[i])
    requires |kxs| == |xs| && forall i :: 0 <= i < |xs| ==> kxs[i] == key(xs[i])
    ensures forall k :: k in ks <==> k in kxs
  {
    forall k ensures k in ks <==> k in kxs {
      if k in ks {
        var i :| 0 <= i < |s| && ks[i] == k;
        assert s[i] in multiset(xs);
        var a :| 0 <= a < |xs| && xs[a] == s[i];
        assert kxs[a] == k;
      }
      if k in kxs {
        var a :| 0 <= a < |xs| && kxs[a] == k;
        assert xs[a] in multiset(s);
        var i :| 0 <= i < |s| && s[i] == xs[a];
        assert ks[i] == k;
      }
    }
  }

  /** Keys drawn from a list of string keys are strings. */
  lemma StrKeysKept(ks: seq<Value>, kxs: seq<Value>)
    requires forall k :: k in ks <==> k in kxs
    requires forall i :: 0 <= i < |kxs| ==> kxs[i].Str?
    ensures forall i :: 0 <= i < |ks| ==> ks[i].Str?
  {
    forall i | 0 <= i < |ks| ensures ks[i].Str? {
      assert ks[i] in kxs;
    }
  }

  /**
   * `sorted(xs) == sorted(ys)` holds for status counts with distinct string
   * statuses when both hold the same statuses: the counts are never looked at.
   */
  lemma SortedStatusesEqual(s: seq<StatusCount>, xs: seq<StatusCount>, t: seq<StatusCount>, ys: seq<StatusCount>)
    requires SortsStatuses(s, xs) && SortsStatuses(t, ys)
    requires DistinctStrKeys(StatusKeys(xs)) && DistinctStrKeys(StatusKeys(ys))
    requires forall k :: k in StatusKeys(xs) <==> k in StatusKeys(ys)
    ensures StatusListsEqual(s, t)
  {
    var ks, kt := StatusKeys(s), StatusKeys(t);
    PermutationKeepsKeys(s, xs, StatusOfCount, ks, StatusKeys(xs));
    PermutationKeepsKeys(t, ys, StatusOfCount, kt, StatusKeys(ys));
    PermutationKeepsDistinct(s, xs, StatusOfCount);
    PermutationKeepsDistinct(t, ys, StatusOfCount);
    StrKeysKept(ks, StatusKeys(xs));
    StrKeysKept(kt, StatusKeys(ys));
    assert SortedKeys(ks) by {
      forall i, j | 0 <= i < j < |ks| ensures LtFromGt(ValueGt(ks[j], ks[i]), ks[j] == ks[i]) == Ok(false) {
        assert s[j].Lt(s[i]) == Ok(false);
      }
    }
    assert SortedKeys(kt) by {
      forall i, j | 0 <= i < j < |kt| ensures LtFromGt(ValueGt(kt[j], kt[i]), kt[j] == kt[i]) == Ok(false) {
        assert t[j].Lt(t[i]) == Ok(false);
      }
    }
    SortedKeysAgree(ks, kt);
  }

  /** The same for type counts. */
  lemma SortedTypesEqual(s: seq<TypeCount>, xs: seq<TypeCount>, t: seq<TypeCount>, ys: seq<TypeCount>)
    requires SortsTypes(s, xs) && SortsTypes(t, ys)
    requires DistinctStrKeys(TypeKeys(xs)) && DistinctStrKeys(TypeKeys(ys))
    requires forall k :: k in TypeKeys(xs) <==> k in TypeKeys(ys)
    ensures TypeListsEqual(s, t)
  {
    var ks, kt := TypeKeys(s), TypeKeys(t);
    PermutationKeepsKeys(s, xs, TypeOfCount, ks, TypeKeys(xs));
    PermutationKeepsKeys(t, ys, TypeOfCount, kt, TypeKeys(ys));
    PermutationKeepsDistinct(s, xs, TypeOfCount);
    PermutationKeepsDistinct(t, ys, TypeOfCount);
    StrKeysKept(ks, TypeKeys(xs));
    StrKeysKept(kt, TypeKeys(ys));
    assert SortedKeys(ks) by {
      forall i, j | 0 <= i < j < |ks| ensures LtFromGt(ValueGt(ks[j], ks[i]), ks[j] == ks[i]) == Ok(false) {
        assert s[j].Lt(s[i]) == Ok(false);
      }
    }
    assert SortedKeys(kt) by {
      forall i, j | 0 <= i < j < |kt| ensures LtFromGt(ValueGt(kt[j], kt[i]), kt[j] == kt[i]) == Ok(false) {
        assert t[j].Lt(t[i]) == Ok(false);
      }
    }
    SortedKeysAgree(ks, kt);
  }
}
