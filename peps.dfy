/**
 * The collection of PEPs: a dict from PEP number to record, built once from
 * a sequence of records (a later record with the same number replaces the
 * earlier one but keeps its place), then queried for length, membership,
 * iteration and three count aggregates.
 */
module PepCollection {
  import opened Wrappers
  import opened Errors
  import opened PepRecord
  import opened OrderedDicts
  import opened PepCounts

  function NumberOf(p: Pep): Value {
    p.number
  }

  function StatusOf(p: Pep): Value {
    p.status
  }

  function TypeOf(p: Pep): Value {
    p.pepType
  }

  /** The held records, keyed by number. */
  datatype PEPs = PEPs(peps: Dict<Value, Pep>)

  /** The dict is well formed and every record is stored under its own number. */
  ghost predicate Keyed(c: PEPs) {
    && Valid(c.peps)
    && forall k :: k in c.peps.entries ==> c.peps.entries[k].number == k
  }

  lemma FromValuesKeyed(ps: seq<Pep>)
    ensures Keyed(PEPs(FromValues(ps, NumberOf)))
  {
    var d := FromValues(ps, NumberOf);
    forall k | k in d.entries ensures d.entries[k].number == k {
      FromValuesKeepsLast(ps, NumberOf, k);
    }
  }

  /**
   * `PEPs(peps)`: no argument gives an empty collection; otherwise each record
   * is keyed by its number, and the keys are exactly the records' numbers.
   */
  function Create(peps: Option<seq<Pep>>): (c: PEPs)
    ensures Keyed(c)
    ensures peps.None? ==> c.peps.keys == []
    ensures peps.Some? ==> forall k :: k in c.peps.entries <==> exists i :: 0 <= i < |peps.value| && peps.value[i].number == k
  {
    match peps
    case None => PEPs(Empty())
    case Some(ps) =>
      FromValuesKeyed(ps);
      PEPs(FromValues(ps, NumberOf))
  }

  /** `len(peps)`: the number of distinct PEP numbers held. */
  function Len(c: PEPs): (n: nat)
    requires Keyed(c)
    ensures n == |c.peps.entries|
  {
    KeysCardinality(c.peps);
    |c.peps.keys|
  }

  /** What `in` accepts: a record, or a bare PEP number. */
  datatype Probe = Record(pep: Pep) | Number(n: int)

  function ProbeKey(x: Probe): Value {
    match x
    case Record(p) => p.number
    case Number(n) => Int(n)
  }

  /** `iter(peps)`: the records in the dict's key order. */
  function Iter(c: PEPs): (r: seq<Pep>)
    requires Keyed(c)
    ensures |r| == Len(c)
    ensures forall i :: 0 <= i < |r| ==> r[i].number in c.peps.entries && c.peps.entries[r[i].number] == r[i]
    ensures forall i, j :: 0 <= i < j < |r| ==> r[i].number != r[j].number
    ensures forall k :: k in c.peps.entries ==> exists i :: 0 <= i < |r| && r[i] == c.peps.entries[k]
  {
    var r := Values(c.peps);
    forall k | k in c.peps.entries ensures exists i :: 0 <= i < |r| && r[i] == c.peps.entries[k] {
      var i :| 0 <= i < |c.peps.keys| && c.peps.keys[i] == k;
      assert r[i] == c.peps.entries[k];
    }
    r
  }

  /** `x in peps`: the probe's number is one of the numbers iteration yields. */
  predicate Contains(c: PEPs, x: Probe)
    requires Keyed(c)
    ensures Contains(c, x) <==> exists i :: 0 <= i < |Iter(c)| && Iter(c)[i].number == ProbeKey(x)
  {
    var r := Iter(c);
    if ProbeKey(x) in c.peps.entries then
      var i :| 0 <= i < |r| && r[i] == c.peps.entries[ProbeKey(x)];
      true
    else
      false
  }

  // Lemmas about construction, length, membership and iteration.

  /** The number of PEPs is the number of distinct numbers among the records. */
  lemma LenIsDistinctNumbers(ps: seq<Pep>)
    ensures Len(Create(Some(ps))) == |ElementsOf(KeysOf(ps, NumberOf))|
  {
    var c := Create(Some(ps));
    var ks := KeysOf(ps, NumberOf);
    forall k ensures k in c.peps.entries <==> k in ElementsOf(ks) {
      if k in c.peps.entries {
        var i :| 0 <= i < |ps| && ps[i].number == k;
        assert ks[i] == k;
      }
    }
    assert c.peps.entries.Keys == ElementsOf(ks);
  }

  lemma EmptyHasNoPeps()
    ensures Len(Create(None)) == 0
    ensures Len(Create(Some([]))) == 0
    ensures forall x :: !Contains(Create(None), x)
  {
  }

  /** With no repeated number, iteration gives the records back unchanged, so the length is their number. */
  lemma DistinctNumbers(ps: seq<Pep>)
    requires forall i, j :: 0 <= i < j < |ps| ==> ps[i].number != ps[j].number
    ensures Iter(Create(Some(ps))) == ps
    ensures Len(Create(Some(ps))) == |ps|
  {
    FromDistinctValues(ps, NumberOf);
  }

  /** For a repeated number, the record that comes last is the one held. */
  lemma LastDuplicateWins(ps: seq<Pep>, i: int)
    requires 0 <= i < |ps| && IsLastWithKey(ps, NumberOf, i)
    ensures Create(Some(ps)).peps.entries[ps[i].number] == ps[i]
    ensures exists j :: 0 <= j < |Iter(Create(Some(ps)))| && Iter(Create(Some(ps)))[j] == ps[i]
  {
    FromValuesLastWins(ps, NumberOf, i);
    var c := Create(Some(ps));
    var r := Iter(c);
    assert ps[i].number in c.peps.entries;
    assert exists j :: 0 <= j < |r| && r[j] == c.peps.entries[ps[i].number];
  }

  /** Each record iteration yields is the last record with its number. */
  lemma IterYieldsLast(ps: seq<Pep>, j: int)
    requires 0 <= j < |Iter(Create(Some(ps)))|
    ensures exists i :: 0 <= i < |ps| && Iter(Create(Some(ps)))[j] == ps[i] && IsLastWithKey(ps, NumberOf, i)
  {
    var c := Create(Some(ps));
    FromValuesKeepsLast(ps, NumberOf, Iter(c)[j].number);
  }

  /** Iteration yields the numbers in the order in which each first appeared. */
  lemma IterFirstAppearance(ps: seq<Pep>)
    ensures InFirstAppearanceOrder(ps, NumberOf, KeysOf(Iter(Create(Some(ps))), NumberOf))
  {
    var c := Create(Some(ps));
    FromValuesFirstAppearance(ps, NumberOf);
    KeysOfValues(c.peps, NumberOf);
  }

  /** Membership looks at the number only: a record and its bare number answer alike. */
  lemma ContainsByNumber(ps: seq<Pep>, p: Pep, n: int)
    requires p.number == Int(n)
    ensures Contains(Create(Some(ps)), Record(p)) == Contains(Create(Some(ps)), Number(n))
    ensures Contains(Create(Some(ps)), Number(n)) <==> exists i :: 0 <= i < |ps| && ps[i].number == Int(n)
  {
  }

  // The count aggregates.

  /** The sum of a list of counts. */
  function Sum(xs: seq<int>): int {
    if xs == [] then 0 else Sum(xs[..|xs| - 1]) + xs[|xs| - 1]
  }

  function PairCounts<K>(items: seq<(K, nat)>): (xs: seq<int>)
    ensures |xs| == |items| && forall i :: 0 <= i < |items| ==> xs[i] == items[i].1
  {
    seq(|items|, i requires 0 <= i < |items| => items[i].1 as int)
  }

  lemma {:induction false} SumPairCounts<K>(items: seq<(K, nat)>)
    ensures Sum(PairCounts(items)) == SumCounts(items)
  {
    if items != [] {
      var n := |items| - 1;
      SumPairCounts(items[..n]);
      assert PairCounts(items)[..n] == PairCounts(items[..n]);
    }
  }

  function StatusCounts(r: seq<StatusCount>): (xs: seq<int>)
    ensures |xs| == |r| && forall i :: 0 <= i < |r| ==> xs[i] == r[i].count
  {
    seq(|r|, i requires 0 <= i < |r| => r[i].count)
  }

  function TypeCounts(r: seq<TypeCount>): (xs: seq<int>)
    ensures |xs| == |r| && forall i :: 0 <= i < |r| ==> xs[i] == r[i].count
  {
    seq(|r|, i requires 0 <= i < |r| => r[i].count)
  }

  function VersionKeys(r: seq<PythonVersionCount>): (ks: seq<string>)
    ensures |ks| == |r| && forall i :: 0 <= i < |r| ==> ks[i] == r[i].version
  {
    seq(|r|, i requires 0 <= i < |r| => r[i].version)
  }

  function VersionCounts(r: seq<PythonVersionCount>): (xs: seq<int>)
    ensures |xs| == |r| && forall i :: 0 <= i < |r| ==> xs[i] == r[i].count
  {
    seq(|r|, i requires 0 <= i < |r| => r[i].count)
  }

  /** What `Counter(xs).items()` promises, read off as separate keys and counts. */
  lemma TallyRead<K(!new)>(xs: seq<K>, ks: seq<K>, cs: seq<int>)
    requires |ks| == |Tally(xs)| && forall i :: 0 <= i < |ks| ==> ks[i] == Tally(xs)[i].0
    requires |cs| == |Tally(xs)| && forall i :: 0 <= i < |cs| ==> cs[i] == Tally(xs)[i].1
    ensures forall i, j :: 0 <= i < j < |ks| ==> ks[i] != ks[j]
    ensures forall k :: k in ks <==> k in xs
    ensures forall i :: 0 <= i < |ks| ==> cs[i] == multiset(xs)[ks[i]] >= 1
    ensures Sum(cs) == |xs|
  {
    TallyColumns(Tally(xs), ks, cs, xs);
  }

  /** The key and count columns of a list of distinct, positive counts of `xs`. */
  lemma TallyColumns<K>(items: seq<(K, nat)>, ks: seq<K>, cs: seq<int>, xs: seq<K>)
    requires forall i, j :: 0 <= i < j < |items| ==> items[i].0 != items[j].0
    requires forall k :: (exists i :: 0 <= i < |items| && items[i].0 == k) <==> k in xs
    requires forall i :: 0 <= i < |items| ==> items[i].1 == multiset(xs)[items[i].0] >= 1
    requires SumCounts(items) == |xs|
    requires |ks| == |items| && forall i :: 0 <= i < |ks| ==> ks[i] == items[i].0
    requires |cs| == |items| && forall i :: 0 <= i < |cs| ==> cs[i] == items[i].1
    ensures forall i, j :: 0 <= i < j < |ks| ==> ks[i] != ks[j]
    ensures forall k :: k in ks <==> k in xs
    ensures forall i :: 0 <= i < |ks| ==> cs[i] == multiset(xs)[ks[i]] >= 1
    ensures Sum(cs) == |xs|
  {
    SumOfCountColumn(items, cs);
    forall k ensures k in ks <==> k in xs {
      if k in xs {
        var i :| 0 <= i < |items| && items[i].0 == k;
        assert ks[i] == k;
      }
    }
  }

  lemma SumOfCountColumn<K>(items: seq<(K, nat)>, cs: seq<int>)
    requires |cs| == |items| && forall i :: 0 <= i < |cs| ==> cs[i] == items[i].1
    ensures Sum(cs) == SumCounts(items)
  {
    assert cs == PairCounts(items);
    SumPairCounts(items);
  }

  function ToStatusCounts(items: seq<(Value, nat)>): (r: seq<StatusCount>)
    ensures |r| == |items| && forall i :: 0 <= i < |items| ==> r[i] == StatusCount(items[i].0, items[i].1)
  {
    seq(|items|, i requires 0 <= i < |items| => StatusCount(items[i].0, items[i].1))
  }

  function ToTypeCounts(items: seq<(Value, nat)>): (r: seq<TypeCount>)
    ensures |r| == |items| && forall i :: 0 <= i < |items| ==> r[i] == TypeCount(items[i].0, items[i].1)
  {
    seq(|items|, i requires 0 <= i < |items| => TypeCount(items[i].0, items[i].1))
  }

  function ToVersionCounts(items: seq<(string, nat)>): (r: seq<PythonVersionCount>)
    ensures |r| == |items| && forall i :: 0 <= i < |items| ==> r[i] == PythonVersionCount(items[i].0, items[i].1)
  {
    seq(|items|, i requires 0 <= i < |items| => PythonVersionCount(items[i].0, items[i].1))
  }

  /**
   * `peps.statuses`: one count per status present; each count is the
   * number of records with that status (so at least 1), and the counts add
   * up to the number of records.
   */
  function Statuses(c: PEPs): (r: seq<StatusCount>)
    requires Keyed(c)
    ensures forall i, j :: 0 <= i < j < |r| ==> r[i].status != r[j].status
    ensures forall k :: k in StatusKeys(r) <==> k in KeysOf(Iter(c), StatusOf)
    ensures forall i :: 0 <= i < |r| ==> r[i].count == multiset(KeysOf(Iter(c), StatusOf))[r[i].status] >= 1
    ensures Sum(StatusCounts(r)) == Len(c)
  {
    var xs := KeysOf(Iter(c), StatusOf);
    var r := ToStatusCounts(Tally(xs));
    TallyRead(xs, StatusKeys(r), StatusCounts(r));
    r
  }

  /** `peps.types`: the same as `statuses`, for the PEP type. */
  function Types(c: PEPs): (r: seq<TypeCount>)
    requires Keyed(c)
    ensures forall i, j :: 0 <= i < j < |r| ==> r[i].pepType != r[j].pepType
    ensures forall k :: k in TypeKeys(r) <==> k in KeysOf(Iter(c), TypeOf)
    ensures forall i :: 0 <= i < |r| ==> r[i].count == multiset(KeysOf(Iter(c), TypeOf))[r[i].pepType] >= 1
    ensures Sum(TypeCounts(r)) == Len(c)
  {
    var xs := KeysOf(Iter(c), TypeOf);
    var r := ToTypeCounts(Tally(xs));
    TallyRead(xs, TypeKeys(r), TypeCounts(r));
    r
  }

  /** Statuses come in the order in which each first appears among the records. */
  lemma StatusesOrder(c: PEPs)
    requires Keyed(c)
    ensures StatusKeys(Statuses(c)) == Count(KeysOf(Iter(c), StatusOf)).keys
    ensures InFirstAppearanceOrder(Iter(c), StatusOf, StatusKeys(Statuses(c)))
  {
    TallyOrder(KeysOf(Iter(c), StatusOf));
    KeysOfFirstAppearance(Iter(c), StatusOf);
  }

  /** Types come in the order in which each first appears among the records. */
  lemma TypesOrder(c: PEPs)
    requires Keyed(c)
    ensures TypeKeys(Types(c)) == Count(KeysOf(Iter(c), TypeOf)).keys
    ensures InFirstAppearanceOrder(Iter(c), TypeOf, TypeKeys(Types(c)))
  {
    TallyOrder(KeysOf(Iter(c), TypeOf));
    KeysOfFirstAppearance(Iter(c), TypeOf);
  }

  /** A record's versions, or `("",)` when it has none. */
  function VersionsOf(p: Pep): (vs: seq<string>)
    ensures vs != []
  {
    if p.pythonVersion == [] then [""] else p.pythonVersion
  }

  /** How many versions a record contributes: its number of versions, and at least one. */
  function Contribution(p: Pep): nat {
    if |p.pythonVersion| == 0 then 1 else |p.pythonVersion|
  }

  function Contributions(ps: seq<Pep>): nat {
    if ps == [] then 0 else Contribution(ps[0]) + Contributions(ps[1..])
  }

  /** The number of records with no Python version. */
  function Versionless(ps: seq<Pep>): nat {
    if ps == [] then 0 else (if ps[0].pythonVersion == [] then 1 else 0) + Versionless(ps[1..])
  }

  /** `reduce(concat, ...)` over the records' version tuples, in iteration order. */
  function ConcatVersions(ps: seq<Pep>): (vs: seq<string>)
    ensures |vs| == Contributions(ps)
  {
    if ps == [] then [] else VersionsOf(ps[0]) + ConcatVersions(ps[1..])
  }

  /**
   * `peps.python_versions`: raises when there are no records (`reduce` with
   * no initial value); otherwise one count per version string present
   * (`""` standing for "no version"), each the number of its occurrences,
   * adding up to the total number of versions contributed.
   */
  function PythonVersions(c: PEPs): (r: Result<seq<PythonVersionCount>, Error>)
    requires Keyed(c)
    ensures r.Err? <==> Len(c) == 0
    ensures r.Err? ==> r.error == EmptyReduce
    ensures r.Ok? ==> forall i, j :: 0 <= i < j < |r.value| ==> r.value[i].version != r.value[j].version
    ensures r.Ok? ==> forall v :: v in VersionKeys(r.value) <==> v in ConcatVersions(Iter(c))
    ensures r.Ok? ==> forall i :: 0 <= i < |r.value| ==> r.value[i].count == multiset(ConcatVersions(Iter(c)))[r.value[i].version] >= 1
    ensures r.Ok? ==> Sum(VersionCounts(r.value)) == Contributions(Iter(c))
  {
    var ps := Iter(c);
    if ps == [] then Err(EmptyReduce)
    else
      var xs := ConcatVersions(ps);
      var r := ToVersionCounts(Tally(xs));
      TallyRead(xs, VersionKeys(r), VersionCounts(r));
      Ok(r)
  }

  /** Versions come in the order in which each first appears among the versions the records contribute. */
  lemma VersionsOrder(c: PEPs)
    requires Keyed(c) && Len(c) > 0
    ensures VersionKeys(PythonVersions(c).value) == Count(ConcatVersions(Iter(c))).keys
    ensures InFirstAppearanceOrder(ConcatVersions(Iter(c)), x => x, VersionKeys(PythonVersions(c).value))
  {
    var xs := ConcatVersions(Iter(c));
    assert PythonVersions(c).value == ToVersionCounts(Tally(xs));
    TallyVersionOrder(xs);
  }

  /** The version counts built from `Counter(xs).items()` carry the counter's keys, in first-appearance order. */
  lemma TallyVersionOrder(xs: seq<string>)
    ensures VersionKeys(ToVersionCounts(Tally(xs))) == Count(xs).keys
    ensures InFirstAppearanceOrder(xs, x => x, VersionKeys(ToVersionCounts(Tally(xs))))
  {
    TallyVersionKeys(xs);
    CounterKeysOrder(xs, VersionKeys(ToVersionCounts(Tally(xs))));
  }

  /** A list equal to the keys of `Counter(xs)` is in first-appearance order over `xs`. */
  lemma CounterKeysOrder(xs: seq<string>, ks: seq<string>)
    requires ks == Count(xs).keys
    ensures InFirstAppearanceOrder(xs, x => x, ks)
  {
    CountFirstAppearance(xs);
  }

  /** The version counts built from `Counter(xs).items()` carry the counter's keys in order. */
  lemma TallyVersionKeys(xs: seq<string>)
    ensures VersionKeys(ToVersionCounts(Tally(xs))) == Count(xs).keys
  {
    TallyOrder(xs);
  }

  /**
   * When no record lists `""` as a version itself, the `""` bucket counts
   * exactly the records with no version.
   */
  lemma {:induction false} BlankCountsVersionless(ps: seq<Pep>)
    requires forall i :: 0 <= i < |ps| ==> "" !in ps[i].pythonVersion
    ensures multiset(ConcatVersions(ps))[""] == Versionless(ps)
  {
    if ps != [] {
      BlankCountsVersionless(ps[1..]);
      assert ps[0].pythonVersion == [] ==> VersionsOf(ps[0]) == [""];
      assert ps[0].pythonVersion != [] ==> multiset(VersionsOf(ps[0]))[""] == 0;
    }
  }

  lemma BlankBucket(c: PEPs)
    requires Keyed(c) && Len(c) > 0
    requires forall i :: 0 <= i < |Iter(c)| ==> "" !in Iter(c)[i].pythonVersion
    ensures forall i :: 0 <= i < |PythonVersions(c).value| && PythonVersions(c).value[i].version == "" ==>
      PythonVersions(c).value[i].count == Versionless(Iter(c))
  {
    BlankCountsVersionless(Iter(c));
  }

  /** The `""` bucket is present exactly when some record has no version, or lists `""`. */
  lemma {:induction false} BlankPresent(ps: seq<Pep>)
    ensures "" in ConcatVersions(ps) <==> exists i :: 0 <= i < |ps| && "" in VersionsOf(ps[i])
  {
    if ps != [] {
      BlankPresent(ps[1..]);
      var rest := ConcatVersions(ps[1..]);
      assert ConcatVersions(ps) == VersionsOf(ps[0]) + rest;
      if exists i :: 0 <= i < |ps| && "" in VersionsOf(ps[i]) {
        var i :| 0 <= i < |ps| && "" in VersionsOf(ps[i]);
        if i > 0 {
          assert ps[1..][i - 1] == ps[i];
        }
      }
      if exists i :: 0 <= i < |ps[1..]| && "" in VersionsOf(ps[1..][i]) {
        var i :| 0 <= i < |ps[1..]| && "" in VersionsOf(ps[1..][i]);
        assert ps[i + 1] == ps[1..][i];
      }
    }
  }

  // The nine sample records of the unit tests: distinct numbers, distinct
  // statuses, and each of the three types three times.

  /** The statuses a PEP may have, in the order the source declares them. */
  const PepStatuses: seq<string> := ["Draft", "Active", "Accepted", "Provisional", "Deferred", "Rejected", "Withdrawn", "Final", "Superseded"]

  /** The types a PEP may have, in the order the source declares them. */
  const PepTypes: seq<string> := ["Standards Track", "Informational", "Process"]

  const SampleNumbers: seq<Value> := [Int(1), Int(458), Int(467), Int(639), Int(213), Int(204), Int(3), Int(100), Int(5)]

  const SampleStatuses: seq<Value> := [Str("Active"), Str("Accepted"), Str("Draft"), Str("Provisional"), Str("Deferred"), Str("Rejected"), Str("Withdrawn"), Str("Final"), Str("Superseded")]

  const SampleTypes: seq<Value> := [Str("Process"), Str("Standards Track"), Str("Informational"), Str("Process"), Str("Standards Track"), Str("Informational"), Str("Process"), Str("Standards Track"), Str("Informational")]

  lemma {:induction false} SumOfSame(xs: seq<int>, v: int)
    requires forall i :: 0 <= i < |xs| ==> xs[i] == v
    ensures Sum(xs) == v * |xs|
  {
    if xs != [] {
      SumOfSame(xs[..|xs| - 1], v);
    }
  }

  /** When no two records share a status, each status is counted once and there is one count per record. */
  lemma DistinctStatusesOnce(c: PEPs)
    requires Keyed(c)
    requires forall i, j :: 0 <= i < j < |Iter(c)| ==> Iter(c)[i].status != Iter(c)[j].status
    ensures |Statuses(c)| == Len(c)
    ensures forall i :: 0 <= i < |Statuses(c)| ==> Statuses(c)[i].count == 1
  {
    var xs := KeysOf(Iter(c), StatusOf);
    var r := Statuses(c);
    forall i | 0 <= i < |r| ensures r[i].count == 1 {
      NoRepeats(xs, r[i].status);
    }
    SumOfSame(StatusCounts(r), 1);
  }

  lemma SampleStatusesDistinct()
    ensures forall i, j :: 0 <= i < j < |SampleStatuses| ==> SampleStatuses[i] != SampleStatuses[j]
  {
    var ss := SampleStatuses;
    forall i, j | 0 <= i < j < |ss| ensures ss[i] != ss[j] {
      assert |ss[i].s| != |ss[j].s| || ss[i].s[0] != ss[j].s[0];
    }
  }

  /** The test's expectation: a count of `n` for every declared status. */
  function ExpectedStatuses(n: int): (r: seq<StatusCount>)
    ensures |r| == |PepStatuses| && forall i :: 0 <= i < |r| ==> r[i] == StatusCount(Str(PepStatuses[i]), n)
  {
    seq(|PepStatuses|, i requires 0 <= i < |PepStatuses| => StatusCount(Str(PepStatuses[i]), n))
  }

  /** The test's expectation: a count of `n` for every declared type. */
  function ExpectedTypes(n: int): (r: seq<TypeCount>)
    ensures |r| == |PepTypes| && forall i :: 0 <= i < |r| ==> r[i] == TypeCount(Str(PepTypes[i]), n)
  {
    seq(|PepTypes|, i requires 0 <= i < |PepTypes| => TypeCount(Str(PepTypes[i]), n))
  }

  /** The samples use each declared status exactly once. */
  lemma SampleStatusKeys(n: int)
    ensures DistinctStrKeys(StatusKeys(ExpectedStatuses(n)))
    ensures forall k :: k in SampleStatuses <==> k in StatusKeys(ExpectedStatuses(n))
  {
    var a, b := SampleStatuses, StatusKeys(ExpectedStatuses(n));
    forall k ensures k in a <==> k in b {
      assert a[0] == b[1] && a[1] == b[2] && a[2] == b[0] && a[3] == b[3] && a[4] == b[4] && a[5] == b[5] && a[6] == b[6] && a[7] == b[7] && a[8] == b[8];
    }
    forall i, j | 0 <= i < j < |b| ensures b[i] != b[j] {
      assert |b[i].s| != |b[j].s| || b[i].s[0] != b[j].s[0];
    }
  }

  /** The nine samples are all held, in their own order. */
  lemma SampleLength(ps: seq<Pep>)
    requires KeysOf(ps, NumberOf) == SampleNumbers
    ensures Len(Create(Some(ps))) == 9 && Iter(Create(Some(ps))) == ps
  {
    var ks := KeysOf(ps, NumberOf);
    assert forall i, j :: 0 <= i < j < |ps| ==> ps[i].number != ps[j].number by {
      forall i, j | 0 <= i < j < |ps| ensures ps[i].number != ps[j].number {
        assert ks[i] == ps[i].number && ks[j] == ps[j].number;
      }
    }
    DistinctNumbers(ps);
  }

  /** Records with distinct numbers and distinct statuses: one count of 1 per record. */
  lemma DistinctRecordsOnce(ps: seq<Pep>)
    requires forall i, j :: 0 <= i < j < |ps| ==> ps[i].number != ps[j].number
    requires forall i, j :: 0 <= i < j < |ps| ==> ps[i].status != ps[j].status
    ensures |Statuses(Create(Some(ps)))| == |ps|
    ensures forall i :: 0 <= i < |ps| ==> Statuses(Create(Some(ps)))[i].count == 1
  {
    DistinctNumbers(ps);
    DistinctStatusesOnce(Create(Some(ps)));
  }

  /** Distinct keys come from records whose keys differ. */
  lemma DistinctKeysOf<T, K>(vs: seq<T>, key: T -> K)
    requires forall i, j :: 0 <= i < j < |vs| ==> KeysOf(vs, key)[i] != KeysOf(vs, key)[j]
    ensures forall i, j :: 0 <= i < j < |vs| ==> key(vs[i]) != key(vs[j])
  {
    var ks := KeysOf(vs, key);
    forall i, j | 0 <= i < j < |vs| ensures key(vs[i]) != key(vs[j]) {
      assert ks[i] == key(vs[i]) && ks[j] == key(vs[j]);
    }
  }

  /** Nine distinct statuses: nine status counts, each of 1. */
  lemma SampleStatusCounts(ps: seq<Pep>)
    requires KeysOf(ps, NumberOf) == SampleNumbers
    requires KeysOf(ps, StatusOf) == SampleStatuses
    ensures |Statuses(Create(Some(ps)))| == 9
    ensures forall i :: 0 <= i < 9 ==> Statuses(Create(Some(ps)))[i].count == 1
  {
    SampleRecordsDistinct(ps);
    DistinctRecordsOnce(ps);
  }

  /** The nine samples differ pairwise in number and in status. */
  lemma SampleRecordsDistinct(ps: seq<Pep>)
    requires KeysOf(ps, NumberOf) == SampleNumbers
    requires KeysOf(ps, StatusOf) == SampleStatuses
    ensures |ps| == 9
    ensures forall i, j :: 0 <= i < j < |ps| ==> ps[i].number != ps[j].number
    ensures forall i, j :: 0 <= i < j < |ps| ==> ps[i].status != ps[j].status
  {
    SampleStatusesDistinct();
    DistinctKeysOf(ps, NumberOf);
    DistinctKeysOf(ps, StatusOf);
  }

  /**
   * `sorted(peps.statuses) == sorted(StatusCount(s, 1) for s in statuses)`
   * holds on the samples.
   */
  lemma SampleStatusTest(ps: seq<Pep>, s: seq<StatusCount>, t: seq<StatusCount>)
    requires KeysOf(ps, NumberOf) == SampleNumbers
    requires KeysOf(ps, StatusOf) == SampleStatuses
    requires SortsStatuses(s, Statuses(Create(Some(ps))))
    requires SortsStatuses(t, ExpectedStatuses(1))
    ensures StatusListsEqual(s, t)
  {
    SampleLength(ps);
    var xs := Statuses(Create(Some(ps)));
    SampleStatusKeys(1);
    SampleStatusesStr(xs);
    SortedStatusesEqual(s, xs, t, ExpectedStatuses(1));
  }

  /** Counts whose statuses are exactly the sample statuses have distinct string keys. */
  lemma SampleStatusesStr(xs: seq<StatusCount>)
    requires forall i, j :: 0 <= i < j < |xs| ==> xs[i].status != xs[j].status
    requires forall k :: k in StatusKeys(xs) <==> k in SampleStatuses
    ensures DistinctStrKeys(StatusKeys(xs))
  {
    forall i | 0 <= i < |xs| ensures xs[i].status.Str? {
      assert StatusKeys(xs)[i] in SampleStatuses;
    }
  }

  /** Three distinct values, each three times: each is counted three times. */
  lemma ThreeEach(p: Value, q: Value, u: Value, x: Value)
    requires p != q && q != u && p != u
    requires x == p || x == q || x == u
    ensures multiset([p, q, u, p, q, u, p, q, u])[x] == 3
  {
  }

  lemma SampleTypeKeys(n: int)
    ensures DistinctStrKeys(TypeKeys(ExpectedTypes(n)))
    ensures forall k :: k in SampleTypes <==> k in TypeKeys(ExpectedTypes(n))
  {
    var b := TypeKeys(ExpectedTypes(n));
    assert b == [Str("Standards Track"), Str("Informational"), Str("Process")];
    assert |b[0].s| != |b[1].s| && |b[1].s| != |b[2].s| && |b[0].s| != |b[2].s|;
  }

  lemma ThreeEachIn(xs: seq<Value>, p: Value, q: Value, u: Value)
    requires p != q && q != u && p != u
    requires xs == [p, q, u, p, q, u, p, q, u]
    ensures forall k :: k in xs ==> multiset(xs)[k] == 3
  {
    forall k | k in xs ensures multiset(xs)[k] == 3 {
      ThreeEach(p, q, u, k);
    }
  }

  /** Counts taken over three distinct types, each three times, are three counts of 3. */
  lemma ThriceCounted(r: seq<TypeCount>, xs: seq<Value>, p: Value, q: Value, u: Value)
    requires p != q && q != u && p != u
    requires xs == [p, q, u, p, q, u, p, q, u]
    requires forall k :: k in TypeKeys(r) <==> k in xs
    requires forall i :: 0 <= i < |r| ==> r[i].count == multiset(xs)[r[i].pepType]
    requires Sum(TypeCounts(r)) == |xs|
    ensures |r| == 3
    ensures forall i :: 0 <= i < |r| ==> r[i].count == 3
  {
    ThreeEachIn(xs, p, q, u);
    forall i | 0 <= i < |r| ensures r[i].count == 3 {
      assert TypeKeys(r)[i] in xs;
    }
    SumOfSame(TypeCounts(r), 3);
  }

  /** Three distinct types, each on three records: three type counts, each of 3. */
  lemma ThreeTypesThrice(c: PEPs, p: Value, q: Value, u: Value)
    requires Keyed(c)
    requires p != q && q != u && p != u
    requires KeysOf(Iter(c), TypeOf) == [p, q, u, p, q, u, p, q, u]
    ensures |Types(c)| == 3
    ensures forall i :: 0 <= i < |Types(c)| ==> Types(c)[i].count == 3
  {
    ThriceCounted(Types(c), KeysOf(Iter(c), TypeOf), p, q, u);
  }

  /** On the samples: three type counts, each of 3. */
  lemma SampleTypeCounts(ps: seq<Pep>)
    requires KeysOf(ps, NumberOf) == SampleNumbers
    requires KeysOf(ps, TypeOf) == SampleTypes
    ensures |Types(Create(Some(ps)))| == 3
    ensures forall i :: 0 <= i < |Types(Create(Some(ps)))| ==> Types(Create(Some(ps)))[i].count == 3
  {
    SampleLength(ps);
    var p, q, u := Str("Process"), Str("Standards Track"), Str("Informational");
    assert |p.s| != |q.s| && |q.s| != |u.s| && |p.s| != |u.s|;
    ThreeTypesThrice(Create(Some(ps)), p, q, u);
  }

  /**
   * `sorted(peps.types) == sorted(TypeCount(t, 2) for t in types)` holds on
   * the samples although every type is counted three times: list equality
   * compares the types only.
   */
  lemma SampleTypeTest(ps: seq<Pep>, s: seq<TypeCount>, t: seq<TypeCount>)
    requires KeysOf(ps, NumberOf) == SampleNumbers
    requires KeysOf(ps, TypeOf) == SampleTypes
    requires SortsTypes(s, Types(Create(Some(ps))))
    requires SortsTypes(t, ExpectedTypes(2))
    ensures TypeListsEqual(s, t)
    ensures forall i :: 0 <= i < |s| ==> s[i].count == 3 && t[i].count == 2
  {
    SampleLength(ps);
    SampleTypeCounts(ps);
    SortedSampleTypes(s, Types(Create(Some(ps))), t);
  }

  /** Sorted counts over the sample types, each of 3, against the expected counts of 2. */
  lemma SortedSampleTypes(s: seq<TypeCount>, xs: seq<TypeCount>, t: seq<TypeCount>)
    requires SortsTypes(s, xs) && SortsTypes(t, ExpectedTypes(2))
    requires forall i, j :: 0 <= i < j < |xs| ==> xs[i].pepType != xs[j].pepType
    requires forall k :: k in TypeKeys(xs) <==> k in SampleTypes
    requires forall i :: 0 <= i < |xs| ==> xs[i].count == 3
    ensures TypeListsEqual(s, t)
    ensures forall i :: 0 <= i < |s| ==> s[i].count == 3 && t[i].count == 2
  {
    SampleTypeKeys(2);
    SampleTypesStr(xs);
    SortedTypesEqual(s, xs, t, ExpectedTypes(2));
    SortedTypesKeepCount(s, xs, 3);
    SortedTypesKeepCount(t, ExpectedTypes(2), 2);
  }

  /** Sorting keeps a count that every element shares. */
  lemma SortedTypesKeepCount(s: seq<TypeCount>, xs: seq<TypeCount>, n: int)
    requires SortsTypes(s, xs)
    requires forall i :: 0 <= i < |xs| ==> xs[i].count == n
    ensures forall i :: 0 <= i < |s| ==> s[i].count == n
  {
    forall i | 0 <= i < |s| ensures s[i].count == n {
      assert s[i] in multiset(xs);
    }
  }

  lemma SampleTypesStr(xs: seq<TypeCount>)
    requires forall i, j :: 0 <= i < j < |xs| ==> xs[i].pepType != xs[j].pepType
    requires forall k :: k in TypeKeys(xs) <==> k in SampleTypes
    ensures DistinctStrKeys(TypeKeys(xs))
  {
    forall i | 0 <= i < |xs| ensures xs[i].pepType.Str? {
      assert TypeKeys(xs)[i] in SampleTypes;
    }
  }
}
