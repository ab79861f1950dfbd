/** The counting the analyzer does through pandas and `collections.Counter`:
    tallies in first-appearance order, `groupby(...).size()` (NULL keys
    dropped, keys sorted), `value_counts()` (NULL dropped, most frequent
    first), `Counter.most_common(n)` and `idxmax`. */
module Counting {
  import opened Common
  import opened Sorting

  /** A tally: values with their numbers of occurrences. */
  type Counts = seq<(Value, nat)>

  /** The rows of `s` that `f` keeps, in order (a boolean mask in pandas,
      a WHERE clause in SQL). */
  function Filter<T(!new)>(s: seq<T>, f: T -> bool): (r: seq<T>)
    ensures forall x :: multiset(r)[x] == if f(x) then multiset(s)[x] else 0
    ensures forall x :: x in r <==> x in s && f(x)
    ensures |r| <= |s|
    decreases |s|
  {
    if s == [] then []
    else
      var init := s[..|s| - 1];
      assert s == init + [s[|s| - 1]];
      Filter(init, f) + (if f(s[|s| - 1]) then [s[|s| - 1]] else [])
  }

  /** Filtering a sequence extended by one element. */
  lemma FilterAppendOne<T(!new)>(s: seq<T>, x: T, f: T -> bool)
    ensures Filter(s + [x], f) == Filter(s, f) + (if f(x) then [x] else [])
  {
    assert (s + [x])[..|s|] == s;
  }

  /** When every element the second test keeps also passes the first,
      filtering by the first beforehand changes nothing. */
  lemma {:induction false} FilterNested<T(!new)>(s: seq<T>, f: T -> bool, g: T -> bool)
    requires forall x :: g(x) ==> f(x)
    ensures Filter(Filter(s, f), g) == Filter(s, g)
    decreases |s|
  {
    if s != [] {
      var init := s[..|s| - 1];
      var last := s[|s| - 1];
      FilterNested(init, f, g);
      var fi := Filter(init, f);
      var tail := if g(last) then [last] else [];
      assert Filter(s, g) == Filter(init, g) + tail;
      if f(last) {
        assert Filter(s, f) == fi + [last];
        FilterAppendOne(fi, last, g);
        assert Filter(fi + [last], g) == Filter(init, g) + tail;
      } else {
        assert Filter(s, f) == fi;
        assert tail == [];
      }
    }
  }

  /** The non-NULL values, as pandas' `dropna` keeps them. */
  function NonNull(xs: seq<Value>): (r: seq<Value>)
    ensures forall v :: v != Null ==> multiset(r)[v] == multiset(xs)[v]
    ensures forall v :: v in r <==> v in xs && v != Null
  {
    Filter(xs, (v: Value) => v != Null)
  }

  function Keys(t: Counts): (ks: seq<Value>)
    ensures |ks| == |t| && forall i :: 0 <= i < |t| ==> ks[i] == t[i].0
  {
    if t == [] then [] else [t[0].0] + Keys(t[1..])
  }

  lemma KeysCons(a: (Value, nat), s: Counts)
    ensures Keys([a] + s) == [a.0] + Keys(s)
  {
    assert ([a] + s)[1..] == s;
  }

  /** When no value is NULL, `dropna` keeps them all. */
  lemma NonNullAll(xs: seq<Value>)
    requires forall v :: v in xs ==> v != Null
    ensures |NonNull(xs)| == |xs|
  {
    forall v ensures multiset(NonNull(xs))[v] == multiset(xs)[v] {
      if v == Null {
        assert v !in NonNull(xs) && v !in xs;
      }
    }
    assert multiset(NonNull(xs)) == multiset(xs);
  }

  /** Each value has one entry. */
  predicate DistinctKeys(t: Counts) {
    Distinct(Keys(t))
  }

  /** The sum of the counts. */
  function Total(t: Counts): nat {
    if t == [] then 0 else t[0].1 + Total(t[1..])
  }

  /** Where `x` first occurs in `ks`. */
  function IndexOf(ks: seq<Value>, x: Value): (j: nat)
    requires x in ks
    ensures j < |ks| && ks[j] == x
  {
    if ks[0] == x then 0 else 1 + IndexOf(ks[1..], x)
  }

  /** One more occurrence of `x`: its entry goes up by one, or a new entry
      is added at the end (`counts[x] += 1` on a dict). */
  function Bump(t: Counts, x: Value): Counts {
    if x in Keys(t) then
      var j := IndexOf(Keys(t), x);
      t[j := (x, t[j].1 + 1)]
    else t + [(x, 1)]
  }

  lemma {:induction false} TotalUpdate(t: Counts, j: nat, e: (Value, nat))
    requires j < |t|
    ensures Total(t[j := e]) + t[j].1 == Total(t) + e.1
  {
    if j > 0 {
      TotalUpdate(t[1..], j - 1, e);
      assert t[j := e][1..] == t[1..][j - 1 := e];
    }
  }

  lemma {:induction false} TotalAppend(t: Counts, e: (Value, nat))
    ensures Total(t + [e]) == Total(t) + e.1
  {
    if t != [] {
      TotalAppend(t[1..], e);
      assert (t + [e])[1..] == t[1..] + [e];
    }
  }

  /** A value already counted: its entry, and only its, goes up by one. */
  lemma BumpExisting(t: Counts, x: Value)
    requires DistinctKeys(t) && x in Keys(t)
    ensures Keys(Bump(t, x)) == Keys(t)
    ensures |Bump(t, x)| == |t|
    ensures forall i :: 0 <= i < |t| ==> Bump(t, x)[i] == (t[i].0, t[i].1 + if t[i].0 == x then 1 else 0)
  {
    var j := IndexOf(Keys(t), x);
    var r := t[j := (x, t[j].1 + 1)];
    assert Bump(t, x) == r;
    assert t[j].0 == x;
    assert (t[j].0, t[j].1 + 1) == (x, t[j].1 + 1);
    UpdateSameKeys(t, j, t[j].1 + 1);
    OnlyIndexOf(Keys(t), j, x);
    forall i | 0 <= i < |t| ensures r[i] == (t[i].0, t[i].1 + if t[i].0 == x then 1 else 0) {
      if i != j {
        assert t[i].0 == Keys(t)[i] != x;
      }
    }
  }

  lemma BumpExistingTotal(t: Counts, x: Value)
    requires x in Keys(t)
    ensures Total(Bump(t, x)) == Total(t) + 1
  {
    var j := IndexOf(Keys(t), x);
    var e := (x, t[j].1 + 1);
    assert Bump(t, x) == t[j := e];
    TotalUpdate(t, j, e);
    assert Total(t[j := e]) + t[j].1 == Total(t) + t[j].1 + 1;
  }

  /** Setting a count keeps the keys. */
  lemma UpdateSameKeys(t: Counts, j: nat, n: nat)
    requires j < |t|
    ensures Keys(t[j := (t[j].0, n)]) == Keys(t)
  {
    var r := t[j := (t[j].0, n)];
    assert forall i :: 0 <= i < |t| ==> Keys(r)[i] == r[i].0 == t[i].0 == Keys(t)[i];
  }

  /** In a list without repeats, one index holds `x`. */
  lemma OnlyIndexOf(ks: seq<Value>, j: nat, x: Value)
    requires Distinct(ks) && j < |ks| && ks[j] == x
    ensures forall i :: 0 <= i < |ks| && i != j ==> ks[i] != x
  {
  }

  /** A new value: an entry of one at the end. */
  lemma BumpNew(t: Counts, x: Value)
    requires x !in Keys(t)
    ensures Bump(t, x) == t + [(x, 1)]
    ensures Keys(Bump(t, x)) == Keys(t) + [x]
    ensures Total(Bump(t, x)) == Total(t) + 1
  {
    TotalAppend(t, (x, 1));
    assert forall i :: 0 <= i < |t| ==> Keys(t + [(x, 1)])[i] == Keys(t)[i];
  }

  /** On a tally, `Bump` adds one to the entry of `x` (or appends a new one)
      and leaves the other entries and their order alone. */
  lemma BumpFacts(t: Counts, x: Value)
    requires DistinctKeys(t)
    ensures Keys(Bump(t, x)) == if x in Keys(t) then Keys(t) else Keys(t) + [x]
    ensures x !in Keys(t) ==> Bump(t, x) == t + [(x, 1)]
    ensures |Bump(t, x)| >= |t|
    ensures forall i :: 0 <= i < |t| ==> Bump(t, x)[i] == (t[i].0, t[i].1 + if t[i].0 == x then 1 else 0)
    ensures Total(Bump(t, x)) == Total(t) + 1
  {
    if x in Keys(t) {
      BumpExisting(t, x);
      BumpExistingTotal(t, x);
    } else {
      BumpNew(t, x);
      forall i | 0 <= i < |t| ensures t[i].0 != x {
        assert Keys(t)[i] == t[i].0;
      }
    }
  }

  /** `Counter(xs)`: one entry per distinct value, in order of first
      appearance, holding its number of occurrences; the counts add up
      to the number of values. */
  function Tally(xs: seq<Value>): (t: Counts)
    ensures DistinctKeys(t)
    ensures forall v :: v in Keys(t) <==> v in xs
    ensures forall i :: 0 <= i < |t| ==> t[i].1 == multiset(xs)[t[i].0]
    ensures Total(t) == |xs|
    decreases |xs|
  {
    if xs == [] then []
    else
      var init := xs[..|xs| - 1];
      var x := xs[|xs| - 1];
      assert xs == init + [x];
      var t0 := Tally(init);
      BumpSpec(init, x, t0);
      BumpFacts(t0, x);
      Bump(t0, x)
  }

  /** Bumping the tally of `init` by `x` gives the tally of `init + [x]`. */
  lemma BumpSpec(init: seq<Value>, x: Value, t0: Counts)
    requires DistinctKeys(t0) && forall v :: v in Keys(t0) <==> v in init
    requires forall i :: 0 <= i < |t0| ==> t0[i].1 == multiset(init)[t0[i].0]
    ensures var t := Bump(t0, x);
      && DistinctKeys(t)
      && (forall v :: v in Keys(t) <==> v in init + [x])
      && (forall i :: 0 <= i < |t| ==> t[i].1 == multiset(init + [x])[t[i].0])
  {
    var t := Bump(t0, x);
    BumpFacts(t0, x);
    assert multiset(init + [x]) == multiset(init) + multiset{x};
    if x !in Keys(t0) {
      DistinctAppend(Keys(t0), [x]);
      assert t[|t0|] == (x, 1);
    }
  }

  /** An entry of a tally is a value that occurs, with its number of
      occurrences. */
  lemma TallyEntry(xs: seq<Value>, e: (Value, nat))
    ensures e in Tally(xs) <==> e.0 in xs && e.1 == multiset(xs)[e.0]
  {
    var t := Tally(xs);
    if e.0 in xs && e.1 == multiset(xs)[e.0] {
      var i :| 0 <= i < |t| && Keys(t)[i] == e.0;
      assert t[i] == e;
    }
    if e in t {
      var i :| 0 <= i < |t| && t[i] == e;
      assert Keys(t)[i] == e.0;
    }
  }

  lemma {:induction false} TotalInsert(x: (Value, nat), s: Counts, le: ((Value, nat), (Value, nat)) -> bool)
    ensures Total(Insert(x, s, le)) == x.1 + Total(s)
  {
    if s != [] && !le(x, s[0]) {
      TotalInsert(x, s[1..], le);
      assert ([s[0]] + Insert(x, s[1..], le))[1..] == Insert(x, s[1..], le);
    }
  }

  /** Reordering a tally keeps its total. */
  lemma {:induction false} TotalSortBy(s: Counts, le: ((Value, nat), (Value, nat)) -> bool)
    ensures Total(SortBy(s, le)) == Total(s)
  {
    if s != [] {
      TotalSortBy(s[1..], le);
      TotalInsert(s[0], SortBy(s[1..], le), le);
    }
  }

  /** The ranking order of `value_counts` and `most_common`: larger counts first. */
  function ByCountDesc(a: (Value, nat), b: (Value, nat)): bool {
    a.1 >= b.1
  }

  /** The key order of `groupby(sort=True)`. */
  function ByKey(a: (Value, nat), b: (Value, nat)): bool {
    ValueLe(a.0, b.0)
  }

  lemma ByCountDescPreorder()
    ensures TotalPreorder(ByCountDesc)
  {
  }

  lemma ByKeyPreorder()
    ensures TotalPreorder(ByKey)
  {
    forall a: (Value, nat), b: (Value, nat) ensures ByKey(a, b) || ByKey(b, a) {
      ValueLeTotal(a.0, b.0);
    }
    forall a: (Value, nat), b: (Value, nat), c: (Value, nat) | ByKey(a, b) && ByKey(b, c)
      ensures ByKey(a, c)
    {
      ValueLeTransitive(a.0, b.0, c.0);
    }
  }

  /** `series.value_counts()`. */
  function ValueCounts(xs: seq<Value>): Counts {
    SortBy(Tally(NonNull(xs)), ByCountDesc)
  }

  /** `value_counts` ranks the non-NULL values by frequency, gives each its
      true count, and its counts add up to the number of non-NULL values. */
  lemma ValueCountsSpec(xs: seq<Value>)
    ensures Sorted(ValueCounts(xs), ByCountDesc)
    ensures forall e :: e in ValueCounts(xs) <==> e.0 != Null && e.0 in xs && e.1 == multiset(xs)[e.0]
    ensures Total(ValueCounts(xs)) == |NonNull(xs)|
  {
    var t := Tally(NonNull(xs));
    ByCountDescPreorder();
    SortBySorted(t, ByCountDesc);
    TotalSortBy(t, ByCountDesc);
    forall e ensures e in ValueCounts(xs) <==> e.0 != Null && e.0 in xs && e.1 == multiset(xs)[e.0] {
      SortByMembers(t, ByCountDesc, e);
      TallyEntry(NonNull(xs), e);
    }
  }

  /** `df.groupby(col).size()`. */
  function GroupSizes(xs: seq<Value>): Counts {
    SortBy(Tally(NonNull(xs)), ByKey)
  }

  /** The groups are the non-NULL values in key order, each with its size,
      and the sizes add up to the number of non-NULL values. */
  lemma GroupSizesSpec(xs: seq<Value>)
    ensures Sorted(GroupSizes(xs), ByKey)
    ensures forall e :: e in GroupSizes(xs) <==> e.0 != Null && e.0 in xs && e.1 == multiset(xs)[e.0]
    ensures Total(GroupSizes(xs)) == |NonNull(xs)|
  {
    var t := Tally(NonNull(xs));
    ByKeyPreorder();
    SortBySorted(t, ByKey);
    TotalSortBy(t, ByKey);
    forall e ensures e in GroupSizes(xs) <==> e.0 != Null && e.0 in xs && e.1 == multiset(xs)[e.0] {
      SortByMembers(t, ByKey, e);
      TallyEntry(NonNull(xs), e);
    }
  }

  /** One group of `groupby(col).size()`: a non-NULL value of the column
      and how often it occurs. */
  lemma GroupSizesMember(xs: seq<Value>, e: (Value, nat))
    requires e in GroupSizes(xs)
    ensures e.0 != Null && e.0 in xs && e.1 == multiset(xs)[e.0]
  {
    var t := Tally(NonNull(xs));
    SortByMembers(t, ByKey, e);
    TallyEntry(NonNull(xs), e);
  }

  /** The group keys of `groupby(col)`: the distinct non-NULL values in key order. */
  function GroupKeys(xs: seq<Value>): seq<Value> {
    Keys(GroupSizes(xs))
  }

  lemma GroupKeysSpec(xs: seq<Value>)
    ensures forall v :: v in GroupKeys(xs) <==> v != Null && v in xs
    ensures forall i, j :: 0 <= i < j < |GroupKeys(xs)| ==> ValueLe(GroupKeys(xs)[i], GroupKeys(xs)[j])
  {
    GroupSizesSpec(xs);
    var g := GroupSizes(xs);
    forall v ensures v in GroupKeys(xs) <==> v != Null && v in xs {
      if v in GroupKeys(xs) {
        var i :| 0 <= i < |g| && GroupKeys(xs)[i] == v;
        assert g[i] in g;
      }
      if v != Null && v in xs {
        assert (v, multiset(xs)[v]) in g;
        var i :| 0 <= i < |g| && g[i] == (v, multiset(xs)[v]);
        assert GroupKeys(xs)[i] == v;
      }
    }
  }

  /** `Counter(xs).most_common(n)`. */
  function MostCommon(xs: seq<Value>, n: nat): Counts {
    Take(SortBy(Tally(xs), ByCountDesc), n)
  }

  /** At most `n` entries, most frequent first, each a value of `xs` with
      its count. */
  lemma MostCommonSpec(xs: seq<Value>, n: nat)
    ensures |MostCommon(xs, n)| <= n
    ensures Sorted(MostCommon(xs, n), ByCountDesc)
    ensures forall e :: e in MostCommon(xs, n) ==> e.0 in xs && e.1 == multiset(xs)[e.0]
  {
    var t := Tally(xs);
    var s := SortBy(t, ByCountDesc);
    var r := MostCommon(xs, n);
    ByCountDescPreorder();
    SortBySorted(t, ByCountDesc);
    assert r == s[..|r|];
    forall e | e in r ensures e.0 in xs && e.1 == multiset(xs)[e.0] {
      assert e in s;
      SortByMembers(t, ByCountDesc, e);
      TallyEntry(xs, e);
    }
  }

  /** A value `most_common(n)` leaves out is no more frequent than any it
      keeps, and it is left out only when all `n` places are taken. */
  lemma MostCommonOmitted(xs: seq<Value>, n: nat, v: Value)
    requires v in xs && v !in Keys(MostCommon(xs, n))
    ensures |MostCommon(xs, n)| == n
    ensures forall e :: e in MostCommon(xs, n) ==> multiset(xs)[v] <= e.1
  {
    var t := Tally(xs);
    var s := SortBy(t, ByCountDesc);
    var r := MostCommon(xs, n);
    ByCountDescPreorder();
    SortBySorted(t, ByCountDesc);
    var e0 := (v, multiset(xs)[v]);
    TallyEntry(xs, e0);
    SortByMembers(t, ByCountDesc, e0);
    var j :| 0 <= j < |s| && s[j] == e0;
    PrefixKeys(s, r, j);
    SortedPrefixDominates(s, r, j);
  }

  lemma PrefixKeys(s: Counts, r: Counts, j: nat)
    requires |r| <= |s| && r == s[..|r|] && j < |s|
    ensures j < |r| ==> s[j].0 in Keys(r)
  {
    if j < |r| {
      assert Keys(r)[j] == s[j].0;
    }
  }

  lemma SortedPrefixDominates(s: Counts, r: Counts, j: nat)
    requires Sorted(s, ByCountDesc) && |r| <= |s| && r == s[..|r|] && |r| <= j < |s|
    ensures forall e :: e in r ==> s[j].1 <= e.1
  {
    forall e | e in r ensures s[j].1 <= e.1 {
      var i :| 0 <= i < |r| && r[i] == e;
      assert s[i] == e;
    }
  }

  /** `idxmax`: the first entry with the largest count. */
  function PeakIndex(t: Counts): (i: nat)
    requires t != []
    ensures i < |t|
    ensures forall j :: 0 <= j < |t| ==> t[j].1 <= t[i].1
    ensures forall j :: 0 <= j < i ==> t[j].1 < t[i].1
  {
    if |t| == 1 then 0
    else
      var k := PeakIndex(t[1..]);
      if t[0].1 >= t[k + 1].1 then 0 else k + 1
  }
}
