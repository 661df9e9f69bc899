/** Frequency tables as pandas' `value_counts` builds them: one row per
    distinct value with the number of times it occurs, ordered by count,
    largest first; plus the top-K selection and the running total of a
    table's counts. */
module Frequency {
  import opened Collections
  import opened Sorting

  /** Rows of (value, count). */
  type Table<K> = seq<(K, nat)>

  /** Number of occurrences of `x` in `s`. */
  function Count<K(==)>(s: seq<K>, x: K): nat
  {
    multiset(s)[x]
  }

  function Elements<K(==)>(s: seq<K>): set<K>
  {
    set x | x in s
  }

  function Keys<K(==)>(t: Table<K>): set<K>
  {
    set e | e in t :: e.0
  }

  predicate DistinctKeys<K(==)>(t: Table<K>)
  {
    forall i, j :: 0 <= i < j < |t| ==> t[i].0 != t[j].0
  }

  /** Sum of the count column (pandas' `table['Frequency'].sum()`). */
  function Total<K(==)>(t: Table<K>): nat
  {
    if t == [] then 0 else Total(t[..|t| - 1]) + t[|t| - 1].1
  }

  /** `t` is the frequency table of `s`: one row per distinct value of `s`,
      no other rows, and every row holds the number of occurrences. */
  ghost predicate IsTableOf<K>(t: Table<K>, s: seq<K>)
  {
    && DistinctKeys(t)
    && Keys(t) == Elements(s)
    && (forall e :: e in t ==> e.1 == Count(s, e.0))
  }

  /** Adds one occurrence of `x`: increments its row or appends a new one. */
  function Bump<K(==)>(t: Table<K>, x: K): Table<K>
  {
    if t == [] then [(x, 1)]
    else if t[0].0 == x then [(x, t[0].1 + 1)] + t[1..]
    else [t[0]] + Bump(t[1..], x)
  }

  /** Counts in order of first appearance. */
  function Tally<K(==)>(s: seq<K>): Table<K>
  {
    if s == [] then [] else Bump(Tally(s[..|s| - 1]), s[|s| - 1])
  }

  predicate ByCountDesc<K>(a: (K, nat), b: (K, nat))
  {
    a.1 >= b.1
  }

  lemma ByCountDescIsPreorder<K(!new)>()
    ensures TotalPreorder(ByCountDesc<K>)
  {
  }

  /** pandas' `value_counts(s)`: the frequency table of `s`, largest count
      first. Its counts add up to the length of `s`, every count is positive
      (values that do not occur get no row) and there are as many rows as
      distinct values. */
  function ValueCounts<K(==,!new)>(s: seq<K>): (t: Table<K>)
    ensures IsTableOf(t, s)
    ensures SortedBy(t, ByCountDesc)
    ensures Total(t) == |s|
    ensures |t| == |Elements(s)|
    ensures forall e :: e in t ==> e.1 > 0
  {
    ValueCountsProperties(s);
    Sort(Tally(s), ByCountDesc)
  }

  /** `table.sort_values('Frequency', ascending=False)[:k]`: `min(k, |t|)`
      rows of `t`, and none of the rows left out has a larger count than a
      row kept. */
  function TopK<K(==,!new)>(t: Table<K>, k: nat): (r: Table<K>)
    ensures |r| == Min(k, |t|)
    ensures multiset(r) <= multiset(t)
    ensures SortedBy(r, ByCountDesc)
    ensures forall e, f :: e in r && f in multiset(t) - multiset(r) ==> e.1 >= f.1
  {
    TopKProperties(t, k);
    Sort(t, ByCountDesc)[..Min(k, |t|)]
  }

  /** The keys selected by `TopK` are keys of the table. */
  lemma TopKKeys<K(!new)>(t: Table<K>, k: nat)
    ensures Keys(TopK(t, k)) <= Keys(t)
  {
    var r := TopK(t, k);
    forall x | x in Keys(r) ensures x in Keys(t) {
      var e :| e in r && e.0 == x;
      assert e in multiset(r);
    }
  }

  /** The running sum of the count column, in table order (pandas'
      `table['Frequency'].cumsum()`). It never decreases, and its last entry
      is the table's total. */
  method CumulativeSums<K(==)>(t: Table<K>) returns (cum: seq<nat>)
    ensures |cum| == |t|
    ensures forall i :: 0 <= i < |t| ==> cum[i] == Total(t[..i + 1])
    ensures forall i, j :: 0 <= i <= j < |cum| ==> cum[i] <= cum[j]
    ensures |t| > 0 ==> cum[|t| - 1] == Total(t)
  {
    cum := [];
    var acc: nat := 0;
    var i := 0;
    while i < |t|
      invariant 0 <= i <= |t|
      invariant |cum| == i
      invariant acc == Total(t[..i])
      invariant forall j :: 0 <= j < i ==> cum[j] == Total(t[..j + 1])
      invariant forall j, l :: 0 <= j <= l < i ==> cum[j] <= cum[l]
      invariant i > 0 ==> cum[i - 1] == acc
    {
      assert t[..i + 1][..i] == t[..i];
      acc := acc + t[i].1;
      cum := cum + [acc];
      i := i + 1;
    }
    assert t[..|t|] == t;
  }

  // ----- proofs about Bump, Tally and Sort -----

  lemma ValueCountsProperties<K(!new)>(s: seq<K>)
    ensures var t := Sort(Tally(s), ByCountDesc);
      && IsTableOf(t, s) && SortedBy(t, ByCountDesc) && Total(t) == |s|
      && |t| == |Elements(s)| && (forall e :: e in t ==> e.1 > 0)
  {
    TallyIsTable(s);
    ByCountDescIsPreorder<K>();
    var t := Sort(Tally(s), ByCountDesc);
    SortKeepsTable(Tally(s), s, ByCountDesc);
    SortSorted(Tally(s), ByCountDesc);
    DistinctKeysCardinality(t);
    forall e | e in t ensures e.1 > 0 {
      assert e.0 in Keys(t);
    }
  }

  lemma TopKProperties<K(!new)>(t: Table<K>, k: nat)
    ensures var st := Sort(t, ByCountDesc); var r := st[..Min(k, |t|)];
      && |r| == Min(k, |t|) && multiset(r) <= multiset(t) && SortedBy(r, ByCountDesc)
      && (forall e, f :: e in r && f in multiset(t) - multiset(r) ==> e.1 >= f.1)
  {
    ByCountDescIsPreorder<K>();
    var st := Sort(t, ByCountDesc);
    SortSorted(t, ByCountDesc);
    var m := Min(k, |st|);
    SplitMultiset(st, m);
    PrefixDominates(st, m);
  }

  lemma SplitMultiset<T>(s: seq<T>, m: nat)
    requires m <= |s|
    ensures multiset(s) - multiset(s[..m]) == multiset(s[m..])
  {
    assert s == s[..m] + s[m..];
  }

  /** In a table sorted by count, a row in front weighs at least as much as any row after it. */
  lemma PrefixDominates<K>(st: Table<K>, m: nat)
    requires m <= |st| && SortedBy(st, ByCountDesc)
    ensures forall e, f :: e in st[..m] && f in multiset(st[m..]) ==> e.1 >= f.1
  {
    forall e: (K, nat), f: (K, nat) | e in st[..m] && f in multiset(st[m..]) ensures e.1 >= f.1 {
      var i :| 0 <= i < m && st[..m][i] == e;
      var j :| 0 <= j < |st[m..]| && st[m..][j] == f;
      assert ByCountDesc(st[i], st[m + j]);
    }
  }

  lemma KeyAt<K>(t: Table<K>, j: nat)
    requires j < |t|
    ensures t[j].0 in Keys(t)
  {
    assert t[j] in t;
  }

  lemma {:induction false} KeysOfSuffix<K>(t: Table<K>)
    requires t != []
    ensures Keys(t) == {t[0].0} + Keys(t[1..])
  {
    assert t == [t[0]] + t[1..];
    forall x | x in Keys(t) ensures x in {t[0].0} + Keys(t[1..]) {
      var e :| e in t && e.0 == x;
      if e != t[0] {
        assert e in t[1..];
      }
    }
  }

  lemma KeysOfPermutation<K>(a: Table<K>, b: Table<K>)
    requires multiset(a) == multiset(b)
    ensures Keys(a) == Keys(b)
  {
    forall e ensures e in a <==> e in b {
      assert e in a <==> e in multiset(a);
      assert e in b <==> e in multiset(b);
    }
  }

  lemma KeysOfAppend<K>(t: Table<K>, e: (K, nat))
    ensures Keys(t + [e]) == Keys(t) + {e.0}
  {
    forall x | x in Keys(t + [e]) ensures x in Keys(t) + {e.0} {
      var f :| f in t + [e] && f.0 == x;
      if f != e {
        assert f in t;
      }
    }
    assert e in t + [e];
    forall x | x in Keys(t) ensures x in Keys(t + [e]) {
      var f :| f in t && f.0 == x;
      assert f in t + [e];
    }
  }

  /** Under distinct keys, the first row's key is not a key of the rest. */
  lemma DistinctSuffix<K>(t: Table<K>)
    requires t != [] && DistinctKeys(t)
    ensures DistinctKeys(t[1..]) && t[0].0 !in Keys(t[1..])
  {
    forall e | e in t[1..] ensures e.0 != t[0].0 {
      var j :| 0 <= j < |t[1..]| && t[1..][j] == e;
      assert t[1..][j] == t[j + 1];
    }
  }

  lemma ConsDistinct<K>(e: (K, nat), t: Table<K>)
    requires DistinctKeys(t) && e.0 !in Keys(t)
    ensures DistinctKeys([e] + t)
  {
    var r := [e] + t;
    forall i, j | 0 <= i < j < |r| ensures r[i].0 != r[j].0 {
      assert r[j] == t[j - 1];
      KeyAt(t, j - 1);
      if i > 0 {
        assert r[i] == t[i - 1];
      }
    }
  }

  lemma SnocDistinct<K>(t: Table<K>, e: (K, nat))
    requires DistinctKeys(t) && e.0 !in Keys(t)
    ensures DistinctKeys(t + [e])
  {
    var r := t + [e];
    forall i, j | 0 <= i < j < |r| ensures r[i].0 != r[j].0 {
      assert r[i] == t[i];
      KeyAt(t, i);
      if j < |t| {
        assert r[j] == t[j];
      }
    }
  }

  lemma {:induction false} TotalCons<K>(e: (K, nat), t: Table<K>)
    ensures Total([e] + t) == e.1 + Total(t)
  {
    if t != [] {
      var u := [e] + t;
      assert u[..|u| - 1] == [e] + t[..|t| - 1];
      TotalCons(e, t[..|t| - 1]);
    }
  }

  lemma {:induction false} TotalUpdate<K>(t: Table<K>, j: nat, e: (K, nat))
    requires j < |t|
    ensures Total(t[j := e]) + t[j].1 == Total(t) + e.1
  {
    var n := |t| - 1;
    if j < n {
      assert t[j := e][..n] == t[..n][j := e];
      TotalUpdate(t[..n], j, e);
    } else {
      assert t[j := e][..n] == t[..n];
    }
  }

  /** Where the new occurrence goes: a new last row, or the value's own row. */
  lemma {:induction false} BumpEffect<K>(t: Table<K>, x: K)
    requires DistinctKeys(t)
    ensures x !in Keys(t) ==> Bump(t, x) == t + [(x, 1)]
    ensures forall j :: 0 <= j < |t| && t[j].0 == x ==> Bump(t, x) == t[j := (x, t[j].1 + 1)]
  {
    if t != [] {
      KeysOfSuffix(t);
      if t[0].0 != x {
        DistinctSuffix(t);
        BumpEffect(t[1..], x);
        if x !in Keys(t) {
          assert [t[0]] + (t[1..] + [(x, 1)]) == t + [(x, 1)];
        }
        forall j | 0 <= j < |t| && t[j].0 == x ensures Bump(t, x) == t[j := (x, t[j].1 + 1)] {
          assert t[1..][j - 1] == t[j];
          assert [t[0]] + t[1..][j - 1 := (x, t[j].1 + 1)] == t[j := (x, t[j].1 + 1)];
        }
      } else {
        assert [(x, t[0].1 + 1)] + t[1..] == t[0 := (x, t[0].1 + 1)];
        forall j | 0 < j < |t| ensures t[j].0 != x {
        }
      }
    }
  }

  /** A value seen for the first time gets a new last row with count one. */
  lemma BumpNew<K>(t: Table<K>, init: seq<K>, x: K)
    requires IsTableOf(t, init) && x !in Keys(t)
    ensures IsTableOf(t + [(x, 1)], init + [x])
  {
    var r, s := t + [(x, 1)], init + [x];
    SnocDistinct(t, (x, 1));
    KeysOfAppend(t, (x, 1));
    assert Elements(s) == Elements(init) + {x};
    forall e | e in r ensures e.1 == Count(s, e.0) {
      if e != (x, 1) {
        assert e in t;
        assert e.0 in Keys(t);
      }
    }
  }

  /** A value seen before has its own row incremented. */
  lemma BumpSeen<K>(t: Table<K>, init: seq<K>, x: K, j: nat)
    requires IsTableOf(t, init) && j < |t| && t[j].0 == x
    ensures IsTableOf(t[j := (x, t[j].1 + 1)], init + [x])
  {
    var r, s := t[j := (x, t[j].1 + 1)], init + [x];
    KeyAt(t, j);
    assert Elements(s) == Elements(init);
    forall y | y in Keys(r) ensures y in Keys(t) {
      var e :| e in r && e.0 == y;
      var i :| 0 <= i < |r| && r[i] == e;
      KeyAt(t, i);
    }
    forall y | y in Keys(t) ensures y in Keys(r) {
      var e :| e in t && e.0 == y;
      var i :| 0 <= i < |t| && t[i] == e;
      KeyAt(r, i);
    }
    forall e | e in r ensures e.1 == Count(s, e.0) {
      var i :| 0 <= i < |r| && r[i] == e;
      if i != j {
        assert t[i] in t;
      }
    }
  }

  lemma {:induction false} TallyIsTable<K>(s: seq<K>)
    ensures IsTableOf(Tally(s), s)
    ensures Total(Tally(s)) == |s|
  {
    if s == [] {
      assert Keys(Tally(s)) == {};
    } else {
      var init, x := s[..|s| - 1], s[|s| - 1];
      assert s == init + [x];
      TallyIsTable(init);
      var t := Tally(init);
      BumpEffect(t, x);
      if x !in Keys(t) {
        BumpNew(t, init, x);
        assert (t + [(x, 1)])[..|t|] == t;
      } else {
        var e :| e in t && e.0 == x;
        var j :| 0 <= j < |t| && t[j] == e;
        BumpSeen(t, init, x, j);
        TotalUpdate(t, j, (x, t[j].1 + 1));
      }
    }
  }

  lemma InsertKeys<K>(x: (K, nat), t: Table<K>, before: ((K, nat), (K, nat)) -> bool)
    ensures Keys(Insert(x, t, before)) == {x.0} + Keys(t)
  {
    var r := Insert(x, t, before);
    assert multiset(r) == multiset([x] + t);
    KeysOfPermutation(r, [x] + t);
    KeysOfSuffix([x] + t);
    assert ([x] + t)[1..] == t;
  }

  /** Inserting a row with a new key keeps keys distinct and adds its count. */
  lemma {:induction false} InsertKeepsKeys<K>(x: (K, nat), t: Table<K>, before: ((K, nat), (K, nat)) -> bool)
    requires DistinctKeys(t) && x.0 !in Keys(t)
    ensures DistinctKeys(Insert(x, t, before))
    ensures Total(Insert(x, t, before)) == Total(t) + x.1
  {
    if t == [] || before(x, t[0]) {
      TotalCons(x, t);
      ConsDistinct(x, t);
    } else {
      KeysOfSuffix(t);
      DistinctSuffix(t);
      InsertKeepsKeys(x, t[1..], before);
      var tail := Insert(x, t[1..], before);
      InsertKeys(x, t[1..], before);
      ConsDistinct(t[0], tail);
      TotalCons(t[0], tail);
      TotalCons(t[0], t[1..]);
      assert t == [t[0]] + t[1..];
    }
  }

  lemma {:induction false} SortKeepsKeys<K>(t: Table<K>, before: ((K, nat), (K, nat)) -> bool)
    requires DistinctKeys(t)
    ensures DistinctKeys(Sort(t, before))
    ensures Total(Sort(t, before)) == Total(t)
  {
    if t != [] {
      DistinctSuffix(t);
      var rest := Sort(t[1..], before);
      SortKeepsKeys(t[1..], before);
      KeysOfPermutation(rest, t[1..]);
      InsertKeepsKeys(t[0], rest, before);
      TotalCons(t[0], t[1..]);
      assert t == [t[0]] + t[1..];
    }
  }

  /** Reordering a frequency table leaves it a frequency table of the same data. */
  lemma SortKeepsTable<K>(t: Table<K>, s: seq<K>, before: ((K, nat), (K, nat)) -> bool)
    requires IsTableOf(t, s)
    ensures IsTableOf(Sort(t, before), s)
    ensures Total(Sort(t, before)) == Total(t)
  {
    SortKeepsKeys(t, before);
    var r := Sort(t, before);
    KeysOfPermutation(r, t);
    forall e | e in r ensures e.1 == Count(s, e.0) {
      assert e in multiset(r);
      assert e in t;
    }
  }

  /** A table with distinct keys has one row per key. */
  lemma {:induction false} DistinctKeysCardinality<K>(t: Table<K>)
    requires DistinctKeys(t)
    ensures |Keys(t)| == |t|
  {
    if t == [] {
      assert Keys(t) == {};
    } else {
      KeysOfSuffix(t);
      DistinctSuffix(t);
      DistinctKeysCardinality(t[1..]);
    }
  }
}
