/**
 * Generic list operations the pages are built from: `Array.prototype.filter`,
 * grouping into an object keyed by a field (`acc[key] ??= []; acc[key].push(x)`),
 * `new Set(...)` in first-seen order, a sort by a numeric key, and sums.
 */
module Seqs {

  // ---------------------------------------------------------------- filter

  /** `s.filter(f)`: the elements satisfying `f`, in their original order. */
  function Filter<T(!new)>(s: seq<T>, f: T -> bool): (r: seq<T>)
    ensures |r| <= |s|
    ensures forall x {:trigger x in r} :: x in r <==> x in s && f(x)
  {
    if |s| == 0 then []
    else Filter(s[..|s| - 1], f) + (if f(s[|s| - 1]) then [s[|s| - 1]] else [])
  }

  /** Filtering distributes over concatenation, so it keeps relative order. */
  lemma {:induction false} FilterAppend<T(!new)>(a: seq<T>, b: seq<T>, f: T -> bool)
    ensures Filter(a + b, f) == Filter(a, f) + Filter(b, f)
    decreases |b|
  {
    if |b| == 0 {
      assert a + b == a;
    } else {
      var ab := a + b;
      var b' := b[..|b| - 1];
      var last := if f(b[|b| - 1]) then [b[|b| - 1]] else [];
      assert ab[..|ab| - 1] == a + b';
      assert ab[|ab| - 1] == b[|b| - 1];
      calc {
        Filter(ab, f);
        Filter(a + b', f) + last;
        { FilterAppend(a, b', f); }
        Filter(a, f) + Filter(b', f) + last;
        Filter(a, f) + (Filter(b', f) + last);
        Filter(a, f) + Filter(b, f);
      }
    }
  }

  /** Filtering never adds an element, nor another copy of one. */
  lemma {:induction false} FilterSubMultiset<T(!new)>(s: seq<T>, f: T -> bool)
    ensures multiset(Filter(s, f)) <= multiset(s)
    decreases |s|
  {
    if |s| > 0 {
      var p := s[..|s| - 1];
      FilterSubMultiset(p, f);
      assert s == p + [s[|s| - 1]];
    }
  }

  /** Filtering keeps everything when everything passes. */
  lemma {:induction false} FilterAllPass<T(!new)>(s: seq<T>, f: T -> bool)
    requires forall i :: 0 <= i < |s| ==> f(s[i])
    ensures Filter(s, f) == s
  {
    if |s| > 0 {
      FilterAllPass(s[..|s| - 1], f);
      assert s[..|s| - 1] + [s[|s| - 1]] == s;
    }
  }

  /** Two tests that agree on every element filter alike. */
  lemma {:induction false} FilterCongruent<T(!new)>(s: seq<T>, f: T -> bool, g: T -> bool)
    requires forall i :: 0 <= i < |s| ==> f(s[i]) == g(s[i])
    ensures Filter(s, f) == Filter(s, g)
  {
    if |s| > 0 {
      FilterCongruent(s[..|s| - 1], f, g);
    }
  }

  // ---------------------------------------------------------------- sums

  /** Sum of `f` over the elements of `s`. */
  function SumOf<T(!new)>(s: seq<T>, f: T -> nat): nat {
    if |s| == 0 then 0 else SumOf(s[..|s| - 1], f) + f(s[|s| - 1])
  }

  /** Extending a prefix by one element adds that element's summand. */
  lemma SumOfStep<T(!new)>(s: seq<T>, i: nat, f: T -> nat)
    requires i < |s|
    ensures SumOf(s[..i + 1], f) == SumOf(s[..i], f) + f(s[i])
  {
    assert s[..i + 1][..i] == s[..i];
  }

  /** A pointwise smaller summand gives a smaller sum. */
  lemma {:induction false} SumOfMonotone<T(!new)>(s: seq<T>, f: T -> nat, g: T -> nat)
    requires forall i :: 0 <= i < |s| ==> f(s[i]) <= g(s[i])
    ensures SumOf(s, f) <= SumOf(s, g)
  {
    if |s| > 0 {
      SumOfMonotone(s[..|s| - 1], f, g);
    }
  }

  /** The sum over two pieces is the sum of the sums. */
  lemma {:induction false} SumOfAppend<T(!new)>(a: seq<T>, b: seq<T>, f: T -> nat)
    ensures SumOf(a + b, f) == SumOf(a, f) + SumOf(b, f)
  {
    if |b| > 0 {
      var b' := b[..|b| - 1];
      assert (a + b)[..|a + b| - 1] == a + b';
      SumOfAppend(a, b', f);
    } else {
      assert a + b == a;
    }
  }

  /** Reordering the elements does not change the sum. */
  lemma {:induction false} SumOfPermutation<T(!new)>(a: seq<T>, b: seq<T>, f: T -> nat)
    requires multiset(a) == multiset(b)
    ensures SumOf(a, f) == SumOf(b, f)
  {
    if |a| == 0 {
      assert |multiset(b)| == 0;
    } else {
      var x := a[|a| - 1];
      var a' := a[..|a| - 1];
      assert a' + [x] == a;
      assert x in multiset(b);
      var k :| 0 <= k < |b| && b[k] == x;
      var b' := b[..k] + b[k + 1..];
      assert b == b[..k] + [x] + b[k + 1..];
      RemoveOne(a', x, b, k);
      SumOfPermutation(a', b', f);
      SumOfAppend(b[..k] + [x], b[k + 1..], f);
      SumOfAppend(b[..k], [x], f);
      SumOfAppend(b[..k], b[k + 1..], f);
      assert SumOf([x], f) == f(x) by {
        assert [x][..0] == [];
      }
    }
  }

  /** Taking the same element out of two permutations leaves permutations. */
  lemma RemoveOne<T>(a': seq<T>, x: T, b: seq<T>, k: nat)
    requires k < |b| && b[k] == x && multiset(a' + [x]) == multiset(b)
    ensures multiset(b[..k] + b[k + 1..]) == multiset(a')
  {
    assert b == b[..k] + [x] + b[k + 1..];
    assert multiset(b) == multiset(b[..k]) + multiset{x} + multiset(b[k + 1..]);
    assert multiset(a' + [x]) == multiset(a') + multiset{x};
    assert multiset(b[..k] + b[k + 1..]) == multiset(b) - multiset{x};
  }

  // ---------------------------------------------------------------- distinct

  /** `Array.from(new Set(s))`: each value once, in order of first appearance. */
  function Distinct<T(==,!new)>(s: seq<T>): (r: seq<T>)
    ensures NoDuplicates(r)
    ensures forall x {:trigger x in r} :: x in r <==> x in s
    ensures forall i :: 0 <= i < |r| ==> r[i] in s
    ensures |r| <= |s|
  {
    if |s| == 0 then []
    else
      var d := Distinct(s[..|s| - 1]);
      if s[|s| - 1] in d then d else d + [s[|s| - 1]]
  }

  predicate NoDuplicates<T(==)>(s: seq<T>) {
    forall i, j :: 0 <= i < j < |s| ==> s[i] != s[j]
  }

  /** Adding one element at the end never moves an earlier first appearance. */
  lemma DistinctExtends<T(!new)>(s: seq<T>, x: T)
    ensures Distinct(s + [x]) == (if x in Distinct(s) then Distinct(s) else Distinct(s) + [x])
  {
    assert (s + [x])[..|s|] == s;
  }

  /** The position of the first occurrence of `x` in `s`. */
  function FirstIndex<T(==)>(s: seq<T>, x: T): (i: nat)
    requires x in s
    ensures i < |s| && s[i] == x
    ensures forall j :: 0 <= j < i ==> s[j] != x
  {
    if s[0] == x then 0
    else
      assert x in s[1..] by {
        var k :| 0 <= k < |s| && s[k] == x;
        assert s[1..][k - 1] == x;
      }
      1 + FirstIndex(s[1..], x)
  }

  /** Appending an element leaves the first occurrence of an earlier one where it was. */
  lemma FirstIndexSnoc<T>(s: seq<T>, x: T, y: T)
    requires x in s
    ensures FirstIndex(s + [y], x) == FirstIndex(s, x)
  {
    var i := FirstIndex(s, x);
    var k := FirstIndex(s + [y], x);
    assert (s + [y])[i] == x;
  }

  /** A new element first occurs where it is appended. */
  lemma FirstIndexLast<T>(s: seq<T>, x: T)
    requires x !in s
    ensures FirstIndex(s + [x], x) == |s|
  {
    assert (s + [x])[|s|] == x;
  }

  /** `Distinct` lists the elements in the order of their first occurrence. */
  lemma {:induction false} DistinctOrder<T(!new)>(s: seq<T>)
    ensures forall i, j :: 0 <= i < j < |Distinct(s)| ==>
      FirstIndex(s, Distinct(s)[i]) < FirstIndex(s, Distinct(s)[j])
    decreases |s|
  {
    if |s| > 0 {
      var p := s[..|s| - 1];
      var x := s[|s| - 1];
      var d := Distinct(p);
      var r := Distinct(s);
      DistinctOrder(p);
      assert s == p + [x];
      forall i, j | 0 <= i < j < |r| ensures FirstIndex(s, r[i]) < FirstIndex(s, r[j]) {
        assert d[i] in d;
        FirstIndexSnoc(p, d[i], x);
        if j < |d| {
          assert d[j] in d;
          FirstIndexSnoc(p, d[j], x);
        } else {
          FirstIndexLast(p, x);
        }
      }
    }
  }

  // ---------------------------------------------------------------- grouping

  /** The group list's keys, in order. */
  function Keys<K, T>(gs: seq<(K, seq<T>)>): (ks: seq<K>)
    ensures |ks| == |gs|
    ensures forall i :: 0 <= i < |gs| ==> ks[i] == gs[i].0
  {
    if |gs| == 0 then [] else [gs[0].0] + Keys(gs[1..])
  }

  /** `s.filter(x => key(x) === k)`. */
  function WithKey<T(!new), K(==)>(s: seq<T>, key: T -> K, k: K): (r: seq<T>)
    ensures |r| <= |s|
    ensures forall x {:trigger x in r} :: x in r <==> x in s && key(x) == k
  {
    if |s| == 0 then []
    else WithKey(s[..|s| - 1], key, k) + (if key(s[|s| - 1]) == k then [s[|s| - 1]] else [])
  }

  /** Appends `x` to the group of `k`, opening a new group at the end if there is none. */
  function AddToGroup<K(==), T>(gs: seq<(K, seq<T>)>, k: K, x: T): (r: seq<(K, seq<T>)>)
    ensures Keys(r) == if k in Keys(gs) then Keys(gs) else Keys(gs) + [k]
  {
    if |gs| == 0 then [(k, [x])]
    else if gs[0].0 == k then [(k, gs[0].1 + [x])] + gs[1..]
    else
      var r := [gs[0]] + AddToGroup(gs[1..], k, x);
      assert r[1..] == AddToGroup(gs[1..], k, x);
      r
  }

  /**
   * Grouping by a key, as `forEach(x => { if (!acc[key(x)]) acc[key(x)] = []; acc[key(x)].push(x) })`
   * does it: one group per distinct key, groups in order of first appearance.
   */
  function GroupBy<T(!new), K(==,!new)>(s: seq<T>, key: T -> K): seq<(K, seq<T>)> {
    if |s| == 0 then []
    else AddToGroup(GroupBy(s[..|s| - 1], key), key(s[|s| - 1]), s[|s| - 1])
  }

  /** The values of `key` over `s`, in order. */
  function MapKey<T(!new), K(==,!new)>(s: seq<T>, key: T -> K): (r: seq<K>)
    ensures |r| == |s|
    ensures forall i :: 0 <= i < |s| ==> r[i] == key(s[i])
  {
    if |s| == 0 then [] else MapKey(s[..|s| - 1], key) + [key(s[|s| - 1])]
  }

  function SumSizes<K, T>(gs: seq<(K, seq<T>)>): nat {
    if |gs| == 0 then 0 else |gs[0].1| + SumSizes(gs[1..])
  }

  /** Each group holds exactly the elements of `s` with its key, in order. */
  ghost predicate GroupsMatch<T(!new), K(!new)>(gs: seq<(K, seq<T>)>, s: seq<T>, key: T -> K) {
    forall i :: 0 <= i < |gs| ==> gs[i].1 == WithKey(s, key, gs[i].0)
  }

  /** What is known of a group list built by GroupBy. */
  ghost predicate GroupsOf<T(!new), K(!new)>(gs: seq<(K, seq<T>)>, s: seq<T>, key: T -> K) {
    && Keys(gs) == Distinct(MapKey(s, key))
    && GroupsMatch(gs, s, key)
    && SumSizes(gs) == |s|
  }

  lemma WithKeySnoc<T(!new), K(!new)>(s: seq<T>, key: T -> K, x: T, k: K)
    ensures WithKey(s + [x], key, k) == WithKey(s, key, k) + (if key(x) == k then [x] else [])
  {
    assert (s + [x])[..|s|] == s;
  }

  lemma {:induction false} AddToGroupSpec<T(!new), K(!new)>(gs: seq<(K, seq<T>)>, s: seq<T>, key: T -> K, x: T)
    requires GroupsMatch(gs, s, key)
    requires NoDuplicates(Keys(gs))
    requires key(x) !in Keys(gs) ==> WithKey(s, key, key(x)) == []
    ensures GroupsMatch(AddToGroup(gs, key(x), x), s + [x], key)
    ensures SumSizes(AddToGroup(gs, key(x), x)) == SumSizes(gs) + 1
  {
    var k := key(x);
    if |gs| == 0 {
      WithKeySnoc(s, key, x, k);
    } else if gs[0].0 == k {
      AddToFirstGroup(gs, s, key, x);
    } else {
      var gs' := gs[1..];
      assert Keys(gs) == [gs[0].0] + Keys(gs');
      assert Keys(gs') == Keys(gs)[1..];
      assert GroupsMatch(gs', s, key) by {
        forall i | 0 <= i < |gs'| ensures gs'[i].1 == WithKey(s, key, gs'[i].0) {
          assert gs'[i] == gs[i + 1];
        }
      }
      AddToGroupSpec(gs', s, key, x);
      AddToLaterGroup(gs, s, key, x);
    }
  }

  lemma AddToFirstGroup<T(!new), K(!new)>(gs: seq<(K, seq<T>)>, s: seq<T>, key: T -> K, x: T)
    requires |gs| > 0 && gs[0].0 == key(x)
    requires GroupsMatch(gs, s, key)
    requires NoDuplicates(Keys(gs))
    ensures GroupsMatch(AddToGroup(gs, key(x), x), s + [x], key)
    ensures SumSizes(AddToGroup(gs, key(x), x)) == SumSizes(gs) + 1
  {
    var k := key(x);
    var r := AddToGroup(gs, k, x);
    var rest := gs[1..];
    assert r == [(k, gs[0].1 + [x])] + rest;
    assert r[1..] == rest;
    forall i | 0 <= i < |r| ensures r[i].1 == WithKey(s + [x], key, r[i].0) {
      WithKeySnoc(s, key, x, r[i].0);
      if i > 0 {
        assert Keys(gs)[0] == k && Keys(gs)[i] == gs[i].0;
        assert r[i] == gs[i];
      }
    }
  }

  lemma AddToLaterGroup<T(!new), K(!new)>(gs: seq<(K, seq<T>)>, s: seq<T>, key: T -> K, x: T)
    requires |gs| > 0 && gs[0].0 != key(x)
    requires gs[0].1 == WithKey(s, key, gs[0].0)
    requires GroupsMatch(AddToGroup(gs[1..], key(x), x), s + [x], key)
    requires SumSizes(AddToGroup(gs[1..], key(x), x)) == SumSizes(gs[1..]) + 1
    ensures GroupsMatch(AddToGroup(gs, key(x), x), s + [x], key)
    ensures SumSizes(AddToGroup(gs, key(x), x)) == SumSizes(gs) + 1
  {
    var k := key(x);
    var r' := AddToGroup(gs[1..], k, x);
    assert AddToGroup(gs, k, x) == [gs[0]] + r';
    WithKeySnoc(s, key, x, gs[0].0);
    GroupsMatchCons(gs[0], r', s + [x], key);
  }

  lemma GroupsMatchCons<T(!new), K(!new)>(g: (K, seq<T>), gs: seq<(K, seq<T>)>, s: seq<T>, key: T -> K)
    requires g.1 == WithKey(s, key, g.0) && GroupsMatch(gs, s, key)
    ensures GroupsMatch([g] + gs, s, key)
    ensures SumSizes([g] + gs) == |g.1| + SumSizes(gs)
  {
    var r := [g] + gs;
    assert r[1..] == gs;
    forall i | 0 <= i < |r| ensures r[i].1 == WithKey(s, key, r[i].0) {
      if i > 0 {
        assert r[i] == gs[i - 1];
      }
    }
  }

  /** No element has a key that never occurs among the keys. */
  lemma WithKeyAbsent<T(!new), K(!new)>(s: seq<T>, key: T -> K, k: K)
    requires k !in MapKey(s, key)
    ensures WithKey(s, key, k) == []
  {
  }

  /** GroupBy puts every element into exactly the group of its key, keeps order, and loses nothing. */
  lemma {:induction false} GroupByIsPartition<T(!new), K(!new)>(s: seq<T>, key: T -> K)
    ensures GroupsOf(GroupBy(s, key), s, key)
  {
    if |s| > 0 {
      var p := s[..|s| - 1];
      var x := s[|s| - 1];
      assert p + [x] == s;
      GroupByIsPartition(p, key);
      var gs := GroupBy(p, key);
      if key(x) !in Keys(gs) {
        WithKeyAbsent(p, key, key(x));
      }
      AddToGroupSpec(gs, p, key, x);
      assert MapKey(s, key) == MapKey(p, key) + [key(x)];
      DistinctExtends(MapKey(p, key), key(x));
    }
  }

  /** Each group is non-empty; `groups[k][0]` is always defined. */
  lemma GroupsNonEmpty<T(!new), K(!new)>(s: seq<T>, key: T -> K)
    ensures forall i :: 0 <= i < |GroupBy(s, key)| ==> |GroupBy(s, key)[i].1| > 0
  {
    GroupByIsPartition(s, key);
    var gs := GroupBy(s, key);
    forall i | 0 <= i < |gs| ensures |gs[i].1| > 0 {
      assert Keys(gs)[i] in Distinct(MapKey(s, key));
      var j :| 0 <= j < |s| && MapKey(s, key)[j] == gs[i].0;
      assert s[j] in WithKey(s, key, gs[i].0);
    }
  }

  /** GroupBy's groups as a reader uses them: one per key, each the non-empty run of that key, covering every element. */
  lemma GroupByFacts<T(!new), K(!new)>(s: seq<T>, key: T -> K)
    ensures var gs := GroupBy(s, key);
      && (forall i, j :: 0 <= i < j < |gs| ==> gs[i].0 != gs[j].0)
      && (forall i :: 0 <= i < |gs| ==> gs[i].1 == WithKey(s, key, gs[i].0) && |gs[i].1| > 0)
      && (forall x :: x in s ==> exists i :: 0 <= i < |gs| && gs[i].0 == key(x))
  {
    GroupByIsPartition(s, key);
    GroupsNonEmpty(s, key);
    GroupKeysDistinct(s, key);
    GroupsCover(s, key);
    var gs := GroupBy(s, key);
    forall x | x in s ensures exists i :: 0 <= i < |gs| && gs[i].0 == key(x) {
      var i :| 0 <= i < |gs| && Keys(gs)[i] == key(x);
      assert gs[i].0 == key(x);
    }
  }

  lemma GroupKeysDistinct<T(!new), K(!new)>(s: seq<T>, key: T -> K)
    ensures var gs := GroupBy(s, key);
      forall i, j :: 0 <= i < j < |gs| ==> gs[i].0 != gs[j].0
  {
    var gs := GroupBy(s, key);
    GroupByIsPartition(s, key);
    forall i, j | 0 <= i < j < |gs| ensures gs[i].0 != gs[j].0 {
      assert Keys(gs)[i] == gs[i].0 && Keys(gs)[j] == gs[j].0;
    }
  }

  lemma GroupsCover<T(!new), K(!new)>(s: seq<T>, key: T -> K)
    ensures forall x :: x in s ==> key(x) in Keys(GroupBy(s, key))
  {
    GroupByIsPartition(s, key);
    var ks := MapKey(s, key);
    forall x | x in s ensures key(x) in Keys(GroupBy(s, key)) {
      var j :| 0 <= j < |s| && s[j] == x;
      assert ks[j] == key(x);
      assert key(x) in ks;
      assert key(x) in Distinct(ks);
    }
  }

  // ---------------------------------------------------------------- sorting

  predicate SortedBy<T(!new)>(s: seq<T>, key: T -> int) {
    forall i, j :: 0 <= i < j < |s| ==> key(s[i]) <= key(s[j])
  }

  /** Inserts `x` in front of the trailing run of elements whose key exceeds `key(x)`. */
  function Insert<T(!new)>(s: seq<T>, x: T, key: T -> int): (r: seq<T>)
    ensures |r| == |s| + 1
    ensures multiset(r) == multiset(s) + multiset{x}
  {
    if |s| == 0 || key(s[|s| - 1]) <= key(x) then s + [x]
    else
      var r := Insert(s[..|s| - 1], x, key) + [s[|s| - 1]];
      assert s[..|s| - 1] + [s[|s| - 1]] == s;
      r
  }

  /** Inserting an element no larger than `b` into a list bounded by `b` keeps it bounded. */
  lemma {:induction false} InsertBounded<T(!new)>(s: seq<T>, x: T, key: T -> int, b: int)
    requires forall i :: 0 <= i < |s| ==> key(s[i]) <= b
    requires key(x) <= b
    ensures forall i :: 0 <= i < |s| + 1 ==> key(Insert(s, x, key)[i]) <= b
  {
    if |s| > 0 && key(s[|s| - 1]) > key(x) {
      InsertBounded(s[..|s| - 1], x, key, b);
    }
  }

  /** Insertion into a sorted list keeps it sorted. */
  lemma {:induction false} InsertSorted<T(!new)>(s: seq<T>, x: T, key: T -> int)
    requires SortedBy(s, key)
    ensures SortedBy(Insert(s, x, key), key)
  {
    if |s| > 0 && key(s[|s| - 1]) > key(x) {
      var p := s[..|s| - 1];
      var last := s[|s| - 1];
      InsertSorted(p, x, key);
      InsertBounded(p, x, key, key(last));
      var q := Insert(p, x, key);
      var r := q + [last];
      assert r == Insert(s, x, key);
      forall i, j | 0 <= i < j < |r| ensures key(r[i]) <= key(r[j]) {
        if j < |q| {
          assert r[i] == q[i] && r[j] == q[j];
        } else {
          assert r[i] == q[i] && r[j] == last;
        }
      }
    }
  }

  /**
   * An insertion sort by a numeric key, standing for `s.sort((a, b) => key(a) - key(b))`.
   */
  function SortBy<T(!new)>(s: seq<T>, key: T -> int): (r: seq<T>)
    ensures |r| == |s|
    ensures multiset(r) == multiset(s)
  {
    if |s| == 0 then []
    else
      var r := Insert(SortBy(s[..|s| - 1], key), s[|s| - 1], key);
      assert s[..|s| - 1] + [s[|s| - 1]] == s;
      r
  }

  /** SortBy orders by the key. */
  lemma {:induction false} SortBySorted<T(!new)>(s: seq<T>, key: T -> int)
    ensures SortedBy(SortBy(s, key), key)
  {
    if |s| > 0 {
      SortBySorted(s[..|s| - 1], key);
      InsertSorted(SortBy(s[..|s| - 1], key), s[|s| - 1], key);
    }
  }

  /** An element occurs at most once in a list without duplicates. */
  lemma {:induction false} NoDuplicatesCount<T>(s: seq<T>, x: T)
    requires NoDuplicates(s)
    ensures multiset(s)[x] <= 1
  {
    if |s| > 0 {
      var p := s[..|s| - 1];
      assert s == p + [s[|s| - 1]];
      NoDuplicatesCount(p, x);
      if s[|s| - 1] == x {
        assert x !in p;
      }
    }
  }

  /** A reordering of a list without duplicates has none either. */
  lemma PermutationNoDuplicates<T>(a: seq<T>, b: seq<T>)
    requires multiset(a) == multiset(b) && NoDuplicates(b)
    ensures NoDuplicates(a)
  {
    forall i, j | 0 <= i < j < |a| ensures a[i] != a[j] {
      if a[i] == a[j] {
        var x := a[i];
        assert a == a[..j] + [x] + a[j + 1..];
        assert x in a[..j];
        assert multiset(a)[x] == multiset(a[..j])[x] + 1 + multiset(a[j + 1..])[x];
        NoDuplicatesCount(b, x);
      }
    }
  }
}
