/**
 * The dashboard: the posts a viewer may see within the chosen dates, newest
 * first, and the chart of how many of them fall on each calendar day.
 */
module Dashboard {
  import opened Options
  import opened Seqs
  import opened Shift
  import opened Records
  import opened DayRange

  /** In range, and either privileged or the viewer's own post. */
  predicate Keep(viewer: Viewer, range: Range, p: Post) {
    Within(range, p.at) && (IsPrivileged(viewer) || OwnedBy(p, viewer.referenceID))
  }

  function FilteredAccounts(viewer: Viewer, range: Range, posts: seq<Post>): (r: seq<Post>)
    ensures multiset(r) == multiset(Filter(posts, p => Keep(viewer, range, p)))
    ensures forall i, j :: 0 <= i < j < |r| ==> SortKey(r[i]) >= SortKey(r[j])
  {
    NewestFirst(Filter(posts, p => Keep(viewer, range, p)))
  }

  /** Without dates, a privileged viewer sees every post and anyone else exactly their own. */
  lemma NoRangeVisibility(viewer: Viewer, posts: seq<Post>)
    ensures forall p :: p in FilteredAccounts(viewer, NoRange, posts) <==>
      p in posts && (IsPrivileged(viewer) || OwnedBy(p, viewer.referenceID))
  {
    var r := FilteredAccounts(viewer, NoRange, posts);
    var f := Filter(posts, p => Keep(viewer, NoRange, p));
    forall p ensures p in r <==> p in f {
      assert p in r <==> p in multiset(r);
      assert p in f <==> p in multiset(f);
    }
  }

  /** The chart's key: the calendar day of the post. */
  function DayKey(p: Post): int {
    DayOf(SortKey(p))
  }

  function Day(e: (int, nat)): int {
    e.0
  }

  /** The dated posts on day `k`. */
  function OnDay(posts: seq<Post>, k: int): seq<Post> {
    WithKey(Filter(posts, Dated), DayKey, k)
  }

  /** The per-day counts in order of first appearance, before sorting. */
  function DayCounts(posts: seq<Post>): seq<(int, nat)> {
    Counts(GroupBy(Filter(posts, Dated), DayKey))
  }

  /** `Object.entries` of the count record: each group's key with its size. */
  function Counts(gs: seq<(int, seq<Post>)>): (c: seq<(int, nat)>)
    ensures |c| == |gs|
    ensures forall i :: 0 <= i < |gs| ==> c[i] == (gs[i].0, |gs[i].1|)
  {
    seq(|gs|, i requires 0 <= i < |gs| => (gs[i].0, |gs[i].1|))
  }

  function Count(e: (int, nat)): nat {
    e.1
  }

  /** The counts add up to the number of grouped posts. */
  lemma {:induction false} CountsSum(gs: seq<(int, seq<Post>)>)
    ensures SumOf(Counts(gs), Count) == SumSizes(gs)
  {
    if |gs| > 0 {
      var e: (int, nat) := (gs[0].0, |gs[0].1|);
      assert Counts(gs) == [e] + Counts(gs[1..]);
      SumOfAppend([e], Counts(gs[1..]), Count);
      assert SumOf([e], Count) == |gs[0].1| by {
        assert [e][..0] == [];
      }
      CountsSum(gs[1..]);
    }
  }

  /** Every entry counts the dated posts of its day, and no entry is empty. */
  predicate CountsDays(posts: seq<Post>, c: seq<(int, nat)>) {
    forall i :: 0 <= i < |c| ==> c[i].1 == |OnDay(posts, c[i].0)| && c[i].1 > 0
  }

  /** Every dated post's day has an entry. */
  predicate CoversDated(posts: seq<Post>, c: seq<(int, nat)>) {
    forall p :: p in posts && Dated(p) ==> exists i :: 0 <= i < |c| && c[i].0 == DayOf(p.at.value)
  }

  /** One entry per day with a dated post, holding that day's number of posts. */
  lemma DayCountsMeaning(posts: seq<Post>)
    ensures var c := DayCounts(posts);
      && (forall i, j :: 0 <= i < j < |c| ==> c[i].0 != c[j].0)
      && CountsDays(posts, c)
      && CoversDated(posts, c)
  {
    var dated := Filter(posts, Dated);
    var gs := GroupBy(dated, DayKey);
    GroupByFacts(dated, DayKey);
    DayCountsCount(posts, gs);
    DayCountsCover(posts, gs);
  }

  lemma DayCountsCount(posts: seq<Post>, gs: seq<(int, seq<Post>)>)
    requires forall i, j :: 0 <= i < j < |gs| ==> gs[i].0 != gs[j].0
    requires forall i :: 0 <= i < |gs| ==> gs[i].1 == WithKey(Filter(posts, Dated), DayKey, gs[i].0) && |gs[i].1| > 0
    ensures (forall i, j :: 0 <= i < j < |Counts(gs)| ==> Counts(gs)[i].0 != Counts(gs)[j].0)
    ensures CountsDays(posts, Counts(gs))
  {
  }

  lemma DayCountsCover(posts: seq<Post>, gs: seq<(int, seq<Post>)>)
    requires forall x :: x in Filter(posts, Dated) ==> exists i :: 0 <= i < |gs| && gs[i].0 == DayKey(x)
    ensures CoversDated(posts, Counts(gs))
  {
    var c := Counts(gs);
    forall p | p in posts && Dated(p) ensures exists i :: 0 <= i < |c| && c[i].0 == DayOf(p.at.value) {
      assert p in Filter(posts, Dated) && DayKey(p) == DayOf(p.at.value);
      var i :| 0 <= i < |gs| && gs[i].0 == DayKey(p);
      assert c[i].0 == DayOf(p.at.value);
    }
  }

  /** Sorting entries whose days are distinct orders them strictly and keeps every entry. */
  lemma SortedEntries(c: seq<(int, nat)>, r: seq<(int, nat)>)
    requires multiset(r) == multiset(c)
    requires forall i, j :: 0 <= i < j < |c| ==> c[i].0 != c[j].0
    requires SortedBy(r, Day)
    ensures forall e :: e in r <==> e in c
    ensures forall i, j :: 0 <= i < j < |r| ==> r[i].0 < r[j].0
  {
    forall e ensures e in r <==> e in c {
      assert e in r <==> e in multiset(r);
      assert e in c <==> e in multiset(c);
    }
    PermutationNoDuplicates(r, c);
    forall i, j | 0 <= i < j < |r| ensures r[i].0 < r[j].0 {
      assert r[i] in c && r[j] in c;
      var a :| 0 <= a < |c| && c[a] == r[i];
      var b :| 0 <= b < |c| && c[b] == r[j];
    }
  }

  /** `chartData`: the per-day counts, ordered by day. */
  function ChartData(posts: seq<Post>): seq<(int, nat)> {
    SortBy(DayCounts(posts), Day)
  }

  /**
   * The chart has one entry per day that has a dated post, counting that
   * day's posts, in strictly ascending day order.
   */
  lemma ChartDataMeaning(posts: seq<Post>)
    ensures var r := ChartData(posts);
      && (forall i, j :: 0 <= i < j < |r| ==> r[i].0 < r[j].0)
      && CountsDays(posts, r)
      && CoversDated(posts, r)
  {
    var c := DayCounts(posts);
    DayCountsMeaning(posts);
    var r := SortBy(c, Day);
    SortBySorted(c, Day);
    SortedEntries(c, r);
    ReorderedCounts(posts, c, r);
  }

  /** Both properties hold of any reordering that keeps the same entries. */
  lemma ReorderedCounts(posts: seq<Post>, c: seq<(int, nat)>, r: seq<(int, nat)>)
    requires forall e :: e in r <==> e in c
    requires CountsDays(posts, c) && CoversDated(posts, c)
    ensures CountsDays(posts, r) && CoversDated(posts, r)
  {
    forall i | 0 <= i < |r| ensures r[i].1 == |OnDay(posts, r[i].0)| && r[i].1 > 0 {
      assert r[i] in c;
      var a :| 0 <= a < |c| && c[a] == r[i];
    }
    forall p | p in posts && Dated(p) ensures exists i :: 0 <= i < |r| && r[i].0 == DayOf(p.at.value) {
      var k :| 0 <= k < |c| && c[k].0 == DayOf(p.at.value);
      assert c[k] in r;
    }
  }

  /** The chart's counts add up to the number of dated posts shown. */
  lemma ChartDataTotal(posts: seq<Post>)
    ensures SumOf(ChartData(posts), Count) == |Filter(posts, Dated)|
  {
    var gs := GroupBy(Filter(posts, Dated), DayKey);
    GroupByIsPartition(Filter(posts, Dated), DayKey);
    CountsSum(gs);
    SumOfPermutation(DayCounts(posts), ChartData(posts), Count);
  }
}
