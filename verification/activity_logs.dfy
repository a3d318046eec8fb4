/**
 * The activity log list page: which posts a viewer may see, the search /
 * type / date filter, newest-first order, and paging.
 */
module ActivityLogs {
  import opened Text
  import opened Options
  import opened Seqs
  import opened Records
  import opened DayRange

  /** Privileged viewers see every post; anyone else sees the posts carrying their reference. */
  function Visible(viewer: Viewer, posts: seq<Post>): (r: seq<Post>)
    ensures IsPrivileged(viewer) ==> r == posts
    ensures forall p :: p in r <==> p in posts && (IsPrivileged(viewer) || OwnedBy(p, viewer.referenceID))
  {
    if IsPrivileged(viewer) then posts else Filter(posts, p => OwnedBy(p, viewer.referenceID))
  }

  /** The filter bar: free text, an activity type ("" for any) and a date range. */
  datatype Query = Query(search: string, activity: string, range: Range)

  /** The search matches the activity type or the status, ignoring letter case. */
  predicate MatchesSearch(search: string, p: Post) {
    Contains(Lower(p.activity), Lower(search)) || Contains(Lower(p.status), Lower(search))
  }

  predicate Matches(q: Query, p: Post) {
    MatchesSearch(q.search, p)
    && (q.activity == "" || p.activity == q.activity)
    && Within(q.range, p.at)
  }

  /** The list shown before paging: the visible posts that match, newest first. */
  function FilteredAccounts(viewer: Viewer, q: Query, posts: seq<Post>): (r: seq<Post>)
    ensures multiset(r) == multiset(Filter(Visible(viewer, posts), p => Matches(q, p)))
    ensures forall i, j :: 0 <= i < j < |r| ==> SortKey(r[i]) >= SortKey(r[j])
  {
    NewestFirst(Filter(Visible(viewer, posts), p => Matches(q, p)))
  }

  /** What the list holds: a post appears exactly when it is visible and matches (how often: see `FilteredAccounts`). */
  lemma FilteredAccountsMembers(viewer: Viewer, q: Query, posts: seq<Post>)
    ensures forall p :: p in FilteredAccounts(viewer, q, posts) <==>
      p in posts && (IsPrivileged(viewer) || OwnedBy(p, viewer.referenceID)) && Matches(q, p)
  {
    var r := FilteredAccounts(viewer, q, posts);
    var f := Filter(Visible(viewer, posts), p => Matches(q, p));
    forall p ensures p in r <==> p in f {
      assert p in r <==> p in multiset(r);
      assert p in f <==> p in multiset(f);
    }
  }

  /** An empty query keeps every visible post with a date or not. */
  lemma EmptyQueryKeepsAll(p: Post)
    ensures Matches(Query("", "", NoRange), p)
  {
    ContainsEmpty(Lower(p.activity));
  }

  /** A dated post passes the date part exactly when its day lies within the range. */
  lemma DateFilterByDay(q: Query, p: Post)
    requires p.at.Some?
    ensures Matches(q, p) <==>
      && MatchesSearch(q.search, p)
      && (q.activity == "" || p.activity == q.activity)
      && (q.range.startDay.None? || Shift.DayOf(p.at.value) >= q.range.startDay.value)
      && (q.range.endDay.None? || Shift.DayOf(p.at.value) <= q.range.endDay.value)
  {
    WithinByDay(q.range, p.at.value);
  }

  // ---------------------------------------------------------------- paging

  /** `Math.ceil(totalItems / itemsPerPage)`; the page size is one of the offered positive sizes. */
  function TotalPages(n: nat, size: nat): (t: nat)
    requires size > 0
    ensures t * size >= n
    ensures t > 0 ==> (t - 1) * size < n
    ensures t == 0 <==> n == 0
  {
    (n + size - 1) / size
  }

  /** `Array.prototype.slice` bound: negative counts from the end, then clamped to the length. */
  function SliceBound(i: int, n: nat): (b: nat)
    ensures b <= n
  {
    if i < 0 then (if n + i < 0 then 0 else n + i) else if i > n then n else i
  }

  /** `s.slice(from, to)`. */
  function Slice<T>(s: seq<T>, from: int, to: int): (r: seq<T>)
    ensures |r| <= |s|
  {
    var a := SliceBound(from, |s|);
    var b := SliceBound(to, |s|);
    if a < b then s[a..b] else []
  }

  /** The rows of one page: `slice((page - 1) * size, page * size)`. */
  function Page<T>(s: seq<T>, page: int, size: nat): seq<T> {
    Slice(s, (page - 1) * size, page * size)
  }

  lemma MulMonotone(x: nat, y: nat, k: nat)
    requires x <= y
    ensures x * k <= y * k
  {
  }

  /**
   * A page within 1..TotalPages holds the next `size` items (fewer on the last
   * page), in order.
   */
  lemma PageContents<T>(s: seq<T>, page: nat, size: nat)
    requires size > 0 && 1 <= page <= TotalPages(|s|, size)
    ensures 0 < |Page(s, page, size)| <= size
    ensures page < TotalPages(|s|, size) ==> |Page(s, page, size)| == size
    ensures (page - 1) * size + |Page(s, page, size)| <= |s|
    ensures forall j :: 0 <= j < |Page(s, page, size)| ==> Page(s, page, size)[j] == s[(page - 1) * size + j]
  {
    var a := (page - 1) * size;
    PageBounds(|s|, page, size);
    assert Page(s, page, size) == Slice(s, a, a + size);
    SliceWindow(s, a, size);
  }

  /** Where page `page` starts: inside the list, and a full page before the last page. */
  lemma PageBounds(n: nat, page: nat, size: nat)
    requires size > 0 && 1 <= page <= TotalPages(n, size)
    ensures 0 <= (page - 1) * size < n
    ensures page * size == (page - 1) * size + size
    ensures page < TotalPages(n, size) ==> (page - 1) * size + size <= n
  {
    var t := TotalPages(n, size);
    MulMonotone(page - 1, t - 1, size);
    if page < t {
      MulMonotone(page, t - 1, size);
    }
  }

  /** A window of `size` items starting inside the list, cut at its end. */
  lemma SliceWindow<T>(s: seq<T>, a: nat, size: nat)
    requires a < |s| && size > 0
    ensures 0 < |Slice(s, a, a + size)| <= size
    ensures a + size <= |s| ==> |Slice(s, a, a + size)| == size
    ensures Slice(s, a, a + size) == s[a..if a + size <= |s| then a + size else |s|]
  {
  }

  /** Item `d * size + m` is on page `d + 1` at offset `m`: every item is on a page in range. */
  lemma PageAt<T>(s: seq<T>, d: nat, m: nat, size: nat)
    requires size > 0 && m < size && d * size + m < |s|
    ensures 1 <= d + 1 <= TotalPages(|s|, size)
    ensures m < |Page(s, d + 1, size)| && Page(s, d + 1, size)[m] == s[d * size + m]
  {
    var t := TotalPages(|s|, size);
    if d >= t {
      MulMonotone(t, d, size);
      assert false;
    }
    assert (d + 1 - 1) * size == d * size;
    assert (d + 1) * size == d * size + size;
  }

  /** A page number past the end, or below 1, shows nothing. */
  lemma PageOutside<T>(s: seq<T>, page: int, size: nat)
    requires size > 0
    requires page > TotalPages(|s|, size) || page == 0
    ensures Page(s, page, size) == []
  {
    if page > TotalPages(|s|, size) {
      MulMonotone(TotalPages(|s|, size), page - 1, size);
    }
  }

  /** `goToPage`: below 1 becomes 1; above the last page becomes the last page. */
  function GoToPage(page: int, totalPages: nat): (r: int)
    ensures totalPages > 0 ==> 1 <= r <= totalPages
    ensures 1 <= page <= totalPages ==> r == page
    ensures totalPages == 0 ==> r == (if page < 1 then 1 else 0)
  {
    if page < 1 then 1 else if page > totalPages then totalPages else page
  }
}
