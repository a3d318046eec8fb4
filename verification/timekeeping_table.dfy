/**
 * The filters of the timekeeping table: the inclusive date range applied to
 * each user's logs, the search / department / non-empty filter over users,
 * and the department choices offered.
 *
 * A user group is the user's email with their logs, as the page groups them.
 */
module TimekeepingTable {
  import opened Text
  import opened Options
  import opened Seqs
  import opened Shift
  import opened Records
  import opened DayRange

  type Group = (string, seq<Post>)

  predicate InRange(range: Range, p: Post) {
    WithinToLastSecond(range, p.at)
  }

  /** The date filter applied to each user's logs. */
  function FilterByDate(range: Range, logs: seq<Post>): (r: seq<Post>)
    ensures multiset(r) <= multiset(logs)
    ensures forall p :: p in r ==> p in logs
    ensures forall p :: p in logs && p.at.Some? ==> (p in r <==>
      (range.startDay.None? || DayOf(p.at.value) >= range.startDay.value)
      && (range.endDay.None? || DayOf(p.at.value) < range.endDay.value
          || (DayOf(p.at.value) == range.endDay.value && TimeOf(p.at.value) <= LastSecond)))
    ensures forall p :: p in logs && p.at.None? ==> (p in r <==> range == NoRange)
  {
    ToLastSecondByDay(range);
    FilterSubMultiset(logs, p => InRange(range, p));
    Filter(logs, p => InRange(range, p))
  }

  /** The date filter keeps the logs it keeps in their original order. */
  lemma FilterByDateKeepsOrder(range: Range, a: seq<Post>, b: seq<Post>)
    ensures FilterByDate(range, a + b) == FilterByDate(range, a) + FilterByDate(range, b)
  {
    FilterAppend(a, b, p => InRange(range, p));
  }

  /** Without bounds the date filter keeps every log. */
  lemma NoRangeKeepsAll(logs: seq<Post>)
    ensures FilterByDate(NoRange, logs) == logs
  {
    FilterAllPass(logs, p => InRange(NoRange, p));
  }

  /** The lower-cased, trimmed "Firstname Lastname" of a user's first log. */
  function SearchName(p: Post): string {
    Trim(Lower(p.firstname + " " + p.lastname))
  }

  const AllDepartments := "All"

  /** The user-level filter; a user without logs is never listed (the code would fail on one). */
  predicate Listed(search: string, department: string, range: Range, g: Group) {
    var (email, logs) := g;
    |logs| > 0
    && (Contains(SearchName(logs[0]), Lower(search)) || Contains(Lower(email), Lower(search)))
    && (department == AllDepartments || logs[0].department == department)
    && |FilterByDate(range, logs)| > 0
  }

  predicate AllNonEmpty(groups: seq<Group>) {
    forall i :: 0 <= i < |groups| ==> |groups[i].1| > 0
  }

  /** The users the table shows, in their original order. */
  function FilteredData(groups: seq<Group>, search: string, department: string, range: Range): (r: seq<Group>)
    requires AllNonEmpty(groups)
    ensures |r| <= |groups|
    ensures forall g :: g in r <==> g in groups && Listed(search, department, range, g)
  {
    Filter(groups, g => Listed(search, department, range, g))
  }

  /** With no search, every department and no dates, every user is shown. */
  lemma NoFiltersShowEveryone(groups: seq<Group>)
    requires AllNonEmpty(groups)
    ensures FilteredData(groups, "", AllDepartments, NoRange) == groups
  {
    forall i | 0 <= i < |groups| ensures Listed("", AllDepartments, NoRange, groups[i]) {
      var (email, logs) := groups[i];
      ContainsEmpty(SearchName(logs[0]));
      NoRangeKeepsAll(logs);
    }
    FilterAllPass(groups, g => Listed("", AllDepartments, NoRange, g));
  }

  /** The search ignores letter case. */
  lemma SearchIgnoresCase(groups: seq<Group>, search: string, department: string, range: Range)
    requires AllNonEmpty(groups)
    ensures FilteredData(groups, Lower(search), department, range) == FilteredData(groups, search, department, range)
  {
    LowerIdempotent(search);
    FilterCongruent(groups, g => Listed(Lower(search), department, range, g), g => Listed(search, department, range, g));
  }

  /** Choosing a department shows a subset of the users shown for "All", each in that department. */
  lemma DepartmentNarrows(groups: seq<Group>, search: string, department: string, range: Range)
    requires AllNonEmpty(groups)
    ensures forall g :: g in FilteredData(groups, search, department, range) ==>
      g in FilteredData(groups, search, AllDepartments, range)
      && (department == AllDepartments || g.1[0].department == department)
  {
  }

  /** A shown user has at least one log in the range. */
  lemma ShownHaveLogsInRange(groups: seq<Group>, search: string, department: string, range: Range)
    requires AllNonEmpty(groups)
    ensures forall g :: g in FilteredData(groups, search, department, range) ==>
      exists p :: p in g.1 && InRange(range, p)
  {
    forall g | g in FilteredData(groups, search, department, range)
      ensures exists p :: p in g.1 && InRange(range, p)
    {
      var kept := FilterByDate(range, g.1);
      assert kept[0] in kept;
    }
  }

  /** All the users' logs, group after group. */
  function Flatten(groups: seq<Group>): (r: seq<Post>)
    ensures forall p :: p in r <==> exists i :: 0 <= i < |groups| && p in groups[i].1
  {
    if |groups| == 0 then []
    else
      var rest := Flatten(groups[1..]);
      assert forall i :: 1 <= i < |groups| ==> groups[i] == groups[1..][i - 1];
      groups[0].1 + rest
  }

  function Department(p: Post): string {
    p.department
  }

  /** Every log's department, group after group. */
  function DepartmentList(groups: seq<Group>): seq<string> {
    MapKey(Flatten(groups), Department)
  }

  /**
   * The department choices: "All", then each department that occurs in any
   * log, once, in the order of its first occurrence.
   */
  function Departments(groups: seq<Group>): (r: seq<string>)
    ensures |r| > 0 && r[0] == AllDepartments
    ensures NoDuplicates(r[1..])
    ensures forall d :: d in r[1..] <==> exists p :: p in Flatten(groups) && p.department == d
    ensures forall i :: 1 <= i < |r| ==> r[i] in DepartmentList(groups)
    ensures forall i, j :: 1 <= i < j < |r| ==>
      FirstIndex(DepartmentList(groups), r[i]) < FirstIndex(DepartmentList(groups), r[j])
  {
    var ds := Distinct(DepartmentList(groups));
    DistinctOrder(DepartmentList(groups));
    assert ([AllDepartments] + ds)[1..] == ds;
    forall d ensures d in ds <==> exists p :: p in Flatten(groups) && p.department == d {
      var all := Flatten(groups);
      if d in ds {
        var i :| 0 <= i < |all| && MapKey(all, Department)[i] == d;
        assert all[i] in all;
      }
    }
    [AllDepartments] + ds
  }
}
