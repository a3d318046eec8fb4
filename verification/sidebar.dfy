/**
 * The navigation sidebar: the menu links carry the signed-in user's id in
 * their query string, the Timekeeping entry is shown only to privileged
 * viewers, and each tap opens or closes one section.
 */
module Sidebar {
  import opened Options
  import opened Seqs
  import opened Records
  import Uri

  datatype SubItem = SubItem(title: string, description: string, href: string)

  /** A menu section; its icon is carried as an opaque name. */
  datatype MenuItem = MenuItem(title: string, icon: string, subItems: seq<SubItem>)

  const Activities := "Activities"
  const ActivityLogs := "Activity Logs"
  const Timekeeping := "Timekeeping"
  const Description := "View your recent activity records and task updates"
  const ActivityLogsPath := "/Acculog/Attendance/Activity/ActivityLogs"
  const TimekeepingPath := "/Acculog/Attendance/Activity/Timekeeping"
  const DashboardPath := "/Acculog/Attendance/Dashboard"
  const IdParam := "?id="

  /**
   * The query string a link carries: the encoded id, or nothing when the
   * page has no `id` parameter ("" stands for a missing one; both are falsy).
   */
  function IdQuery(userId: string): (q: string)
    ensures q == "" <==> userId == ""
    ensures userId != "" ==> q == IdParam + Uri.Encode(userId)
  {
    if userId != "" then IdParam + Uri.Encode(userId) else ""
  }

  /** Every sub-item is kept, except that Timekeeping needs a privileged viewer. */
  predicate Allowed(viewer: Viewer, sub: SubItem) {
    sub.title == Timekeeping ==> IsPrivileged(viewer)
  }

  /** The role filter over every section: only the sub-items change. */
  function Restrict(viewer: Viewer, items: seq<MenuItem>): (r: seq<MenuItem>)
    ensures |r| == |items|
    ensures forall i :: 0 <= i < |r| ==>
      r[i] == items[i].(subItems := Filter(items[i].subItems, s => Allowed(viewer, s)))
  {
    seq(|items|, i requires 0 <= i < |items| => items[i].(subItems := Filter(items[i].subItems, s => Allowed(viewer, s))))
  }

  /** The sections before filtering. */
  function AllItems(userId: string): seq<MenuItem> {
    [MenuItem(Activities, "CiMemoPad", [
      SubItem(ActivityLogs, Description, ActivityLogsPath + IdQuery(userId)),
      SubItem(Timekeeping, Description, TimekeepingPath + IdQuery(userId))])]
  }

  /** `getMenuItems`. */
  function MenuItems(viewer: Viewer, userId: string): seq<MenuItem> {
    Restrict(viewer, AllItems(userId))
  }

  /** The logo's link back to the dashboard. */
  function DashboardHref(userId: string): string {
    DashboardPath + IdQuery(userId)
  }

  function Titles(subs: seq<SubItem>): seq<string> {
    seq(|subs|, i requires 0 <= i < |subs| => subs[i].title)
  }

  /**
   * One Activities section; Activity Logs always, Timekeeping exactly for
   * Super Admins and Human Resources; every link ends in the id query.
   */
  lemma MenuItemsMeaning(viewer: Viewer, userId: string)
    ensures var items := MenuItems(viewer, userId);
      && |items| == 1 && items[0].title == Activities
      && Titles(items[0].subItems) == [ActivityLogs] + (if IsPrivileged(viewer) then [Timekeeping] else [])
      && items[0].subItems[0].href == ActivityLogsPath + IdQuery(userId)
      && (IsPrivileged(viewer) ==> items[0].subItems[1].href == TimekeepingPath + IdQuery(userId))
  {
    var subs := AllItems(userId)[0].subItems;
    var f := s => Allowed(viewer, s);
    assert ActivityLogs != Timekeeping by {
      assert ActivityLogs[0] != Timekeeping[0];
    }
    assert subs == [subs[0]] + [subs[1]];
    FilterAppend([subs[0]], [subs[1]], f);
    assert Filter([subs[0]], f) == [subs[0]] by {
      assert [subs[0]][1..] == [];
    }
    assert Filter([subs[1]], f) == (if IsPrivileged(viewer) then [subs[1]] else []) by {
      assert [subs[1]][1..] == [];
    }
  }

  /** A link's id query reads back: what follows "?id=" decodes to the id's UTF-8 bytes. */
  lemma IdQueryRoundTrip(userId: string)
    requires userId != ""
    ensures IdQuery(userId)[..|IdParam|] == IdParam
    ensures Uri.DecodeBytes(IdQuery(userId)[|IdParam|..]) == Some(Uri.Bytes(userId))
    ensures forall i :: |IdParam| <= i < |IdQuery(userId)| ==> Uri.QuerySafe(IdQuery(userId)[i])
  {
    var e := Uri.Encode(userId);
    var q := IdParam + e;
    assert q[|IdParam|..] == e;
    assert q[..|IdParam|] == IdParam;
    Uri.EncodeRoundTrip(userId);
    assert forall i :: |IdParam| <= i < |q| ==> Uri.QuerySafe(q[i]) by {
      Uri.EncodeSafe(userId);
      forall i | |IdParam| <= i < |q| ensures Uri.QuerySafe(q[i]) {
        assert q[i] == e[i - |IdParam|];
      }
    }
  }
}
