/**
 * The records the pages pass around: an activity log as fetched from the
 * server, and the signed-in viewer whose role decides what they may see.
 *
 * Optional string fields that the code only tests for truthiness (`x || ""`)
 * are plain strings, with "" standing for a missing value. Fields that the
 * code compares with `===` against a string keep the difference between
 * missing and empty, as an Option.
 */
module Records {
  import opened Options
  import opened Seqs

  /** An activity log (a login or logout with its photo and place). */
  datatype Post = Post(
    /** The lower-case `referenceid` some older records carry. */
    referenceid: Option<string>,
    /** `ReferenceID`, the owner's reference. */
    referenceID: Option<string>,
    email: string,
    department: string,
    /** `Type`, the kind of activity. */
    activity: string,
    /** `Status`, "Login" or "Logout" in any letter case. */
    status: string,
    /** `date_created` as local epoch milliseconds; None when absent. */
    at: Option<int>,
    firstname: string,
    lastname: string,
    profilePicture: string,
    location: string,
    id: Option<string>)

  /** The signed-in user as the pages load them (`userDetails`). */
  datatype Viewer = Viewer(role: string, department: string, referenceID: string)

  const SuperAdmin := "Super Admin"
  const HumanResources := "Human Resources"

  /** Super Admins and anyone in Human Resources see every user's logs. */
  predicate IsPrivileged(v: Viewer) {
    v.role == SuperAdmin || v.department == HumanResources
  }

  /** `post.referenceid === ref || post.ReferenceID === ref`. */
  predicate OwnedBy(p: Post, ref: string) {
    p.referenceid == Some(ref) || p.referenceID == Some(ref)
  }

  predicate Dated(p: Post) {
    p.at.Some?
  }

  /**
   * The number the sort comparators subtract: `new Date(date_created).getTime()`.
   * An undated post gives NaN there; the model places it as if dated at the epoch.
   */
  function SortKey(p: Post): int {
    match p.at
    case Some(a) => a
    case None => 0
  }

  /** `sort((a, b) => time(a) - time(b))`: the same posts, oldest first. */
  function OldestFirst(posts: seq<Post>): (r: seq<Post>)
    ensures multiset(r) == multiset(posts)
    ensures forall i, j :: 0 <= i < j < |r| ==> SortKey(r[i]) <= SortKey(r[j])
  {
    SortBySorted(posts, SortKey);
    SortBy(posts, SortKey)
  }

  function Age(p: Post): int {
    -SortKey(p)
  }

  /** `sort((a, b) => time(b) - time(a))`: the same posts, newest first. */
  function NewestFirst(posts: seq<Post>): (r: seq<Post>)
    ensures multiset(r) == multiset(posts)
    ensures forall i, j :: 0 <= i < j < |r| ==> SortKey(r[i]) >= SortKey(r[j])
  {
    SortBySorted(posts, Age);
    SortBy(posts, Age)
  }
}
