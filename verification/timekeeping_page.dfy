/**
 * The timekeeping page's data preparation: each log is completed with the
 * name, department and picture of the user record with the same email, the
 * viewer's visibility rule is applied, and the logs are grouped by email for
 * the table.
 */
module TimekeepingPage {
  import opened Options
  import opened Seqs
  import opened Records
  import TimekeepingTable

  /** A user record from the user list; "" stands for a missing field. */
  datatype User = User(referenceID: string, email: string, firstname: string, lastname: string,
                       profilePicture: string, department: string)

  const DefaultPicture := "/fluxx.png"

  /** `users.find(u => u.Email === email)`: the first user with that email. */
  function FindUser(users: seq<User>, email: string): (r: Option<User>)
    ensures r.Some? ==> r.value in users && r.value.email == email
    ensures r.None? <==> forall u :: u in users ==> u.email != email
    ensures r.Some? ==> exists i ::
      && 0 <= i < |users| && users[i] == r.value
      && forall j :: 0 <= j < i ==> users[j].email != email
  {
    if |users| == 0 then None
    else if users[0].email == email then Some(users[0])
    else
      var r := FindUser(users[1..], email);
      assert forall u :: u in users[1..] ==> u in users;
      if r.Some? then
        var i :|
          && 0 <= i < |users[1..]| && users[1..][i] == r.value
          && forall j :: 0 <= j < i ==> users[1..][j].email != email;
        assert users[i + 1] == r.value;
        r
      else r
  }

  /** `a || b` on strings. */
  function Or(a: string, b: string): string {
    if a != "" then a else b
  }

  /** One log with its user's details filled in. */
  function WithUserInfo(users: seq<User>, p: Post): (r: Post)
    ensures r == p.(firstname := r.firstname, lastname := r.lastname, department := r.department,
                    profilePicture := r.profilePicture)
    ensures r.profilePicture != ""
    ensures FindUser(users, p.email).None? ==>
      r.firstname == p.firstname && r.lastname == p.lastname && r.department == p.department
      && r.profilePicture == DefaultPicture
    ensures FindUser(users, p.email).Some? ==>
      var u := FindUser(users, p.email).value;
      && (u.firstname != "" ==> r.firstname == u.firstname)
      && (u.firstname == "" ==> r.firstname == p.firstname)
      && (u.lastname != "" ==> r.lastname == u.lastname)
      && (u.lastname == "" ==> r.lastname == p.lastname)
      && (u.department != "" ==> r.department == u.department)
      && (u.department == "" ==> r.department == p.department)
      && r.profilePicture == Or(u.profilePicture, DefaultPicture)
  {
    match FindUser(users, p.email)
    case None => p.(profilePicture := DefaultPicture)
    case Some(u) =>
      p.(firstname := Or(u.firstname, p.firstname), lastname := Or(u.lastname, p.lastname),
         department := Or(u.department, p.department), profilePicture := Or(u.profilePicture, DefaultPicture))
  }

  function PostsWithUserInfo(users: seq<User>, posts: seq<Post>): (r: seq<Post>)
    ensures |r| == |posts|
    ensures forall i :: 0 <= i < |posts| ==> r[i] == WithUserInfo(users, posts[i])
  {
    seq(|posts|, i requires 0 <= i < |posts| => WithUserInfo(users, posts[i]))
  }

  /** Privileged viewers see every log; anyone else only logs whose `ReferenceID` is theirs. */
  function VisiblePosts(viewer: Viewer, posts: seq<Post>): (r: seq<Post>)
    ensures IsPrivileged(viewer) ==> r == posts
    ensures forall p :: p in r <==> p in posts && (IsPrivileged(viewer) || p.referenceID == Some(viewer.referenceID))
  {
    if IsPrivileged(viewer) then posts else Filter(posts, (p: Post) => p.referenceID == Some(viewer.referenceID))
  }

  function Email(p: Post): string {
    p.email
  }

  /** The logs grouped by email, in order of first appearance, as the table receives them. */
  function GroupedByEmail(viewer: Viewer, users: seq<User>, posts: seq<Post>): seq<(string, seq<Post>)> {
    GroupBy(VisiblePosts(viewer, PostsWithUserInfo(users, posts)), Email)
  }

  /**
   * Every group holds at least one log, all with its email, in the order the
   * logs came; and every visible log is in the group of its email.
   */
  lemma GroupedByEmailMeaning(viewer: Viewer, users: seq<User>, posts: seq<Post>)
    ensures var gs := GroupedByEmail(viewer, users, posts);
      var visible := VisiblePosts(viewer, PostsWithUserInfo(users, posts));
      && TimekeepingTable.AllNonEmpty(gs)
      && (forall i, j :: 0 <= i < j < |gs| ==> gs[i].0 != gs[j].0)
      && (forall i :: 0 <= i < |gs| ==> gs[i].1 == WithKey(visible, Email, gs[i].0))
      && (forall p :: p in visible ==> exists i :: 0 <= i < |gs| && gs[i].0 == p.email && p in gs[i].1)
  {
    var visible := VisiblePosts(viewer, PostsWithUserInfo(users, posts));
    var gs := GroupedByEmail(viewer, users, posts);
    GroupByFacts(visible, Email);
    forall p | p in visible ensures exists i :: 0 <= i < |gs| && gs[i].0 == p.email && p in gs[i].1 {
      var i :| 0 <= i < |gs| && gs[i].0 == Email(p);
      assert p in WithKey(visible, Email, gs[i].0);
    }
  }
}
