/**
 * The visit map: posts with usable coordinates are aggregated per rounded
 * coordinate pair into one location each, with a visit count, a place name,
 * the latest activity and status, and the visit history; the map centres on
 * the first location, or on the office when there is none.
 *
 * Coordinates are reals. The rounding of a coordinate pair to a key
 * (`toFixed(4)` on both, joined by "|") is a parameter `keyOf`; distances,
 * travel times and drawing are not part of this model.
 */
module MapChart {
  import opened Options
  import opened Seqs

  /** A coordinate field as the server sends it: absent, a number (NaN kept apart), or a string. */
  datatype Coord = Absent | Num(v: real) | NotANumber | Text(s: string, parsed: Option<real>)

  /**
   * `if (!x) skip; const v = +x; if (isNaN(v)) skip`: a field is usable when
   * it is truthy and converts to a number. A non-empty string that reads as
   * zero ("0", " ") passes; the number 0 does not.
   */
  function Usable(c: Coord): Option<real> {
    match c
    case Absent => None
    case Num(v) => if v == 0.0 then None else Some(v)
    case NotANumber => None
    case Text(s, parsed) => if s == "" then None else parsed
  }

  /** A post as the map reads it; "" stands for an absent text field. */
  datatype MapPost = MapPost(latitude: Coord, longitude: Coord, location: string, activity: string,
                             status: string, email: string, at: Option<int>)

  /** One visit of a location's history; missing texts read "Unknown". */
  datatype Visit = Visit(activity: string, status: string, email: string, at: Option<int>)

  datatype AggLoc = AggLoc(lat: real, lon: real, cnt: nat, name: string, activity: string,
                           status: string, history: seq<Visit>)

  const Unknown := "Unknown"

  function OrUnknown(s: string): string {
    if s != "" then s else Unknown
  }

  function VisitOf(p: MapPost): (v: Visit)
    ensures v.activity != "" && v.status != "" && v.email != ""
    ensures p.activity != "" ==> v.activity == p.activity
    ensures p.status != "" ==> v.status == p.status
    ensures p.email != "" ==> v.email == p.email
  {
    Visit(OrUnknown(p.activity), OrUnknown(p.status), OrUnknown(p.email), p.at)
  }

  function Point(p: MapPost): Option<(real, real)> {
    match (Usable(p.latitude), Usable(p.longitude))
    case (Some(lat), Some(lon)) => Some((lat, lon))
    case _ => None
  }

  // ---------------------------------------------------------------- as the code builds it

  /** The entry a location's first post creates. */
  function NewLoc(lat: real, lon: real, p: MapPost): AggLoc {
    AggLoc(lat, lon, 1, p.location, p.activity, p.status, [VisitOf(p)])
  }

  /** A later post at the same key: count it, keep the first name, take a non-empty type and status. */
  function Update(e: AggLoc, p: MapPost): AggLoc {
    e.(cnt := e.cnt + 1,
       name := if e.name == "" && p.location != "" then p.location else e.name,
       activity := if p.activity != "" then p.activity else e.activity,
       status := if p.status != "" then p.status else e.status,
       history := e.history + [VisitOf(p)])
  }

  /** `map.has(key) ? update : map.set(key, new)` on an insertion-ordered map. */
  function Record<K(==)>(m: seq<(K, AggLoc)>, k: K, lat: real, lon: real, p: MapPost): seq<(K, AggLoc)> {
    if |m| == 0 then [(k, NewLoc(lat, lon, p))]
    else if m[0].0 == k then [(k, Update(m[0].1, p))] + m[1..]
    else [m[0]] + Record(m[1..], k, lat, lon, p)
  }

  /** `locMap`: the posts folded in order, skipping those without usable coordinates. */
  function LocMap<K(==)>(posts: seq<MapPost>, keyOf: (real, real) -> K): seq<(K, AggLoc)> {
    if |posts| == 0 then []
    else
      var m := LocMap(posts[..|posts| - 1], keyOf);
      var p := posts[|posts| - 1];
      match Point(p)
      case None => m
      case Some((lat, lon)) => Record(m, keyOf(lat, lon), lat, lon, p)
  }

  function Values<K>(m: seq<(K, AggLoc)>): (r: seq<AggLoc>)
    ensures |r| == |m|
    ensures forall i :: 0 <= i < |m| ==> r[i] == m[i].1
  {
    if |m| == 0 then [] else [m[0].1] + Values(m[1..])
  }

  /** `[...locMap.values()]`. */
  function Locations<K(==)>(posts: seq<MapPost>, keyOf: (real, real) -> K): seq<AggLoc> {
    Values(LocMap(posts, keyOf))
  }

  const OriginLat: real := 14.60023
  const OriginLon: real := 121.05945

  /** The map centre: the first location, else the office. */
  function Center(locations: seq<AggLoc>): (c: (real, real))
    ensures |locations| > 0 ==> c == (locations[0].lat, locations[0].lon)
    ensures |locations| == 0 ==> c == (OriginLat, OriginLon)
  {
    if |locations| > 0 then (locations[0].lat, locations[0].lon) else (OriginLat, OriginLon)
  }

  // ---------------------------------------------------------------- what it means

  predicate HasPoint(p: MapPost) {
    Point(p).Some?
  }

  /** The key of a post with usable coordinates. */
  function KeyOf<K>(keyOf: (real, real) -> K, p: MapPost): K
    requires HasPoint(p)
  {
    keyOf(Point(p).value.0, Point(p).value.1)
  }

  /** The first non-empty place name among the posts, or "". */
  function FirstName(ps: seq<MapPost>): string {
    if |ps| == 0 then ""
    else
      var before := FirstName(ps[..|ps| - 1]);
      if before != "" then before else ps[|ps| - 1].location
  }

  /** The last non-empty activity among the posts, or "". */
  function LastActivity(ps: seq<MapPost>): string {
    if |ps| == 0 then "" else if ps[|ps| - 1].activity != "" then ps[|ps| - 1].activity else LastActivity(ps[..|ps| - 1])
  }

  function LastStatus(ps: seq<MapPost>): string {
    if |ps| == 0 then "" else if ps[|ps| - 1].status != "" then ps[|ps| - 1].status else LastStatus(ps[..|ps| - 1])
  }

  function Visits(ps: seq<MapPost>): (r: seq<Visit>)
    ensures |r| == |ps|
    ensures forall i :: 0 <= i < |ps| ==> r[i] == VisitOf(ps[i])
  {
    if |ps| == 0 then [] else Visits(ps[..|ps| - 1]) + [VisitOf(ps[|ps| - 1])]
  }

  /** What a location should show for the posts at its key. */
  function Summary(ps: seq<MapPost>): AggLoc {
    var (lat, lon) := if |ps| > 0 && HasPoint(ps[0]) then Point(ps[0]).value else (0.0, 0.0);
    AggLoc(lat, lon, |ps|, FirstName(ps), LastActivity(ps), LastStatus(ps), Visits(ps))
  }

  function Summaries<K>(gs: seq<(K, seq<MapPost>)>): seq<(K, AggLoc)> {
    if |gs| == 0 then [] else [(gs[0].0, Summary(gs[0].1))] + Summaries(gs[1..])
  }

  /** Adding a post to its group updates that group's summary as the code updates its entry. */
  lemma SummarySnoc(ps: seq<MapPost>, p: MapPost)
    requires |ps| > 0 && HasPoint(ps[0])
    ensures Summary(ps + [p]) == Update(Summary(ps), p)
  {
    var qs := ps + [p];
    assert qs[..|qs| - 1] == ps;
    assert Visits(qs) == Visits(ps) + [VisitOf(p)];
  }

  lemma SummarySingle(p: MapPost)
    requires HasPoint(p)
    ensures Summary([p]) == NewLoc(Point(p).value.0, Point(p).value.1, p)
  {
    assert [p][..0] == [];
    assert [p][0] == p;
    assert Visits([p]) == [VisitOf(p)];
    assert FirstName([p]) == p.location;
    assert LastActivity([p]) == p.activity;
    assert LastStatus([p]) == p.status;
  }

  lemma {:induction false} SummariesRecord<K>(gs: seq<(K, seq<MapPost>)>, k: K, p: MapPost)
    requires HasPoint(p)
    requires forall i :: 0 <= i < |gs| ==> |gs[i].1| > 0 && HasPoint(gs[i].1[0])
    ensures Summaries(AddToGroup(gs, k, p)) == Record(Summaries(gs), k, Point(p).value.0, Point(p).value.1, p)
  {
    var (lat, lon) := Point(p).value;
    if |gs| == 0 {
      SummarySingle(p);
    } else if gs[0].0 == k {
      SummarySnoc(gs[0].1, p);
      assert AddToGroup(gs, k, p)[1..] == gs[1..];
    } else {
      SummariesRecord(gs[1..], k, p);
      assert AddToGroup(gs, k, p)[1..] == AddToGroup(gs[1..], k, p);
    }
  }

  lemma {:induction false} GroupsHavePoints<K(!new)>(s: seq<MapPost>, key: MapPost -> K)
    requires forall i :: 0 <= i < |s| ==> HasPoint(s[i])
    ensures forall i :: 0 <= i < |GroupBy(s, key)| ==> |GroupBy(s, key)[i].1| > 0 && HasPoint(GroupBy(s, key)[i].1[0])
  {
    var gs := GroupBy(s, key);
    GroupByFacts(s, key);
    forall i | 0 <= i < |gs| ensures HasPoint(gs[i].1[0]) {
      assert gs[i].1[0] in WithKey(s, key, gs[i].0);
    }
  }

  function PostKey<K>(keyOf: (real, real) -> K, p: MapPost): K {
    if HasPoint(p) then KeyOf(keyOf, p) else keyOf(0.0, 0.0)
  }

  /** The grouping key of the placed posts. */
  function KeyFn<K>(keyOf: (real, real) -> K): MapPost -> K {
    p => PostKey(keyOf, p)
  }

  /** The posts that reach the map: those with usable coordinates, in order. */
  function Placed(posts: seq<MapPost>): seq<MapPost> {
    Filter(posts, HasPoint)
  }

  /**
   * The code's fold produces, in order of first appearance, one entry per key
   * that summarises exactly the placed posts at that key.
   */
  lemma {:induction false} LocMapIsGroupSummary<K(!new)>(posts: seq<MapPost>, keyOf: (real, real) -> K)
    ensures LocMap(posts, keyOf) == Summaries(GroupBy(Placed(posts), KeyFn(keyOf)))
  {
    if |posts| > 0 {
      var prefix := posts[..|posts| - 1];
      var p := posts[|posts| - 1];
      var key := KeyFn(keyOf);
      LocMapIsGroupSummary(prefix, keyOf);
      assert posts == prefix + [p];
      if HasPoint(p) {
        assert Placed(posts) == Placed(prefix) + [p];
        PlacedStep(prefix, p, keyOf);
      } else {
        assert Placed(posts) == Placed(prefix);
        assert LocMap(posts, keyOf) == LocMap(prefix, keyOf);
      }
    }
  }

  lemma PlacedStep<K(!new)>(prefix: seq<MapPost>, p: MapPost, keyOf: (real, real) -> K)
    requires HasPoint(p)
    requires LocMap(prefix, keyOf) == Summaries(GroupBy(Placed(prefix), KeyFn(keyOf)))
    ensures LocMap(prefix + [p], keyOf) == Summaries(GroupBy(Placed(prefix) + [p], KeyFn(keyOf)))
  {
    var key := KeyFn(keyOf);
    var placed := Placed(prefix);
    var (lat, lon) := Point(p).value;
    assert (prefix + [p])[..|prefix|] == prefix;
    assert LocMap(prefix + [p], keyOf) == Record(LocMap(prefix, keyOf), keyOf(lat, lon), lat, lon, p);
    assert (placed + [p])[..|placed|] == placed;
    assert GroupBy(placed + [p], key) == AddToGroup(GroupBy(placed, key), key(p), p);
    assert forall i :: 0 <= i < |placed| ==> HasPoint(placed[i]) by {
      forall i | 0 <= i < |placed| ensures HasPoint(placed[i]) {
        assert placed[i] in placed;
      }
    }
    GroupsHavePoints(placed, key);
    SummariesRecord(GroupBy(placed, key), key(p), p);
  }

  function CountAll(ls: seq<AggLoc>): nat {
    if |ls| == 0 then 0 else ls[0].cnt + CountAll(ls[1..])
  }

  lemma {:induction false} CountAllSizes<K>(gs: seq<(K, seq<MapPost>)>)
    ensures CountAll(Values(Summaries(gs))) == SumSizes(gs)
  {
    if |gs| > 0 {
      CountAllSizes(gs[1..]);
      assert Values(Summaries(gs))[1..] == Values(Summaries(gs[1..]));
    }
  }

  /**
   * Each location counts its visits (one per history entry) and the counts
   * add up to the number of posts with usable coordinates; keys are distinct.
   */
  lemma LocationsMeaning<K(!new)>(posts: seq<MapPost>, keyOf: (real, real) -> K)
    ensures var m := LocMap(posts, keyOf);
      && (forall i :: 0 <= i < |m| ==> m[i].1.cnt == |m[i].1.history| > 0)
      && (forall i, j :: 0 <= i < j < |m| ==> m[i].0 != m[j].0)
      && CountAll(Locations(posts, keyOf)) == |Placed(posts)|
  {
    var key := KeyFn(keyOf);
    var gs := GroupBy(Placed(posts), key);
    LocMapIsGroupSummary(posts, keyOf);
    GroupByIsPartition(Placed(posts), key);
    GroupByFacts(Placed(posts), key);
    SummariesShape(gs);
    CountAllSizes(gs);
  }

  lemma {:induction false} SummariesShape<K>(gs: seq<(K, seq<MapPost>)>)
    ensures |Summaries(gs)| == |gs|
    ensures forall i :: 0 <= i < |gs| ==> Summaries(gs)[i] == (gs[i].0, Summary(gs[i].1))
  {
    if |gs| > 0 {
      SummariesShape(gs[1..]);
    }
  }

  /** The group of the first element comes first and starts with that element. */
  lemma {:induction false} GroupByHead<K(!new)>(s: seq<MapPost>, key: MapPost -> K)
    requires |s| > 0
    ensures |GroupBy(s, key)| > 0 && |GroupBy(s, key)[0].1| > 0 && GroupBy(s, key)[0].1[0] == s[0]
    decreases |s|
  {
    var prefix := s[..|s| - 1];
    if |prefix| > 0 {
      GroupByHead(prefix, key);
      assert prefix[0] == s[0];
    }
  }

  /**
   * The map centres on the first log with usable coordinates, at its own
   * unrounded coordinates, and on the office when no log has them.
   */
  lemma CenterIsFirstPlaced<K(!new)>(posts: seq<MapPost>, keyOf: (real, real) -> K)
    ensures |Placed(posts)| > 0 ==>
      HasPoint(Placed(posts)[0]) && Center(Locations(posts, keyOf)) == Point(Placed(posts)[0]).value
    ensures |Placed(posts)| == 0 ==> Center(Locations(posts, keyOf)) == (OriginLat, OriginLon)
  {
    var gs := GroupBy(Placed(posts), KeyFn(keyOf));
    LocMapIsGroupSummary(posts, keyOf);
    SummariesShape(gs);
    if |Placed(posts)| > 0 {
      GroupByHead(Placed(posts), KeyFn(keyOf));
      assert HasPoint(Placed(posts)[0]) by {
        assert Placed(posts)[0] in Placed(posts);
      }
    }
  }
}
