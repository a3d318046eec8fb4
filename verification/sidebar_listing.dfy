/**
 * The list beside the visit map: a search over the locations by place name
 * or coordinates, per-row "View more" flags, and each location's history
 * grouped by activity type.
 *
 * The coordinate text (`toFixed(5)` of both, joined by ",") is a parameter
 * `coords`.
 */
module SidebarListing {
  import opened Text
  import opened Seqs
  import opened MapChart

  /** A location matches a query by its lower-cased name or its coordinate text. */
  predicate Matches(coords: (real, real) -> string, q: string, l: AggLoc) {
    Contains(Lower(l.name), q) || Contains(coords(l.lat, l.lon), q)
  }

  /** `filtered`: every location for a blank query, otherwise those matching the lower-cased query. */
  function Filtered(locs: seq<AggLoc>, query: string, coords: (real, real) -> string): (r: seq<AggLoc>)
    ensures IsBlank(query) ==> r == locs
    ensures !IsBlank(query) ==> forall l :: l in r <==> l in locs && Matches(coords, Lower(query), l)
    ensures |r| <= |locs|
  {
    if IsBlank(query) then locs else Filter(locs, l => Matches(coords, Lower(query), l))
  }

  /** The search ignores the letter case of the query. */
  lemma FilteredIgnoresCase(locs: seq<AggLoc>, query: string, coords: (real, real) -> string)
    ensures Filtered(locs, Lower(query), coords) == Filtered(locs, query, coords)
  {
    LowerIdempotent(query);
    assert IsBlank(Lower(query)) <==> IsBlank(query) by {
      forall i | 0 <= i < |query| ensures IsSpace(Lower(query)[i]) <==> IsSpace(query[i]) {
      }
    }
  }

  /** A match keeps the order of the full list. */
  lemma FilteredKeepsOrder(locs: seq<AggLoc>, a: seq<AggLoc>, b: seq<AggLoc>, query: string, coords: (real, real) -> string)
    requires locs == a + b
    ensures Filtered(locs, query, coords) == Filtered(a, query, coords) + Filtered(b, query, coords)
  {
    if !IsBlank(query) {
      FilterAppend(a, b, l => Matches(coords, Lower(query), l));
    }
  }

  function VisitType(v: Visit): string {
    v.activity
  }

  /** The "View more" panel: the history grouped by activity type, in order of first appearance. */
  function HistoryByType(history: seq<Visit>): seq<(string, seq<Visit>)> {
    GroupBy(history, VisitType)
  }

  /**
   * One heading per type, each listing that type's visits in their original
   * order, and no visit left out or repeated.
   */
  lemma HistoryByTypeMeaning(history: seq<Visit>)
    ensures var gs := HistoryByType(history);
      && (forall i, j :: 0 <= i < j < |gs| ==> gs[i].0 != gs[j].0)
      && (forall i :: 0 <= i < |gs| ==> gs[i].1 == WithKey(history, VisitType, gs[i].0) && |gs[i].1| > 0)
      && (forall v :: v in history ==> exists i :: 0 <= i < |gs| && gs[i].0 == v.activity)
      && SumSizes(gs) == |history|
  {
    GroupByFacts(history, VisitType);
    GroupByIsPartition(history, VisitType);
  }
}
