/**
  The ranker: the GeoRecords ordering (Less and Swap over the record array),
  the in-place sort by distance, and the choice of the five closest and the
  five farthest records.
 */
module Ranker {
  import opened Geo

  /** How many records each of the two reports holds at most. */
  const ReportSize: nat := 5

  /** Ascending by distance. Ties may come in any order. */
  predicate SortedByDist(s: seq<GeoRecord>)
  {
    forall p, q :: 0 <= p < q < |s| ==> s[p].dist <= s[q].dist
  }

  /** GeoRecords.Less: the record at i is strictly closer than the one at j. */
  predicate Less(g: array<GeoRecord>, i: int, j: int)
    requires 0 <= i < g.Length && 0 <= j < g.Length
    reads g
  {
    g[i].dist < g[j].dist
  }

  /** Less is a strict weak ordering of the positions of g, the order
      sort.Sort requires of it: irreflexive, transitive, and with
      incomparability transitive too. */
  lemma LessIsStrictWeakOrder(g: array<GeoRecord>)
    ensures forall i :: 0 <= i < g.Length ==> !Less(g, i, i)
    ensures forall i, j, k ::
      (0 <= i < g.Length && 0 <= j < g.Length && 0 <= k < g.Length
       && Less(g, i, j) && Less(g, j, k)) ==> Less(g, i, k)
    ensures forall i, j, k ::
      (0 <= i < g.Length && 0 <= j < g.Length && 0 <= k < g.Length
       && !Less(g, i, j) && !Less(g, j, i) && !Less(g, j, k) && !Less(g, k, j))
      ==> !Less(g, i, k) && !Less(g, k, i)
  {
  }

  /** The record at i is not Less than its left neighbour. */
  predicate InOrderAt(g: array<GeoRecord>, i: int)
    requires 0 < i < g.Length
    reads g
  {
    !Less(g, i, i - 1)
  }

  /** The array is sorted exactly when no element is Less than its left
      neighbour. Sort keeps its invariant in this neighbour-by-neighbour form,
      the only comparison GeoRecords offers, and uses this lemma to reach
      the ascending order it promises. */
  lemma SortedIffNoAdjacentInversion(g: array<GeoRecord>)
    ensures SortedByDist(g[..]) <==> forall i :: 0 < i < g.Length ==> InOrderAt(g, i)
  {
    if forall i :: 0 < i < g.Length ==> InOrderAt(g, i) {
      forall p, q | 0 <= p < q < g.Length
        ensures g[..][p].dist <= g[..][q].dist
      {
        AdjacentOrderChains(g, g.Length, p, q);
      }
    }
  }

  /** Neighbour order on the first n positions gives order between any two of them. */
  lemma {:induction false} AdjacentOrderChains(g: array<GeoRecord>, n: int, p: int, q: int)
    requires 0 <= p <= q < n <= g.Length
    requires forall i :: 0 < i < n ==> InOrderAt(g, i)
    ensures g[p].dist <= g[q].dist
    decreases q - p
  {
    if p < q {
      AdjacentOrderChains(g, n, p, q - 1);
      assert InOrderAt(g, q);
    }
  }

  /** GeoRecords.Swap: exchanges the records at i and j, nothing else moves. */
  method Swap(g: array<GeoRecord>, i: int, j: int)
    requires 0 <= i < g.Length && 0 <= j < g.Length
    modifies g
    ensures g[i] == old(g[j]) && g[j] == old(g[i])
    ensures forall k :: 0 <= k < g.Length && k != i && k != j ==> g[k] == old(g[k])
    ensures multiset(g[..]) == multiset(old(g[..]))
  {
    g[i], g[j] := g[j], g[i];
  }

  /** sort.Sort(GeoRecords(g)): afterwards g is ascending by distance and holds
      the same records as before. The body is an insertion sort written with
      Less and Swap only, as every sort.Interface sort is. */
  method Sort(g: array<GeoRecord>)
    modifies g
    ensures SortedByDist(g[..])
    ensures multiset(g[..]) == multiset(old(g[..]))
  {
    var i := 0;
    while i < g.Length
      invariant 0 <= i <= g.Length
      // no record of the first i is Less than its left neighbour
      invariant forall k :: 0 < k < i ==> InOrderAt(g, k)
      invariant multiset(g[..]) == multiset(old(g[..]))
    {
      forall p, q | 0 <= p < q < i
        ensures g[p].dist <= g[q].dist
      {
        AdjacentOrderChains(g, i, p, q);
      }
      var j := i;
      while j > 0 && Less(g, j, j - 1)
        invariant 0 <= j <= i < g.Length
        // the records other than the one being inserted stay in order
        invariant forall p, q :: 0 <= p < q <= i && p != j && q != j ==> g[p].dist <= g[q].dist
        // the one being inserted is no farther than everything already passed
        invariant forall q :: j < q <= i ==> g[j].dist <= g[q].dist
        invariant multiset(g[..]) == multiset(old(g[..]))
      {
        Swap(g, j, j - 1);
        j := j - 1;
      }
      forall p, q | 0 <= p < q <= i
        ensures g[p].dist <= g[q].dist
      {
        if q == j && p < j - 1 {
          assert g[p].dist <= g[j - 1].dist;
        }
      }
      assert forall k :: 0 < k < i + 1 ==> InOrderAt(g, k);
      i := i + 1;
    }
    SortedIffNoAdjacentInversion(g);
  }

  /** The two reports: the closest and the farthest records, both in ascending order. */
  datatype Extremes = Extremes(top5: seq<GeoRecord>, bottom5: seq<GeoRecord>)

  /** The selection made after sorting: with at most five records both reports
      are the whole list; otherwise the first five and the last five. */
  function SelectExtremes(sorted: seq<GeoRecord>): (r: Extremes)
    ensures |sorted| <= ReportSize ==> r.top5 == sorted && r.bottom5 == sorted
    ensures |sorted| > ReportSize ==> |r.top5| == ReportSize && |r.bottom5| == ReportSize
    ensures r.top5 <= sorted
    ensures |r.bottom5| <= |sorted| && r.bottom5 == sorted[|sorted| - |r.bottom5|..]
  {
    var n := |sorted|;
    if n <= ReportSize then Extremes(sorted, sorted)
    else Extremes(sorted[..ReportSize], sorted[n - ReportSize..])
  }

  /** On a sorted list both reports are ascending, no record outside top5 is
      closer than one inside it, and no record outside bottom5 is farther
      than one inside it. */
  lemma ExtremesOfSorted(sorted: seq<GeoRecord>)
    requires SortedByDist(sorted)
    ensures var e := SelectExtremes(sorted);
      && SortedByDist(e.top5) && SortedByDist(e.bottom5)
      && (forall i, k :: 0 <= i < |e.top5| <= k < |sorted| ==> e.top5[i].dist <= sorted[k].dist)
      && (forall k, i :: 0 <= k < |sorted| - |e.bottom5| && 0 <= i < |e.bottom5|
            ==> sorted[k].dist <= e.bottom5[i].dist)
  {
  }

  /** In a sorted list, nothing before position m is farther than anything from m on. */
  lemma SortedSplit(sorted: seq<GeoRecord>, m: int)
    requires SortedByDist(sorted)
    requires 0 <= m <= |sorted|
    ensures forall x, y :: x in multiset(sorted[..m]) && y in multiset(sorted[m..]) ==> x.dist <= y.dist
  {
  }

  /** Against the unsorted input: if sorted is an ascending permutation of
      records, top5 is drawn from the input and every record in it is at least
      as close as every record of the input left out of it. */
  lemma ClosestOfInput(records: seq<GeoRecord>, sorted: seq<GeoRecord>)
    requires SortedByDist(sorted)
    requires multiset(sorted) == multiset(records)
    ensures var top := SelectExtremes(sorted).top5;
      && multiset(top) <= multiset(records)
      && forall x, y :: x in top && y in multiset(records) - multiset(top) ==> x.dist <= y.dist
  {
    var top := SelectExtremes(sorted).top5;
    var t := |top|;
    assert top == sorted[..t];
    assert sorted == sorted[..t] + sorted[t..];
    assert multiset(records) == multiset(top) + multiset(sorted[t..]);
    SortedSplit(sorted, t);
  }

  /** Likewise bottom5 is drawn from the input and every record in it is at
      least as far as every record of the input left out of it. */
  lemma FarthestOfInput(records: seq<GeoRecord>, sorted: seq<GeoRecord>)
    requires SortedByDist(sorted)
    requires multiset(sorted) == multiset(records)
    ensures var bottom := SelectExtremes(sorted).bottom5;
      && multiset(bottom) <= multiset(records)
      && forall x, y :: x in bottom && y in multiset(records) - multiset(bottom) ==> y.dist <= x.dist
  {
    var bottom := SelectExtremes(sorted).bottom5;
    var b := |sorted| - |bottom|;
    assert sorted == sorted[..b] + sorted[b..];
    assert multiset(records) == multiset(sorted[..b]) + multiset(bottom);
    SortedSplit(sorted, b);
  }
}
