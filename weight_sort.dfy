/**
 * Ordering a collection by weight. The collection hands its assets to PHP's
 * `usort` with a comparison closure; the sorting algorithm is PHP's own, so
 * it stands here as an insertion sort driven by that closure, and what is
 * stated about its result is only what any correct sort with that closure
 * gives: the same assets, weights non-decreasing. The order of equal
 * weights is left open.
 */
module WeightSort {
  import opened AssetRecords

  /** The closure given to usort: zero for equal weights, otherwise the difference. */
  function Compare(a: Asset, b: Asset): (r: int)
    ensures r < 0 <==> a.weight < b.weight
    ensures r == 0 <==> a.weight == b.weight
    ensures r > 0 <==> a.weight > b.weight
  {
    if a.weight == b.weight then 0 else a.weight - b.weight
  }

  ghost predicate SortedByWeight(xs: seq<Asset>) {
    forall i, j :: 0 <= i < j < |xs| ==> xs[i].weight <= xs[j].weight
  }

  function Insert(x: Asset, ys: seq<Asset>): (r: seq<Asset>)
    ensures multiset(r) == multiset(ys) + multiset{x}
    decreases |ys|
  {
    if ys == [] || Compare(x, ys[0]) <= 0 then [x] + ys
    else
      assert ys == [ys[0]] + ys[1..];
      [ys[0]] + Insert(x, ys[1..])
  }

  /** Inserting into a sorted list keeps it sorted. */
  lemma {:induction false} InsertKeepsSorted(x: Asset, ys: seq<Asset>)
    requires SortedByWeight(ys)
    ensures SortedByWeight(Insert(x, ys))
    decreases |ys|
  {
    if ys != [] && Compare(x, ys[0]) > 0 {
      var rest := Insert(x, ys[1..]);
      InsertKeepsSorted(x, ys[1..]);
      forall j | 0 <= j < |rest| ensures ys[0].weight <= rest[j].weight {
        assert rest[j] in multiset(rest);
        if rest[j] != x {
          assert rest[j] in multiset(ys[1..]);
          var k :| 0 <= k < |ys[1..]| && ys[1..][k] == rest[j];
          assert ys[k + 1] == rest[j];
        }
      }
      assert Insert(x, ys) == [ys[0]] + rest;
    }
  }

  /** The stand-in for usort: a sorted permutation of the assets. */
  function SortByWeight(xs: seq<Asset>): (r: seq<Asset>)
    ensures multiset(r) == multiset(xs)
    ensures |r| == |xs|
    ensures SortedByWeight(r)
  {
    if xs == [] then []
    else
      assert xs == [xs[0]] + xs[1..];
      var sortedRest := SortByWeight(xs[1..]);
      InsertKeepsSorted(xs[0], sortedRest);
      Insert(xs[0], sortedRest)
  }

  /**
   * Weights alone fix the order of assets whose weights differ: of two assets,
   * every sorted arrangement puts the lighter first, whatever the sort does with ties.
   */
  lemma LighterComesFirst(a: Asset, b: Asset, r: seq<Asset>)
    requires a.weight < b.weight
    requires multiset(r) == multiset([b, a]) && SortedByWeight(r)
    ensures r == [a, b]
  {
    assert |r| == 2 by {
      assert |multiset(r)| == |r|;
    }
    assert r[0] in multiset(r) && r[1] in multiset(r);
    assert r == [r[0], r[1]];
  }
}
