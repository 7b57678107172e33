/** Ranking: keep the scored records whose item is in the catalog, take the
    first k of them and fetch their catalog rows (steps 3 to 5 of
    get_top_highest_unrated in app.py). */
module Ranking {
  import opened RecTypes

  /** The records whose item id is a catalog key, in their original order
      (the `isin(metadata.index)` mask). */
  function Available(s: seq<Prediction>, catalog: Catalog): (r: seq<Prediction>)
    ensures |r| <= |s|
    ensures forall x :: x in r <==> x in s && x.item in catalog
  {
    if s == [] then []
    else
      assert s == [s[0]] + s[1..];
      var rest := Available(s[1..], catalog);
      if s[0].item in catalog then [s[0]] + rest else rest
  }

  /** Dropping records keeps a frame sorted. */
  lemma {:induction false} AvailableSorted(s: seq<Prediction>, catalog: Catalog)
    requires SortedByScore(s)
    ensures SortedByScore(Available(s, catalog))
  {
    if s != [] {
      var tail := s[1..];
      var rest := Available(tail, catalog);
      assert SortedByScore(tail) by {
        RemoveKeepsSorted(s, 0);
        assert s[..0] + s[1..] == tail;
      }
      AvailableSorted(tail, catalog);
      if s[0].item in catalog {
        assert forall j :: 0 <= j < |rest| ==> s[0].predicted >= rest[j].predicted by {
          HeadBoundsTail(s);
          assert forall j :: 0 <= j < |rest| ==> rest[j] in tail;
        }
        PrependKeepsSorted(s[0], rest);
      }
    }
  }

  /** Dropping records keeps item ids distinct. */
  lemma {:induction false} AvailableDistinct(s: seq<Prediction>, catalog: Catalog)
    requires DistinctItems(s)
    ensures DistinctItems(Available(s, catalog))
  {
    if s != [] {
      var tail := s[1..];
      var rest := Available(tail, catalog);
      assert s == [s[0]] + tail;
      DistinctCons(s[0], tail);
      AvailableDistinct(tail, catalog);
      if s[0].item in catalog {
        assert s[0].item !in ItemSet(rest);
        DistinctCons(s[0], rest);
      }
    }
  }

  /** The filter works record by record: filtering a concatenation is the
      concatenation of the filtered parts, so relative order is kept. */
  lemma {:induction false} AvailableAppend(a: seq<Prediction>, b: seq<Prediction>, catalog: Catalog)
    ensures Available(a + b, catalog) == Available(a, catalog) + Available(b, catalog)
  {
    if a == [] {
      assert a + b == b;
    } else {
      assert (a + b)[0] == a[0];
      assert (a + b)[1..] == a[1..] + b;
      AvailableAppend(a[1..], b, catalog);
    }
  }

  /** On records with distinct item ids, the filter keeps one record per
      candidate item that the catalog knows. */
  lemma AvailableCount(s: seq<Prediction>, catalog: Catalog)
    requires DistinctItems(s)
    ensures ItemSet(Available(s, catalog)) == ItemSet(s) * catalog.Keys
    ensures |Available(s, catalog)| == |ItemSet(s) * catalog.Keys|
  {
    var r := Available(s, catalog);
    AvailableDistinct(s, catalog);
    assert ItemSet(r) == ItemSet(s) * catalog.Keys;
    ItemSetSize(r);
  }

  /** The first k records, or all of them when there are fewer (`head(k)`). */
  function Head(s: seq<Prediction>, k: nat): (r: seq<Prediction>)
    ensures |r| == Min(k, |s|)
    ensures r == s[..|r|]
  {
    if k < |s| then s[..k] else s
  }

  /** The catalog rows of the chosen records, in the same order
      (`metadata.loc[ids, :]`). Every id must be a catalog key. */
  function Details(top: seq<Prediction>, catalog: Catalog): (r: seq<Recommendation>)
    requires forall x :: x in top ==> x.item in catalog
    ensures |r| == |top|
    ensures forall i :: 0 <= i < |r| ==> r[i].item == top[i].item && r[i].entry == catalog[top[i].item]
  {
    seq(|top|, i requires 0 <= i < |top| => Recommendation(top[i].item, catalog[top[i].item]))
  }

  /** Filter, truncate to k, join with the catalog. */
  function Rank(scored: seq<Prediction>, k: nat, catalog: Catalog): (r: seq<Recommendation>)
    ensures |r| == Min(k, |Available(scored, catalog)|)
    ensures |r| <= k
    ensures forall i :: 0 <= i < |r| ==> r[i].item in catalog && r[i].entry == catalog[r[i].item]
    ensures forall i :: 0 <= i < |r| ==> r[i].item == Available(scored, catalog)[i].item
    ensures forall q :: q in r ==> exists x :: x in scored && x.item == q.item
  {
    var top := Head(Available(scored, catalog), k);
    var r := Details(top, catalog);
    assert forall q :: q in r ==> exists i :: 0 <= i < |top| && q.item == top[i].item;
    r
  }

  /** On a sorted frame with distinct item ids, the ranking is a true top-k:
      every catalog item that was scored but not returned predicts no higher
      than any returned item. */
  lemma RankIsTopK(scored: seq<Prediction>, k: nat, catalog: Catalog)
    requires SortedByScore(scored) && DistinctItems(scored)
    ensures var r := Rank(scored, k, catalog);
      forall x, y ::
        (x in scored && y in scored && x.item in catalog &&
         x.item !in RecommendedItems(r) && y.item in RecommendedItems(r)) ==> x.predicted <= y.predicted
  {
    AvailableSorted(scored, catalog);
    AvailableDistinct(scored, catalog);
  }
}
