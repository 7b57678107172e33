/** The whole request: candidates, scores, top-k catalog rows
    (get_top_highest_unrated in app.py). */
module Pipeline {
  import opened RecTypes
  import opened CandidateSelection
  import opened Scoring
  import opened Ranking

  /** What the scoring stage promises about its frame for `candidates`. */
  predicate ScoredFrame(scored: seq<Prediction>, user: UserId, oracle: (UserId, ItemId) -> Score,
                        candidates: set<ItemId>)
  {
    && ItemSet(scored) == candidates
    && DistinctItems(scored)
    && SortedByScore(scored)
    && (forall x :: x in scored ==> x.user == user && x.predicted == oracle(user, x.item))
  }

  /** Every ranked row is a catalog row of a distinct candidate, and the
      ranking has min(k, #available candidates) rows. */
  lemma RankMembers(scored: seq<Prediction>, user: UserId, oracle: (UserId, ItemId) -> Score,
                    candidates: set<ItemId>, k: nat, catalog: Catalog)
    requires ScoredFrame(scored, user, oracle, candidates)
    ensures var recs := Rank(scored, k, catalog);
      && |recs| == Min(k, |candidates * catalog.Keys|)
      && (forall i :: 0 <= i < |recs| ==> recs[i].item in candidates)
      && (forall i, j :: 0 <= i < j < |recs| ==> recs[i].item != recs[j].item)
  {
    var recs := Rank(scored, k, catalog);
    var avail := Available(scored, catalog);
    AvailableDistinct(scored, catalog);
    AvailableCount(scored, catalog);
    forall i | 0 <= i < |recs| ensures recs[i].item in candidates {
      assert avail[i] in scored;
    }
    forall i, j | 0 <= i < j < |recs| ensures recs[i].item != recs[j].item {
      assert avail[i].item != avail[j].item;
    }
  }

  /** The ranked rows are ordered by the oracle's estimate, best first. */
  lemma RankOrdered(scored: seq<Prediction>, user: UserId, oracle: (UserId, ItemId) -> Score,
                    candidates: set<ItemId>, k: nat, catalog: Catalog)
    requires ScoredFrame(scored, user, oracle, candidates)
    ensures var recs := Rank(scored, k, catalog);
      forall i, j :: 0 <= i < j < |recs| ==> oracle(user, recs[i].item) >= oracle(user, recs[j].item)
  {
    var recs := Rank(scored, k, catalog);
    var avail := Available(scored, catalog);
    AvailableSorted(scored, catalog);
    forall i, j | 0 <= i < j < |recs| ensures oracle(user, recs[i].item) >= oracle(user, recs[j].item) {
      assert avail[i] in scored && avail[j] in scored;
    }
  }

  /** Two admissible scored frames hold the same records. */
  lemma SameRecords(s1: seq<Prediction>, s2: seq<Prediction>, user: UserId,
                    oracle: (UserId, ItemId) -> Score, candidates: set<ItemId>)
    requires ScoredFrame(s1, user, oracle, candidates) && ScoredFrame(s2, user, oracle, candidates)
    ensures forall x :: x in s1 <==> x in s2
  {
    forall x | x in s1 ensures x in s2 {
      assert x.item in ItemSet(s2);
      var y :| y in s2 && y.item == x.item;
    }
    forall x | x in s2 ensures x in s1 {
      assert x.item in ItemSet(s1);
      var y :| y in s1 && y.item == x.item;
    }
  }

  /** Two requests with the same inputs may order tied items differently,
      but they return the same number of rows and the same sequence of
      predicted ratings. */
  lemma RankRepeatable(s1: seq<Prediction>, s2: seq<Prediction>, user: UserId,
                       oracle: (UserId, ItemId) -> Score, candidates: set<ItemId>, k: nat, catalog: Catalog)
    requires ScoredFrame(s1, user, oracle, candidates) && ScoredFrame(s2, user, oracle, candidates)
    ensures |Rank(s1, k, catalog)| == |Rank(s2, k, catalog)|
    ensures forall i :: 0 <= i < |Rank(s1, k, catalog)| ==>
      oracle(user, Rank(s1, k, catalog)[i].item) == oracle(user, Rank(s2, k, catalog)[i].item)
  {
    var a1 := Available(s1, catalog);
    var a2 := Available(s2, catalog);
    assert multiset(a1) == multiset(a2) by {
      SameRecords(s1, s2, user, oracle, candidates);
      AvailableDistinct(s1, catalog);
      AvailableDistinct(s2, catalog);
      DistinctSameElements(a1, a2);
    }
    assert |a1| == |a2| && forall i :: 0 <= i < |a1| ==> a1[i].predicted == a2[i].predicted by {
      AvailableSorted(s1, catalog);
      AvailableSorted(s2, catalog);
      SortedScoresUnique(a1, a2);
    }
    var r1 := Rank(s1, k, catalog);
    var r2 := Rank(s2, k, catalog);
    forall i | 0 <= i < |r1| ensures oracle(user, r1[i].item) == oracle(user, r2[i].item) {
      assert a1[i] in s1 && a2[i] in s2;
    }
  }

  /** The catalog rows of the k unrated catalog books with the highest
      predicted rating for `user`, best first. */
  method TopHighestUnrated(oracle: (UserId, ItemId) -> Score, k: nat, user: UserId,
                           rows: seq<RatingRow>, catalog: Catalog)
    returns (recs: seq<Recommendation>)
    ensures |recs| == Min(k, |Unrated(user, rows) * catalog.Keys|)
    ensures forall i :: 0 <= i < |recs| ==>
      recs[i].item in Unrated(user, rows) && recs[i].item in catalog && recs[i].entry == catalog[recs[i].item]
    ensures forall i, j :: 0 <= i < j < |recs| ==> recs[i].item != recs[j].item
    ensures forall i, j :: 0 <= i < j < |recs| ==> oracle(user, recs[i].item) >= oracle(user, recs[j].item)
    ensures forall id, i ::
      (id in Unrated(user, rows) && id in catalog && id !in RecommendedItems(recs) && 0 <= i < |recs|) ==>
        oracle(user, id) <= oracle(user, recs[i].item)
  {
    var candidates := Unrated(user, rows);
    var scored := PredictUnrated(user, oracle, candidates);
    recs := Rank(scored, k, catalog);
    RankMembers(scored, user, oracle, candidates, k, catalog);
    RankOrdered(scored, user, oracle, candidates, k, catalog);
    RankIsTopK(scored, k, catalog);
  }
}
