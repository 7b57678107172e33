/** Shared data of the recommendation pipeline: the rating table rows, the
    book catalog, the per-request prediction records and the returned
    recommendations. */
module RecTypes {

  type UserId = int
  /** Item identifiers are ISBN codes, i.e. strings. */
  type ItemId = string
  /** A predicted rating; only its ordering is ever used. */
  type Score = real

  /** One row of the rating table: (user_id, item_id, rating). */
  datatype RatingRow = RatingRow(user: UserId, item: ItemId, rating: real)

  /** The descriptive columns of one catalog row. */
  datatype CatalogEntry = CatalogEntry(title: string, author: string, year: string, publisher: string)

  /** The book catalog, keyed uniquely by ISBN. */
  type Catalog = map<ItemId, CatalogEntry>

  /** One row of the prediction frame: (user_id, item_id, predicted_rating). */
  datatype Prediction = Prediction(user: UserId, item: ItemId, predicted: Score)

  /** One returned row: the catalog entry, indexed by its ISBN. */
  datatype Recommendation = Recommendation(item: ItemId, entry: CatalogEntry)

  /** Non-increasing in predicted rating. */
  predicate SortedByScore(s: seq<Prediction>)
  {
    forall i, j :: 0 <= i < j < |s| ==> s[i].predicted >= s[j].predicted
  }

  /** No item id occurs in two records. */
  predicate DistinctItems(s: seq<Prediction>)
  {
    forall i, j :: 0 <= i < j < |s| ==> s[i].item != s[j].item
  }

  /** The item ids of a sequence of records. */
  function ItemSet(s: seq<Prediction>): set<ItemId>
  {
    set x | x in s :: x.item
  }

  /** The item ids of a sequence of recommendations. */
  function RecommendedItems(r: seq<Recommendation>): set<ItemId>
  {
    set q | q in r :: q.item
  }

  function Min(a: int, b: int): int
  {
    if a <= b then a else b
  }

  lemma ItemSetCons(x: Prediction, rest: seq<Prediction>)
    ensures ItemSet([x] + rest) == {x.item} + ItemSet(rest)
  { }

  lemma DistinctCons(x: Prediction, rest: seq<Prediction>)
    ensures DistinctItems([x] + rest) <==> x.item !in ItemSet(rest) && DistinctItems(rest)
  {
    var s := [x] + rest;
    if DistinctItems(s) {
      forall y | y in rest ensures y.item != x.item {
        var j :| 0 <= j < |rest| && rest[j] == y;
        assert s[0] == x && s[j + 1] == y;
        assert s[0].item != s[j + 1].item;
      }
      forall i, j | 0 <= i < j < |rest| ensures rest[i].item != rest[j].item {
        assert s[i + 1] == rest[i] && s[j + 1] == rest[j];
      }
    }
    if x.item !in ItemSet(rest) && DistinctItems(rest) {
      forall i, j | 0 <= i < j < |s| ensures s[i].item != s[j].item {
        if i == 0 {
          assert s[j] in rest;
        } else {
          assert rest[i - 1] == s[i] && rest[j - 1] == s[j];
        }
      }
    }
  }

  /** A sequence of records has as many distinct item ids as records exactly
      when no item id repeats; in general it has no more. */
  lemma {:induction false} ItemSetSize(s: seq<Prediction>)
    ensures |ItemSet(s)| <= |s|
    ensures |ItemSet(s)| == |s| <==> DistinctItems(s)
  {
    if s != [] {
      var rest := s[1..];
      assert s == [s[0]] + rest;
      ItemSetSize(rest);
      ItemSetCons(s[0], rest);
      DistinctCons(s[0], rest);
    }
  }

  /** With distinct item ids no record occurs twice. */
  lemma {:induction false} DistinctOnce(s: seq<Prediction>)
    requires DistinctItems(s)
    ensures forall x :: multiset(s)[x] <= 1
  {
    if s != [] {
      var rest := s[1..];
      assert s == [s[0]] + rest;
      DistinctCons(s[0], rest);
      DistinctOnce(rest);
      forall x ensures multiset(s)[x] <= 1 {
        if x == s[0] {
          assert x !in rest;
        }
      }
    }
  }

  /** Two sequences with distinct item ids and the same records are
      permutations of each other. */
  lemma DistinctSameElements(a: seq<Prediction>, b: seq<Prediction>)
    requires DistinctItems(a) && DistinctItems(b)
    requires forall x :: x in a <==> x in b
    ensures multiset(a) == multiset(b)
  {
    DistinctOnce(a);
    DistinctOnce(b);
    forall x ensures multiset(a)[x] == multiset(b)[x] {
      assert x in multiset(a) <==> x in a;
      assert x in multiset(b) <==> x in b;
    }
  }

  /** A record that scores at least as high as every record of a sorted
      frame can head it. */
  lemma PrependKeepsSorted(x: Prediction, s: seq<Prediction>)
    requires SortedByScore(s)
    requires forall j :: 0 <= j < |s| ==> x.predicted >= s[j].predicted
    ensures SortedByScore([x] + s)
  {
    var r := [x] + s;
    forall i, j | 0 <= i < j < |r| ensures r[i].predicted >= r[j].predicted {
      if i > 0 {
        assert r[i] == s[i - 1];
      }
      assert r[j] == s[j - 1];
    }
  }

  /** Removing one record keeps a frame sorted. */
  lemma RemoveKeepsSorted(b: seq<Prediction>, j: nat)
    requires j < |b| && SortedByScore(b)
    ensures SortedByScore(b[..j] + b[j + 1..])
  { }

  /** A permutation has the same length, the same records and the same item ids. */
  lemma PermutationItems(a: seq<Prediction>, b: seq<Prediction>)
    requires multiset(a) == multiset(b)
    ensures |a| == |b|
    ensures forall x :: x in a <==> x in b
    ensures ItemSet(a) == ItemSet(b)
  {
    assert |multiset(a)| == |multiset(b)|;
    forall x ensures x in a <==> x in b {
      assert x in a <==> x in multiset(a);
      assert x in b <==> x in multiset(b);
    }
  }

  /** The head of a sorted frame scores at least as high as every record after it. */
  lemma HeadBoundsTail(s: seq<Prediction>)
    requires s != [] && SortedByScore(s)
    ensures forall x :: x in s[1..] ==> s[0].predicted >= x.predicted
  {
    forall x | x in s[1..] ensures s[0].predicted >= x.predicted {
      var m :| 0 <= m < |s| - 1 && s[1..][m] == x;
      assert s[m + 1] == x;
    }
  }
}
