/** Scoring: one oracle prediction per candidate, then a sort by predicted
    rating, highest first (get_pred_unrated_item in app.py). */
module Scoring {
  import opened RecTypes

  /** Places `p` in front of the first record that scores strictly lower. */
  function InsertByScore(p: Prediction, s: seq<Prediction>): (r: seq<Prediction>)
    ensures |r| == |s| + 1
    ensures multiset(r) == multiset(s) + multiset{p}
    decreases |s|
  {
    if s == [] || p.predicted >= s[0].predicted then [p] + s
    else
      assert s == [s[0]] + s[1..];
      [s[0]] + InsertByScore(p, s[1..])
  }

  /** Inserting into a sorted frame keeps it sorted. */
  lemma {:induction false} InsertKeepsSorted(p: Prediction, s: seq<Prediction>)
    requires SortedByScore(s)
    ensures SortedByScore(InsertByScore(p, s))
    decreases |s|
  {
    if s == [] || p.predicted >= s[0].predicted {
      PrependKeepsSorted(p, s);
    } else {
      var tail := InsertByScore(p, s[1..]);
      assert SortedByScore(tail) by {
        InsertKeepsSorted(p, s[1..]);
      }
      forall j | 0 <= j < |tail| ensures s[0].predicted >= tail[j].predicted {
        assert tail[j] in multiset(s[1..]) + multiset{p};
        if tail[j] != p {
          assert tail[j] in s[1..];
          var m :| 0 <= m < |s[1..]| && s[1..][m] == tail[j];
          assert s[m + 1] == tail[j];
        }
      }
      PrependKeepsSorted(s[0], tail);
    }
  }

  /** The frame sorted by predicted rating, highest first. pandas'
      sort_values is not stable, so any order of tied records is admissible;
      this definition fixes one of them. */
  function SortByScore(s: seq<Prediction>): (r: seq<Prediction>)
    ensures multiset(r) == multiset(s)
    ensures SortedByScore(r)
  {
    if s == [] then []
    else
      assert s == [s[0]] + s[1..];
      InsertKeepsSorted(s[0], SortByScore(s[1..]));
      InsertByScore(s[0], SortByScore(s[1..]))
  }

  /** The prediction frame built from the two parallel lists
      (`pd.DataFrame(pred_dict)`); the user id column is broadcast. */
  function Frame(user: UserId, itemIds: seq<ItemId>, predicted: seq<Score>): seq<Prediction>
    requires |itemIds| == |predicted|
  {
    seq(|itemIds|, k requires 0 <= k < |itemIds| => Prediction(user, itemIds[k], predicted[k]))
  }

  /** The frame holds one record per candidate with its oracle estimate. */
  lemma FrameFacts(user: UserId, oracle: (UserId, ItemId) -> Score, candidates: set<ItemId>,
                   itemIds: seq<ItemId>, predicted: seq<Score>)
    requires |itemIds| == |predicted| == |candidates|
    requires forall i :: i in candidates <==> i in itemIds
    requires forall k :: 0 <= k < |itemIds| ==> predicted[k] == oracle(user, itemIds[k])
    ensures var frame := Frame(user, itemIds, predicted);
      && |frame| == |candidates|
      && ItemSet(frame) == candidates
      && (forall x :: x in frame ==> x.user == user && x.predicted == oracle(user, x.item))
  {
    var frame := Frame(user, itemIds, predicted);
    forall i ensures i in ItemSet(frame) <==> i in candidates {
      if i in candidates {
        var k :| 0 <= k < |itemIds| && itemIds[k] == i;
        assert frame[k] in frame;
      }
    }
  }

  /** Sorting the frame of one estimate per candidate yields one record per
      candidate, each with its oracle estimate, highest first. */
  lemma SortedFrame(user: UserId, oracle: (UserId, ItemId) -> Score, candidates: set<ItemId>,
                    itemIds: seq<ItemId>, predicted: seq<Score>)
    requires |itemIds| == |predicted| == |candidates|
    requires forall i :: i in candidates <==> i in itemIds
    requires forall k :: 0 <= k < |itemIds| ==> predicted[k] == oracle(user, itemIds[k])
    ensures var ranked := SortByScore(Frame(user, itemIds, predicted));
      && |ranked| == |candidates|
      && ItemSet(ranked) == candidates
      && DistinctItems(ranked)
      && (forall x :: x in ranked ==> x.user == user && x.predicted == oracle(user, x.item))
      && SortedByScore(ranked)
  {
    var frame := Frame(user, itemIds, predicted);
    var ranked := SortByScore(frame);
    FrameFacts(user, oracle, candidates, itemIds, predicted);
    PermutationItems(ranked, frame);
    ItemSetSize(ranked);
  }

  /** Calls the oracle once per candidate, collects (item id, prediction) in
      two parallel lists, builds the frame and sorts it. The candidate set is
      visited in an unspecified order. */
  method PredictUnrated(user: UserId, oracle: (UserId, ItemId) -> Score, candidates: set<ItemId>)
    returns (ranked: seq<Prediction>)
    ensures |ranked| == |candidates|
    ensures ItemSet(ranked) == candidates
    ensures DistinctItems(ranked)
    ensures forall x :: x in ranked ==> x.user == user && x.predicted == oracle(user, x.item)
    ensures SortedByScore(ranked)
  {
    var itemIds: seq<ItemId> := [];
    var predicted: seq<Score> := [];
    var remaining := candidates;
    while remaining != {}
      invariant remaining <= candidates
      invariant |itemIds| == |predicted|
      invariant |itemIds| + |remaining| == |candidates|
      invariant forall i :: i in candidates <==> i in remaining || i in itemIds
      invariant forall k :: 0 <= k < |itemIds| ==> itemIds[k] !in remaining
      invariant forall k :: 0 <= k < |itemIds| ==> predicted[k] == oracle(user, itemIds[k])
      decreases remaining
    {
      var id :| id in remaining;
      var est := oracle(user, id);
      itemIds := itemIds + [id];
      predicted := predicted + [est];
      remaining := remaining - {id};
    }
    ranked := SortByScore(Frame(user, itemIds, predicted));
    SortedFrame(user, oracle, candidates, itemIds, predicted);
  }

  /** Removing the record at j takes exactly that record out of the multiset. */
  lemma RemoveOneMultiset(b: seq<Prediction>, j: nat)
    requires j < |b|
    ensures multiset(b[..j] + b[j + 1..]) == multiset(b) - multiset{b[j]}
  {
    assert b == b[..j] + [b[j]] + b[j + 1..];
  }

  /** If the best record of one sorted frame sits at j in another sorted
      permutation, every record up to j ties with it. */
  lemma TopTies(a: seq<Prediction>, b: seq<Prediction>, j: nat)
    requires SortedByScore(a) && SortedByScore(b)
    requires multiset(a) == multiset(b)
    requires 0 < |a| && j < |b| && b[j] == a[0]
    ensures forall i :: 0 <= i <= j ==> b[i].predicted == a[0].predicted
  {
    assert b[0] in multiset(a);
    var m :| 0 <= m < |a| && a[m] == b[0];
    assert b[0].predicted <= a[0].predicted;
  }

  /** The first record of `a` sits at some j in any permutation `b`;
      removing it there leaves a permutation of a's tail. */
  lemma MatchHead(a: seq<Prediction>, b: seq<Prediction>) returns (j: nat)
    requires multiset(a) == multiset(b) && a != []
    ensures j < |b| && b[j] == a[0]
    ensures multiset(a[1..]) == multiset(b[..j] + b[j + 1..])
  {
    assert a[0] in multiset(b) by {
      assert a[0] in a;
    }
    j :| 0 <= j < |b| && b[j] == a[0];
    assert a == [a[0]] + a[1..];
    RemoveOneMultiset(b, j);
  }

  /** One step of SortedScoresUnique: the head of `a` is removed from `b` at
      some j, which leaves `b'`, a sorted permutation of a's tail; every
      record of b up to j ties with that head. */
  lemma RemoveHead(a: seq<Prediction>, b: seq<Prediction>) returns (j: nat, b': seq<Prediction>)
    requires SortedByScore(a) && SortedByScore(b)
    requires multiset(a) == multiset(b) && a != []
    ensures j < |b| && |b'| == |b| - 1
    ensures forall i :: 0 <= i < j ==> b'[i] == b[i]
    ensures forall i :: j <= i < |b'| ==> b'[i] == b[i + 1]
    ensures multiset(a[1..]) == multiset(b')
    ensures SortedByScore(a[1..]) && SortedByScore(b')
    ensures forall i :: 0 <= i <= j ==> b[i].predicted == a[0].predicted
  {
    j := MatchHead(a, b);
    b' := b[..j] + b[j + 1..];
    RemoveKeepsSorted(b, j);
    RemoveKeepsSorted(a, 0);
    assert a[..0] + a[1..] == a[1..];
    TopTies(a, b, j);
  }

  /** The index bookkeeping of SortedScoresUnique: a's tail matches b with
      position j removed, and b ties with a's head up to j. */
  lemma ScoresAfterRemoval(a: seq<Prediction>, b: seq<Prediction>, b': seq<Prediction>, j: nat)
    requires 0 < |a| == |b| && j < |b| && |b'| == |b| - 1
    requires forall i :: 0 <= i < j ==> b'[i] == b[i]
    requires forall i :: j <= i < |b'| ==> b'[i] == b[i + 1]
    requires forall i :: 0 <= i < |b'| ==> a[1..][i].predicted == b'[i].predicted
    requires forall i :: 0 <= i <= j ==> b[i].predicted == a[0].predicted
    ensures forall i :: 0 <= i < |a| ==> a[i].predicted == b[i].predicted
  {
    forall i | 0 <= i < |a| ensures a[i].predicted == b[i].predicted {
      if 0 < i <= j {
        assert a[1..][i - 1] == a[i] && b'[i - 1] == b[i - 1];
      } else if j < i {
        assert a[1..][i - 1] == a[i] && b'[i - 1] == b[i];
      }
    }
  }

  /** Two sorted orders of the same records differ only among ties: they
      have the same sequence of predicted ratings. */
  lemma {:induction false} SortedScoresUnique(a: seq<Prediction>, b: seq<Prediction>)
    requires SortedByScore(a) && SortedByScore(b)
    requires multiset(a) == multiset(b)
    ensures |a| == |b|
    ensures forall i :: 0 <= i < |a| ==> a[i].predicted == b[i].predicted
    decreases |a|
  {
    assert |multiset(a)| == |multiset(b)|;
    if a != [] {
      var j, b' := RemoveHead(a, b);
      SortedScoresUnique(a[1..], b');
      ScoresAfterRemoval(a, b, b', j);
    }
  }
}
