/** Candidate selection: the items a user has not rated yet
    (get_unrated_item in app.py). */
module CandidateSelection {
  import opened RecTypes

  /** Every item id that appears anywhere in the rating table. The ensures
      restates membership by row index, the form Unrated's contract uses. */
  function AllItems(rows: seq<RatingRow>): (r: set<ItemId>)
    ensures forall i :: i in r <==> exists k :: 0 <= k < |rows| && rows[k].item == i
  {
    set row | row in rows :: row.item
  }

  /** The item ids of the rows whose user id is `user`, with membership
      restated by row index for Unrated's contract. */
  function RatedBy(rows: seq<RatingRow>, user: UserId): (r: set<ItemId>)
    ensures forall i :: i in r <==> exists k :: 0 <= k < |rows| && rows[k].user == user && rows[k].item == i
  {
    set row | row in rows && row.user == user :: row.item
  }

  /** The items rated by anyone but not by `user`. An unknown user has no
      rows, so every item in the table is a candidate; this is not an error. */
  function Unrated(user: UserId, rows: seq<RatingRow>): (r: set<ItemId>)
    ensures r <= AllItems(rows)
    ensures r !! RatedBy(rows, user)
    ensures forall i :: i in r <==>
      (exists k :: 0 <= k < |rows| && rows[k].item == i) &&
      (forall k :: 0 <= k < |rows| && rows[k].user == user ==> rows[k].item != i)
    ensures (forall k :: 0 <= k < |rows| ==> rows[k].user != user) ==> r == AllItems(rows)
  {
    AllItems(rows) - RatedBy(rows, user)
  }

  /** Adding a row can only take an item away from the rater's candidates and
      can only add the row's item for everyone else. */
  lemma UnratedAppend(user: UserId, rows: seq<RatingRow>, row: RatingRow)
    ensures row.user == user ==> Unrated(user, rows + [row]) == Unrated(user, rows) - {row.item}
    ensures row.user != user ==>
      Unrated(user, rows + [row]) ==
        Unrated(user, rows) + (if row.item in RatedBy(rows, user) then {} else {row.item})
  { }

  /** A three-row example table: user 1 has rated both items
      that occur in the table, so user 1 has no candidates; user 2 has one. */
  lemma ThreeRowTable()
    ensures var rows := [RatingRow(1, "A", 5.0), RatingRow(1, "B", 3.0), RatingRow(2, "A", 4.0)];
      Unrated(1, rows) == {} && Unrated(2, rows) == {"B"} && Unrated(3, rows) == {"A", "B"}
  { }
}
