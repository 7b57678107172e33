# Book recommendation pipeline — a Dafny model

This project models the inference pipeline of a book recommender that uses a
collaborative-filtering rating predictor (a Surprise SVD model). For a user it
does three things:

1. **Candidate selection.** It collects every item id in the rating table and
   removes the ones this user has rated.
2. **Scoring.** It asks the rating predictor (the *oracle*) for one estimate
   per candidate, builds a frame of `(user_id, item_id, predicted_rating)`
   rows and sorts it by predicted rating, highest first.
3. **Ranking.** It keeps the rows whose item is a key of the book catalog,
   takes the first `k` of them and returns their catalog rows (title, author,
   year, publisher), indexed by ISBN.

Modules, with one file each:

- `RecTypes` (`Types.dfy`) holds the data model: rating rows, catalog entries,
  prediction records and recommendations. It also defines the predicates
  "sorted by score" and "distinct item ids".
- `CandidateSelection` (`CandidateSelection.dfy`) holds pure set functions.
- `Scoring` (`Scoring.dfy`) holds an imperative method. Its loop walks the
  candidate set in an unspecified order and appends to two parallel lists,
  as the source does. It then sorts the frame with a pure sort function.
- `Ranking` (`Ranking.dfy`) holds pure functions for the filter, the prefix
  and the catalog lookup.
- `Pipeline` (`Pipeline.dfy`) holds the whole request as a method, and lemmas
  that carry the scoring stage's guarantees through the ranking stage.

The oracle is a parameter `oracle: (UserId, ItemId) -> Score`, a total
function; its internals are not modelled. Item ids are strings (ISBNs),
user ids are integers, and scores are reals. Only score comparison is used.

Three consequences of the code shape the contracts:

- The result holds only the catalog rows (`metadata.loc[ids, :]`), without
  the predicted rating. So a `Recommendation` here is an ISBN plus its
  catalog entry, and the ordering guarantee is stated through
  `oracle(user, item)`.
- The code applies no secondary sort key, and pandas' sort is not stable.
  So the model promises "sorted by predicted rating, highest first, and a
  permutation of the scored records", not a tie order.
- Candidates come only from item ids that occur in the rating table. An
  item known only to the catalog is never recommended.
  `CandidateSelection.ThreeRowTable` shows this on a three-row table: user 1
  has rated every item in it and gets no candidates.

## Model

| member | source | states |
|---|---|---|
| CandidateSelection.AllItems | app.py:35 | an id is in the result exactly when some row of the table carries it |
| CandidateSelection.RatedBy | app.py:38 | an id is in the result exactly when some row of this user carries it |
| CandidateSelection.Unrated | app.py:17-43 | the candidates are a subset of all item ids and disjoint from the user's rated ids; an id is a candidate iff some row carries it and no row of this user does; a user with no rows (including an unknown id) gets the full item set |
| CandidateSelection.UnratedAppend | app.py:35-41 | one more row removes its item from its rater's candidates and, for any other user, adds the item exactly when that user has not rated it |
| CandidateSelection.ThreeRowTable | app.py:35-41 | on the three-row example table, user 1 has no candidates, user 2 has {"B"} and an unknown user 3 has {"A","B"} |
| Scoring.InsertByScore | app.py:85-86 | inserting a record adds exactly that record: length grows by one and the multiset gains the record |
| Scoring.InsertKeepsSorted | app.py:85-86 | inserting into a frame sorted by descending prediction keeps it sorted |
| Scoring.SortByScore | app.py:85-86 | the sorted frame is a permutation (same multiset) of the unsorted frame and is non-increasing in predicted rating |
| Scoring.FrameFacts | app.py:75-84 | the frame built from the two parallel lists has one record per candidate, each carrying the user id and the oracle's estimate for its item |
| Scoring.SortedFrame | app.py:84-86 | sorting that frame yields as many records as candidates, item ids exactly the candidates with none repeated, each record's estimate from the oracle, non-increasing in predicted rating |
| Scoring.PredictUnrated | app.py:47-88 | one record per candidate: as many records as candidates, their item ids are exactly the candidates with none repeated, each carries the user id and the oracle's estimate for (user, item), and the frame is non-increasing in predicted rating |
| Scoring.SortedScoresUnique | app.py:85-86 | two sorted orders of the same records have the same length and the same predicted rating at every position, so an unstable sort changes only the order among ties |
| Ranking.Available | app.py:125 | keeps exactly the records whose item id is a catalog key, and is no longer than its input |
| Ranking.AvailableSorted | app.py:125 | filtering a frame sorted by descending prediction leaves it sorted |
| Ranking.AvailableDistinct | app.py:125 | filtering a frame with distinct item ids leaves them distinct |
| Ranking.AvailableAppend | app.py:125 | the filter distributes over concatenation, so records keep their relative order |
| Ranking.AvailableCount | app.py:125 | on distinct ids, the kept ids are the scored ids that are catalog keys, one record each |
| Ranking.Head | app.py:128 | the result is the prefix of length min(k, length) |
| Ranking.Details | app.py:132 | one row per chosen record, in the same order, each the catalog entry of that record's id |
| Ranking.Rank | app.py:124-132 | length min(k, number of available records), hence at most k (k = 0 gives nothing); each row is the catalog entry of a catalog key; the i-th row is for the i-th available record; every returned id was scored |
| Ranking.RankIsTopK | app.py:125-128 | on a sorted frame with distinct ids, a scored catalog item that is not returned predicts no higher than any returned one |
| Pipeline.RankMembers | app.py:116-134 | ranking a scored frame yields min(k, number of candidates in the catalog) rows, all for candidates, with no id repeated |
| Pipeline.RankOrdered | app.py:116-134 | ranking a scored frame yields rows in non-increasing order of the oracle's estimate |
| Pipeline.RankRepeatable | app.py:116-134 | two scored frames for the same user, oracle and candidates (for example, two runs whose set iteration or tie order differ) rank to the same number of rows with the same oracle estimate at every position |
| Pipeline.TopHighestUnrated | app.py:90-134 | the request returns min(k, number of unrated catalog items) distinct catalog rows, each the catalog entry of an unrated item, ordered by the oracle's estimate highest first, and no unrated catalog item left out has a higher estimate than a returned one |

## Left out

- The web UI: the text input, the button, printing and rendering of the results (app.py:137-165). These are presentation I/O.
- Loading the configuration, unpickling the model and reading and renaming the CSV tables (app.py:5-13). These are file I/O; the model receives the rows and the catalog as values.
- The user table (app.py:10). It is loaded but never used.
- Converting the raw input with `int(user_id)` (app.py:147). This is input validation in the UI layer.
- The internals of the SVD estimator and the floating-point value of `.est`. The oracle is an abstract total function to reals.
- Oracle failures. The predictor is modelled as total, so an exception raised inside `predict` is not represented.
- pandas frame mechanics, such as duplicate index labels in `metadata.loc`. The catalog is a map with unique keys.
- Ranking.Head: `k` is a `nat`. pandas `head(k)` with negative `k` drops the last `|k|` rows; that behaviour is not modelled.
- Scoring.SortByScore: it fixes one tie order, an insertion sort that puts a new record before equal scores. pandas' unstable sort may order ties differently. Scoring.PredictUnrated and the pipeline promise nothing about tie order.
- Pipeline.RankRepeatable: two identical requests are proved to return the same sequence of estimates, not the same sequence of items. Tied items may come back in a different order, or a different tied item may fill the last place, because the source fixes no tie-break.
