# ML_Recommender in Dafny

This project models the discrete core of the ML_Recommender listing recommender. It covers
three recommenders, their offline evaluators and the preprocessing step that attaches
visitors to listings:

- **Interaction index** (`interaction_matrix.dfy`). The item-based recommender builds a
  sparse user × listing count matrix from each listing's `visitors`. User and listing ids
  get dense indices in sorted order, inverse maps are kept, and the parallel `rows`/`cols`
  coordinate lists are summed into a count matrix.
- **Item-based recommender** (`item_based_modeling.dfy`). This is a class. It fills an
  `array2` similarity matrix band by band (`create_similarity_matrix`) and lists a user's
  visited listings. To recommend, it ranks one row of the similarity matrix and keeps
  the entries ranked 2..topn+1. The row it reads is the table position of the user's
  first visited listing, although matrix rows are numbered by sorted listing id (see
  "## Findings").
- **Content-based recommender** (`content_based_modeling.dfy`). A user profile is the mean
  of the feature rows of the known visited listings. Recommendations walk the
  similarity ranking, skip visited ids, and stop at `topn`.
- **Collaborative recommender** (`collaborative_modeling.dfy`). This is a query over a given
  similarity matrix and listing-id list.
- **Evaluators**:
  - `item_based_evaluate.dfy`: user→listings maps, Precision@K and Recall@K, sampling of
    eligible users, skip-on-error accumulation and means.
  - `content_based_evaluate.dfy`: the same for the content-based model, with a half/half
    train/test split of each history.
  - `collaborative_evaluate.dfy`: precision against highly rated listings, and its mean
    over users.
- **Preprocessing** (`preprocessing.dfy`). Reviews are grouped by listing, left-joined onto
  the listing table, and missing groups are filled with `[]`.

Shared pieces:

- `listings.dfy` holds the listing table (`Listing(id, visitors)`), its users, visited
  listings and per-user histories, and the loop that builds the user→listings map.
- `ranking.dfy` holds the descending-score ranking used for every top-N selection.
- `common.dfy` holds errors, `Result`/`Option`, Python slicing, sets and means.

Modelling conventions:

- Similarity (`cosine_similarity`) is a function value handed to each model. Similarities
  and means are `real`.
- Python exceptions become `Err` values of `Common.Error`. Code paths that catch them
  return their fallback.
- The output of `random.sample` is a parameter of each `evaluate_model`. Its `requires`
  says what `random.sample` returns: distinct eligible users, as many as
  `min(sample_size, number eligible)`.

Behaviour of the code worth noting:

- Item-based recommendations drop the top-ranked entry of the ranked row, which the
  comment at ItemBased_Modeling.py:139 takes to be the query listing itself. When another
  entry scores at least as high, that one is dropped instead.
  `ItemBasedRecommender.RecommendedRows` states what is dropped.
- In content-based recommendation, `topn <= 0` still yields the first ranked listing when it
  was not visited: the append comes before the length check. See
  `ContentBasedModeling.KeptFirstOnly`.
- A negative `batch_size` is accepted: `range` is then empty and the similarity matrix
  stays all zero. Only `0` is rejected. See `ItemBasedRecommender.CreateSimilarityMatrix`.
- In `evaluate_single_user`, the `except` branch cannot fire. The recommender catches its
  own errors, and the test half is never empty. The model therefore returns `None` only
  below two visits.

## Model

| member | source | states |
|---|---|---|
| Listings.UsersOfMembers | ItemBased_Modeling.py:26-30 | a user is among the distinct users exactly when some row's visitors contain them |
| Listings.VisitedListingsMembers | ItemBased_Modeling.py:109-113 | an id is in a user's visited list exactly when some row with that id lists the user as a visitor |
| Listings.History | ContentBased_evaluate.py:16-26 | a user's history is empty exactly when the user occurs in no visitors list |
| Listings.HistoryMembers | ContentBased_evaluate.py:16-26 | the history holds exactly the listings the user visited |
| Listings.HistoryLength | ContentBased_evaluate.py:22-25 | repeated visits are kept, so the history is at least as long as the list of visited rows |
| Listings.BuildUserListingsMap | ContentBased_evaluate.py:16-26 | the map's keys are exactly the users seen, and each entry is that user's visits in row order with multiplicity |
| Listings.AppendVisits | ContentBased_evaluate.py:22-25 | one row adds its listing id to each visitor's list once per occurrence; other users keep their lists; new visitors become keys |
| InteractionMatrix.CollectUsers | ItemBased_Modeling.py:26-30 | the loop's set of users is exactly the union of all visitors lists |
| InteractionMatrix.Sorted | ItemBased_Modeling.py:37-38 | `sorted(set)` is strictly increasing and has exactly the set's members |
| InteractionMatrix.Enumerate | ItemBased_Modeling.py:37-38 | the dict comprehension maps each id to its position, and its keys are exactly the ids |
| InteractionMatrix.EnumerateOrdered | ItemBased_Modeling.py:37-38 | indices are below the count, and smaller ids get smaller indices |
| InteractionMatrix.Invert | ItemBased_Modeling.py:57-58 | inverting an injective map gives a map that undoes it in both directions |
| InteractionMatrix.EnumerateInverse | ItemBased_Modeling.py:57-58 | the inverse of a position map is exact on `0..n-1` |
| InteractionMatrix.SortedIndexFacts | ItemBased_Modeling.py:37-58 | indexing a sorted set is an order-preserving bijection onto `0..n-1` with an exact inverse |
| InteractionMatrix.IndexUserMaps | ItemBased_Modeling.py:37-57 | `user_to_idx` is a dense ordered bijection from the users, and `idx_to_user` is its exact inverse |
| InteractionMatrix.IndexListingMaps | ItemBased_Modeling.py:38-58 | `listing_to_idx` is a dense ordered bijection from the listing ids, and `idx_to_listing` is its exact inverse |
| InteractionMatrix.MapIds | ItemBased_Modeling.py:45-46 | each visitor becomes its user index, position by position |
| InteractionMatrix.CoordLengths | ItemBased_Modeling.py:42-47 | `rows` and `cols` have equal length, equal to the total number of visitor entries |
| InteractionMatrix.CoordBounds | ItemBased_Modeling.py:44-54 | every coordinate is below the bound its index map respects |
| InteractionMatrix.IndexMatrixFacts | ItemBased_Modeling.py:42-54 | the matrix has one row per user and one column per listing id, and every coordinate is inside that shape |
| InteractionMatrix.CoordsCountOccurrences | ItemBased_Modeling.py:42-54 | the coordinate pair (u, l) occurs as often as user u is listed on rows with listing l |
| InteractionMatrix.OccurrencesObserved | ItemBased_Modeling.py:42-47 | that count is positive exactly when the user visited that listing |
| InteractionMatrix.EntryCountsVisits | ItemBased_Modeling.py:42-54 | duplicates are summed: entry (u, l) is the visit count, and it is at least 1 exactly for observed pairs |
| InteractionMatrix.EmitRow | ItemBased_Modeling.py:45-47 | the inner loop appends the row's user indices and as many copies of its listing index |
| InteractionMatrix.EmitCoordinates | ItemBased_Modeling.py:42-47 | the loops produce exactly the coordinate lists of the whole table |
| InteractionMatrix.BuildInteractionIndex | ItemBased_Modeling.py:22-61 | the imperative builder returns exactly the index of the table: maps, inverses and matrix |
| ItemBasedModeling.BatchStartsFacts | ItemBased_Modeling.py:79-81 | `range(start, n, size)` is empty exactly when `start >= n`; its starts lie in `[start, n)`, go up by `size`, and the last band reaches `n` |
| ItemBasedModeling.BatchOfRow | ItemBased_Modeling.py:79-81 | every row lies in exactly one band `[i, min(i + size, n))` |
| ItemBasedModeling.ItemVector | ItemBased_Modeling.py:69 | column j of the transposed matrix is item j's vector of per-user counts |
| ItemBasedModeling.ItemVectorCountsVisits | ItemBased_Modeling.py:69 | an item vector's entry for a user is that user's visit count |
| ItemBasedModeling.ItemBasedRecommender.constructor | ItemBased_Modeling.py:9-20 | the matrix and inverse maps are those of the table, and no similarity matrix exists yet |
| ItemBasedModeling.ItemBasedRecommender.BandSimilarities | ItemBased_Modeling.py:84-87 | a band's similarities are those of its rows against every item |
| ItemBasedModeling.ItemBasedRecommender.CreateSimilarityMatrix | ItemBased_Modeling.py:63-90 | a zero batch size fails as `range` does; otherwise every entry is the item similarity for positive sizes, or stays 0.0 for negative ones |
| ItemBasedModeling.ItemBasedRecommender.FillBatches | ItemBased_Modeling.py:79-90 | after the band loop every row equals its similarities, for any positive batch size |
| ItemBasedModeling.ItemBasedRecommender.GetUserVisitedListings | ItemBased_Modeling.py:109-113 | the loop returns the ids of the rows visited by the user, in table order |
| ItemBasedModeling.ItemBasedRecommender.QueryRow | ItemBased_Modeling.py:127-134 | no row when the user visited nothing; otherwise the first table position holding the first visited listing's id, so `ValueError` cannot occur |
| ItemBasedModeling.ItemBasedRecommender.SimilarityRow | ItemBased_Modeling.py:137 | the similarity row read at a position |
| ItemBasedModeling.ItemBasedRecommender.RecommendedRows | ItemBased_Modeling.py:127-140 | fails exactly without visits, exactly without a computed matrix, or exactly when the table position used as the row has no matrix row; otherwise, for `topn >= 0`, `min(topn, n - 1)` column numbers of that row, ranked by score, top-ranked one dropped, none left out scoring higher; none for `topn == -1`, and `max(0, n + topn)` for `topn < -1` |
| ItemBasedModeling.ItemBasedRecommender.ItemBasedRecommendations | ItemBased_Modeling.py:127-146 | the same errors; the ids are read back by table position (`iloc`) |
| ItemBasedModeling.ColumnNamesSortedIds | ItemBased_Modeling.py:38-58 | `idx_to_listing` names column `c` by the `c`-th smallest listing id of the table |
| ItemBasedModeling.ColumnOfListing | ItemBased_Modeling.py:38 | every listing id of the table has a column number, and that column is named by the id |
| ItemBasedModeling.ItemBasedRecommender.ListingRow | ItemBased_Modeling.py:127-132 | no row when the user visited nothing; otherwise the column number of the first visited listing, which names that listing |
| ItemBasedModeling.ItemBasedRecommender.IntendedRecommendations | ItemBased_Modeling.py:127-146 | with the lookups made consistent, it fails exactly without visits (`IndexError` on `visited_listings[0]`) or without a computed matrix, and for no other reason |
| ItemBasedModeling.ItemBasedRecommender.IntendedRecommendationsColumns | ItemBased_Modeling.py:137-144 | each corrected recommendation is the listing id naming a column kept by `[1:topn + 1]` of the ranking of the first visited listing's own row |
| ItemBasedModeling.ItemBasedRecommender.IntendedRecommendationsRanked | ItemBased_Modeling.py:137-144 | the corrected recommendations are `min(topn, n - 1)` distinct listing ids of the table for `topn >= 0`, and no listing left out, other than the top-ranked one, is more similar to the first visited listing than a recommended one |
| ItemBasedModeling.ItemBasedRecommender.AsWrittenQueriesTablePosition | ItemBased_Modeling.py:132-137 | for the table [listing 5 visited by user 1, listing 3 visited by user 2], the code reads row 0, which is listing 3's, while listing 5's row is 1 |
| Ranking.Insert | Collaborative_Modeling.py:34 | inserting a new position into a ranking keeps it ordered and adds exactly that position |
| Ranking.RankDescending | Collaborative_Modeling.py:34 | the ranking is a permutation of the positions, by non-increasing score, with ties in ascending position |
| Ranking.OrderedMeaning | Collaborative_Modeling.py:34 | earlier ranked positions score at least as high, ties in ascending position, no repeats |
| Ranking.FirstIsBest | ItemBased_Modeling.py:140 | the first ranked position has the highest score |
| Ranking.OrderedSlice | ItemBased_Modeling.py:140 | any slice of a ranking is still ordered |
| Ranking.AfterFirstBound | ItemBased_Modeling.py:140 | `[1:stop]` of an n-element ranking is a plain slice `[1..hi]` with `hi - 1 == min(stop - 1, n - 1)` |
| Ranking.RankedAfterFirst | ItemBased_Modeling.py:140 | `[1:stop]` of the ranking has `min(stop - 1, n - 1)` entries for `stop >= 1`, none for `stop == 0`, and `max(0, n + stop - 1)` for `stop < 0`; they are ordered, omit the top one, and every omitted position ranks behind each kept one: a lower score, or an equal score and a larger position |
| Common.PySlice | ItemBased_Modeling.py:140 | Python slicing: within bounds it is the ordinary slice, empty when `stop <= start`, never longer than the list |
| Common.DropFirstTake | Collaborative_Modeling.py:34 | `[1:top_k + 1]` keeps `min(top_k, n - 1)` entries after the first |
| Common.FirstIndex | Collaborative_Modeling.py:33 | `list.index` finds the first position holding the id, and fails exactly when the id is absent |
| Common.Unique | Collaborative_evaluate.py:30 | `unique()` has the same members and no repeats, and starts with the first element |
| Common.UniqueInOrder | Collaborative_evaluate.py:19 | `unique()` lists values in order of first appearance |
| Common.SetOf | ItemBased_evaluate.py:29 | `set(list)` has exactly the list's members |
| Common.SetOfSize | ItemBased_evaluate.py:28 | a set built from a list has at most as many elements as the list |
| Common.MeanInUnit | ItemBased_evaluate.py:88-89 | the mean of values in [0, 1] lies in [0, 1] |
| CollaborativeModeling.Modeling.SimilarPositions | Collaborative_Modeling.py:33-34 | the query is the first position of the id; `min(top_k, n - 1)` ranked positions for `top_k >= 0`, none for `top_k == -1` and `max(0, n + top_k)` for `top_k < -1`; top one dropped; every position left out, other than the top one, is less similar than each kept one, or equally similar with a larger position, as the stable sort leaves ties |
| CollaborativeModeling.Modeling.SimilarListings | Collaborative_Modeling.py:30-35 | an unknown id gives `[]`; otherwise each result is the listing id at its ranked position; ids are distinct and at most `top_k` |
| CollaborativeEvaluate.RelevantListings | Collaborative_evaluate.py:16-19 | the relevant listings have no repeats |
| CollaborativeEvaluate.RelevantListingsMembers | Collaborative_evaluate.py:16-19 | a listing is relevant exactly when the user rated it at least 90 (inclusive) |
| CollaborativeEvaluate.PrecisionForUser | Collaborative_evaluate.py:15-27 | the only failure is a division by zero |
| CollaborativeEvaluate.RatedHighlyFirst | Collaborative_evaluate.py:16-19 | the first relevant listing is the one of the first row where the user rated at least 90 |
| CollaborativeEvaluate.PrecisionForUserValue | Collaborative_evaluate.py:15-27 | the sample listing is the one of the user's first highly rated row, and precision is the size of the overlap between its similar listings and the relevant ones, divided by `k` |
| CollaborativeEvaluate.PrecisionForUserCases | Collaborative_evaluate.py:21-27 | no relevant listing scores 0; the division fails exactly when there is one and `k == 0`; for `k >= 1` precision lies in [0, 1] |
| CollaborativeEvaluate.Scores | Collaborative_evaluate.py:31-33 | one score per user; fails exactly when `k == 0` and some user has a relevant listing |
| CollaborativeEvaluate.ScoresPointwise | Collaborative_evaluate.py:31-33 | the i-th score is the i-th user's precision |
| CollaborativeEvaluate.UserIds | Collaborative_evaluate.py:30 | the user column, row by row |
| CollaborativeEvaluate.MeanPrecision | Collaborative_evaluate.py:29-34 | the mean of the scores over every unique user, 0 with no rows, the same division failure, and in [0, 1] for `k >= 1` |
| ItemBasedEvaluate.Listed | ItemBased_evaluate.py:64 | an id list passed as the recommendations, element by element |
| ItemBasedEvaluate.Returned | ItemBased_Modeling.py:146 | the returned pair: a frame followed by the id list |
| ItemBasedEvaluate.HashSet | ItemBased_evaluate.py:28-29 | `set()` fails as unhashable exactly when some element is not an id, and otherwise has at most as many elements |
| ItemBasedEvaluate.HashSetOfIds | ItemBased_evaluate.py:28-29 | on an id list, `set()` gives exactly the set of those ids |
| ItemBasedEvaluate.HitsAtK | ItemBased_evaluate.py:28-30 | hits fail exactly when the first k cannot be hashed, and are at most the relevant count and at most k |
| ItemBasedEvaluate.HitsOfIds | ItemBased_evaluate.py:28-30 | on ids, hits are the size of the intersection of the first k with the relevant set |
| ItemBasedEvaluate.PrecisionAtK | ItemBased_evaluate.py:24-31 | 0.0 when either list is empty; otherwise fails only with the hits; in [0, 1]; 0.0 for `k <= 0` |
| ItemBasedEvaluate.RecallAtK | ItemBased_evaluate.py:33-40 | 0.0 when either list is empty; otherwise fails only with the hits; in [0, 1] |
| ItemBasedEvaluate.MetricsOfIds | ItemBased_evaluate.py:24-40 | on an id list, precision is `hits / k` (0.0 for `k <= 0`) and recall is `hits / len(set(relevant))`, where the hits are the relevant ids among the first k |
| ItemBasedEvaluate.MetricsIgnoreTail | ItemBased_evaluate.py:24-40 | recommendations beyond position k change neither metric |
| ItemBasedEvaluate.NothingAtZero | ItemBased_evaluate.py:24-40 | at `k == 0` both metrics are 0.0 |
| ItemBasedEvaluate.RecallComplete | ItemBased_evaluate.py:33-40 | recall is 1.0 exactly when the first k cover every relevant listing |
| ItemBasedEvaluate.ReturnedUnhashable | ItemBased_evaluate.py:28 | slicing the returned pair yields something unhashable exactly when `k >= 1` or `k == -1`, and otherwise nothing |
| ItemBasedEvaluate.ReturnedMetrics | ItemBased_evaluate.py:24-40 | on the returned pair, the metrics fail for `k >= 1` or `k == -1` and are 0.0 whenever they succeed |
| ItemBasedEvaluate.Summarize | ItemBased_evaluate.py:84-89 | no results give (0, 0, empty); otherwise the arithmetic means of the per-user values, within [0, 1] when those are |
| ItemBasedEvaluate.ItemBasedEvaluator.constructor | ItemBased_evaluate.py:7-10 | the evaluator's user map is the user→listings map of the recommender's table |
| ItemBasedEvaluate.ItemBasedEvaluator.ValidUsers | ItemBased_evaluate.py:44-47 | the eligible users are exactly the mapped users with at least five listings |
| ItemBasedEvaluate.ItemBasedEvaluator.EvaluateUser | ItemBased_evaluate.py:59-74 | under the table-position or the corrected lookup, a successful record holds the user's id, `total_visits` equal to the number of visits, and the precision and recall of the recommendations passed to the metrics, both in [0, 1] |
| ItemBasedEvaluate.ItemBasedEvaluator.ListedUserScore | ItemBased_evaluate.py:64-73 | with an id list, a served user's record is (id, visits, `hits / k` or 0.0 for `k <= 0`, `hits / len(set(visits))`) |
| ItemBasedEvaluate.ItemBasedEvaluator.Records | ItemBased_evaluate.py:58-81 | at most one record per sampled user, each with metrics in [0, 1] |
| ItemBasedEvaluate.ItemBasedEvaluator.ListedScoresRecommendedUsers | ItemBased_evaluate.py:59-81 | with an id list, a user is scored exactly when the recommender succeeds for them, under either lookup |
| ItemBasedEvaluate.ItemBasedEvaluator.ListedKeepsServedUsers | ItemBased_evaluate.py:58-81 | when every sampled user gets recommendations, every one is recorded, under either lookup |
| ItemBasedEvaluate.ItemBasedEvaluator.ReturnedScoresNothing | ItemBased_evaluate.py:64-68 | with the returned pair, an eligible user fails for `k >= 1` or `k == -1` and otherwise scores 0.0 and 0.0, under either lookup |
| ItemBasedEvaluate.ItemBasedEvaluator.AsWrittenSkipsEveryUser | ItemBased_evaluate.py:58-89 | as written (the pair, read off the table position), for `k >= 1` or `k == -1` every sampled user is skipped and the result is (0, 0, empty); the corrected lookup alone does not change this |
| ItemBasedEvaluate.ItemBasedEvaluator.CollectRecords | ItemBased_evaluate.py:58-81 | the loop keeps the records of the users that did not fail, in sample order |
| ItemBasedEvaluate.ItemBasedEvaluator.EvaluateModel | ItemBased_evaluate.py:42-89 | no eligible user fails; a negative sample size fails as `random.sample` does; otherwise the summary of the sampled users' records, averages in [0, 1] |
| ContentBasedModeling.RowsWithIds | ContentBased_Modeling.py:59 | `isin` selects exactly the rows whose id is in the set, in table order |
| ContentBasedModeling.KnownIds | ContentBased_Modeling.py:55 | the valid listings are exactly the visited ids present in the table |
| ContentBasedModeling.ContentBasedModeling.constructor | ContentBased_Modeling.py:8-50 | the model holds the table and one feature row of fixed width per listing |
| ContentBasedModeling.ContentBasedModeling.GenerateUserProfile | ContentBased_Modeling.py:52-61 | fails with "no valid listings" exactly when no visited id is in the table; otherwise each profile entry is the mean of that feature over the matching rows |
| ContentBasedModeling.ContentBasedModeling.ProfileWithinRows | ContentBased_Modeling.py:59-60 | each profile entry lies within the range of that feature over the matching rows |
| ContentBasedModeling.ContentBasedModeling.Scores | ContentBased_Modeling.py:72 | one score per listing: its similarity to the profile |
| ContentBasedModeling.ContentBasedModeling.EligibleMembers | ContentBased_Modeling.py:80-83 | a position passes the filter exactly when it is ranked and its id was not visited |
| ContentBasedModeling.ContentBasedModeling.EligibleOrdered | ContentBased_Modeling.py:75-83 | filtering keeps the ranking's order |
| ContentBasedModeling.ContentBasedModeling.SelectUnvisited | ContentBased_Modeling.py:80-85 | the loop with its `break` keeps exactly the specified positions |
| ContentBasedModeling.ContentBasedModeling.StopsAtTopn | ContentBased_Modeling.py:84-85 | the loop stops at the first step that reaches `topn` kept positions |
| ContentBasedModeling.ContentBasedModeling.KeptTopN | ContentBased_Modeling.py:75-85 | for `topn >= 1`: only unvisited positions, in ranking order, `min(topn, eligible)` of them, and no unvisited position left out scores higher |
| ContentBasedModeling.ContentBasedModeling.KeptFirstOnly | ContentBased_Modeling.py:82-85 | for `topn <= 0`: the first ranked position if unvisited, otherwise nothing |
| ContentBasedModeling.ContentBasedModeling.RecommendWithPreference | ContentBased_Modeling.py:63-94 | the loop-based method returns exactly the ids of the recommendation specification, which is empty when the profile fails |
| ContentBasedModeling.ContentBasedModeling.RecommendedIds | ContentBased_Modeling.py:87-89 | the ids are read from the table at the kept positions |
| ContentBasedModeling.ContentBasedModeling.RecommendedSkipsVisited | ContentBased_Modeling.py:63-94 | no visited id is recommended, at most `topn` for `topn >= 1` (at most one otherwise), and no ids when no visited id is known |
| ContentBasedModeling.ContentBasedModeling.RecommendedAllWhenFew | ContentBased_Modeling.py:80-85 | when at most `topn` listings are unvisited, all of them are recommended |
| ContentBasedEvaluate.SplitFacts | ContentBased_evaluate.py:37-39 | train is the first `len // 2`, and train + test is the history; both are non-empty from two visits |
| ContentBasedEvaluate.Hits | ContentBased_evaluate.py:48 | hits are at most the distinct recommended ids and at most the distinct test ids |
| ContentBasedEvaluate.ContentBasedEvaluator.constructor | ContentBased_evaluate.py:8-14 | the user map is the user→listings map of the test table |
| ContentBasedEvaluate.ContentBasedEvaluator.EvaluateSingleUser | ContentBased_evaluate.py:28-61 | `None` exactly below two visits; otherwise the user's record with `num_train + num_test` equal to the history length, metrics in [0, 1]; precision is `hits / k` (0 for `k <= 0`), recall is `hits / len(test)`, and `num_recommendations` is the number of recommendations for the train half |
| ContentBasedEvaluate.ContentBasedEvaluator.ValidUserEvaluated | ContentBased_evaluate.py:31-34 | every eligible user yields a record |
| ContentBasedEvaluate.ContentBasedEvaluator.RecordsOfValidUsers | ContentBased_evaluate.py:84-88 | a sample of eligible users yields one record per user |
| ContentBasedEvaluate.ContentBasedEvaluator.CollectRecords | ContentBased_evaluate.py:84-88 | the loop keeps exactly the non-`None` records, in sample order |
| ContentBasedEvaluate.ContentBasedEvaluator.EvaluateModel | ContentBased_evaluate.py:66-95 | no eligible user fails; a negative sample size fails; otherwise the records of the sampled users |
| ContentBasedEvaluate.ContentBasedEvaluator.EvaluateModelSize | ContentBased_evaluate.py:80-88 | the result has `min(sample_size, number eligible)` records |
| Preprocessing.GroupReviewersMeaning | Preprocessing.py:14 | the groups' keys are exactly the reviewed listing ids, and each group is that listing's reviewers |
| Preprocessing.ReviewersOfMembers | Preprocessing.py:14-21 | a reviewer is listed exactly when one of their reviews names the listing, and the list is empty exactly when no review does |
| Preprocessing.AddVisitors | Preprocessing.py:18-21 | the table's rows in their order, each with its own reviewers attached; reviews of other ids attach nowhere |
| Preprocessing.FillMissing | Preprocessing.py:21 | a listing missing from the groups gets `[]`, and every listing gets its reviewers |

## Left out

- Reading and writing CSV, `literal_eval` parsing of `visitors`, progress output and timing are I/O.
- The numerics of `cosine_similarity` are a function value given to each model. Float means
  are exact `real` means.
- RecommendedRows: equal scores are ranked in ascending position. numpy's `argsort()[::-1]`
  promises no tie order, so only the non-increasing scores are the code's own promise.
- KeptTopN: equal scores are ranked in ascending position. numpy's `argsort()[::-1]`
  promises no tie order, so only the non-increasing scores are the code's own promise.
- `random.sample` is not modelled. Its result is a parameter constrained by the `requires`
  of each `evaluate_model`.
- The one-hot encoding, the amenity integer cast and the `$`-stripping price parse of the
  content-based constructor are library calls. The model takes the finished feature
  matrix.
- In the collaborative model, the `CountVectorizer` tokenisation, `explode`, the 20% random
  sample and `create_similarity_matrix` are foreign code and randomness. The model takes
  the listing ids and similarity matrix as given.
- `calculate_mae_rmse` compares ratings with random placeholder predictions.
- Processing.py and main.py are not part of this model. They generate random synthetic data
  and wire modules together.
- The DataFrame halves of the returned tuples are left out. Only the id lists are modelled,
  except the pair `ItemBasedEvaluate.Returned`, whose frame is the constructor `Frame`.
- A content-based evaluator built without a test file is left out: the code then fails on
  a missing attribute. The model always takes test data.
- The `isinstance(visitors, list)` guard of the item-based map builder is left out: visitors
  are always lists here, so it always holds.
- The printed averages and `describe()` statistics of the content-based `evaluate_model`
  are console output.
- The item-based evaluator's per-user record takes the lookup as a parameter (`Lookup`):
  the table position as written (`ItemBasedRecommendations`) or the listing's own row
  (`IntendedRecommendations`). `EvaluateModel` uses the corrected one.
- RecordsOfValidUsers: states the number of records only, not that the i-th record belongs
  to the i-th sampled user.

## Findings

| source | as written | input that shows it | evidently intended | confidence | as-written member | corrected member |
|---|---|---|---|---|---|---|
| ItemBased_Modeling.py:132 | the position of the first visited listing in the table is used as its row of the similarity matrix (line 137), whose rows are numbered by sorted listing id (line 38); the ranked column numbers are then read back as table positions with `iloc` (line 143) | the table [listing 5 visited by user 1, listing 3 visited by user 2]: user 1's query reads row 0, which holds listing 3's similarities | rank the row `listing_to_idx[id]` of the first visited listing and name the kept columns through `idx_to_listing` | not executed | ItemBasedModeling.ItemBasedRecommender.AsWrittenQueriesTablePosition | ItemBasedModeling.ItemBasedRecommender.IntendedRecommendations |
| ItemBased_evaluate.py:64 | the (DataFrame, ids) pair returned by `get_item_based_recommendations` is used as the id list. `set(recommended_ids[:k])` at lines 28 and 37 then raises on the unhashable DataFrame, the handler at line 79 skips the user, and `evaluate_model` returns (0, 0, empty frame) | the default `k = 10` with any eligible user: every sampled user is skipped | the ids half of the pair is passed to both metrics, and each user with recommendations is scored | not executed | ItemBasedEvaluate.ItemBasedEvaluator.AsWrittenSkipsEveryUser | ItemBasedEvaluate.ItemBasedEvaluator.EvaluateModel |
