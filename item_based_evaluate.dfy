/** Offline evaluation of the item-based recommender: sampled users with at least five
    visits are scored by Precision@k and Recall@k of their recommendations against their
    whole visit history, users whose evaluation raises are skipped, and the scores are
    averaged. */
module ItemBasedEvaluate {
  import opened Common
  import opened Listings
  import opened ItemBasedModeling

  /** A value as it reaches the untyped metric functions: a listing id, or one half of the
      `(DataFrame, ids)` pair that `get_item_based_recommendations` returns. */
  datatype Value = Id(id: int) | Frame | IdList(ids: seq<int>)

  /** An id list as Python values. */
  function Listed(ids: seq<int>): (r: seq<Value>)
    ensures |r| == |ids| && forall i :: 0 <= i < |ids| ==> r[i] == Id(ids[i])
  {
    seq(|ids|, i requires 0 <= i < |ids| => Id(ids[i]))
  }

  /** The `(recommended_listings, recommended_ids)` pair, as a sequence of its two items. */
  function Returned(ids: seq<int>): (r: seq<Value>)
    ensures |r| == 2 && r[0] == Frame && r[1] == IdList(ids)
  {
    [Frame, IdList(ids)]
  }

  /** Python's `set(values)`: the ids, or a `TypeError` as soon as a DataFrame or a list is
      among the values, since neither is hashable. */
  function HashSet(vs: seq<Value>): (r: Result<set<int>>)
    ensures r.Ok? <==> forall i :: 0 <= i < |vs| ==> vs[i].Id?
    ensures r.Err? ==> r.error == Unhashable
    ensures r.Ok? ==> |r.value| <= |vs|
  {
    if vs == [] then Ok({})
    else
      var init, last := vs[..|vs| - 1], vs[|vs| - 1];
      assert forall i :: 0 <= i < |init| ==> init[i] == vs[i];
      match HashSet(init)
      case Err(e) => Err(e)
      case Ok(s) => if last.Id? then Ok(s + {last.id}) else Err(Unhashable)
  }

  /** A set of ids built from an id list is the list's set. */
  lemma {:induction false} HashSetOfIds(ids: seq<int>)
    ensures HashSet(Listed(ids)) == Ok(SetOf(ids))
  {
    if ids != [] {
      var n := |ids| - 1;
      HashSetOfIds(ids[..n]);
      ListedInit(ids, n);
      SetOfSnoc(ids, n);
    } else {
      assert Listed(ids) == [];
      assert SetOf(ids) == {};
    }
  }

  lemma ListedInit(ids: seq<int>, n: nat)
    requires n == |ids| - 1
    ensures Listed(ids)[..n] == Listed(ids[..n]) && Listed(ids)[n] == Id(ids[n])
  {
  }

  /** Slicing an id list and then converting it is converting and then slicing. */
  lemma SliceListed(ids: seq<int>, k: int)
    ensures PySlice(Listed(ids), 0, k) == Listed(PySlice(ids, 0, k))
  {
  }

  /** `len(set(recommended[:k]) & set(relevant))`; fails when the first `k` values cannot be
      put in a set. */
  function HitsAtK(recommended: seq<Value>, relevant: seq<int>, k: int): (r: Result<nat>)
    ensures r.Ok? <==> HashSet(PySlice(recommended, 0, k)).Ok?
    ensures r.Err? ==> r.error == Unhashable
    ensures r.Ok? ==> r.value <= |SetOf(relevant)| && (k >= 0 ==> r.value <= k)
  {
    match HashSet(PySlice(recommended, 0, k))
    case Err(e) => Err(e)
    case Ok(atK) =>
      var both := atK * SetOf(relevant);
      SubsetSize(both, atK);
      SubsetSize(both, SetOf(relevant));
      Ok(|both|)
  }

  /** Hits of an id list: its first `k` ids that are relevant. */
  lemma HitsOfIds(ids: seq<int>, relevant: seq<int>, k: int)
    ensures HitsAtK(Listed(ids), relevant, k) == Ok(|SetOf(PySlice(ids, 0, k)) * SetOf(relevant)|)
  {
    SliceListed(ids, k);
    HashSetOfIds(PySlice(ids, 0, k));
  }

  /** `precision_at_k`: 0 when either list is empty or `k <= 0`, otherwise the hits over `k`. */
  function PrecisionAtK(recommended: seq<Value>, relevant: seq<int>, k: int): (r: Result<real>)
    ensures recommended == [] || relevant == [] ==> r == Ok(0.0)
    ensures recommended != [] && relevant != [] ==> (r.Err? <==> HitsAtK(recommended, relevant, k).Err?)
    ensures r.Err? ==> r.error == Unhashable
    ensures r.Ok? ==> InUnit(r.value) && (k <= 0 ==> r.value == 0.0)
  {
    if recommended == [] || relevant == [] then Ok(0.0)
    else
      match HitsAtK(recommended, relevant, k)
      case Err(e) => Err(e)
      case Ok(hits) =>
        if k > 0 then
          RatioInUnit(hits, k);
          Ok(hits as real / k as real)
        else Ok(0.0)
  }

  /** `recall_at_k`: 0 when either list is empty, otherwise the hits over the number of
      distinct relevant ids. */
  function RecallAtK(recommended: seq<Value>, relevant: seq<int>, k: int): (r: Result<real>)
    ensures recommended == [] || relevant == [] ==> r == Ok(0.0)
    ensures recommended != [] && relevant != [] ==> (r.Err? <==> HitsAtK(recommended, relevant, k).Err?)
    ensures r.Err? ==> r.error == Unhashable
    ensures r.Ok? ==> InUnit(r.value)
  {
    if recommended == [] || relevant == [] then Ok(0.0)
    else
      match HitsAtK(recommended, relevant, k)
      case Err(e) => Err(e)
      case Ok(hits) =>
        assert relevant[0] in SetOf(relevant);
        RatioInUnit(hits, |SetOf(relevant)|);
        Ok(hits as real / |SetOf(relevant)| as real)
  }

  /** Against a non-empty list of relevant ids, precision of an id list is the number of
      relevant ids among its first `k` over `k` (0 for `k <= 0`), and recall is that number
      over the number of distinct relevant ids. */
  lemma MetricsOfIds(ids: seq<int>, relevant: seq<int>, k: int)
    requires relevant != []
    ensures relevant[0] in SetOf(relevant)
    ensures PrecisionAtK(Listed(ids), relevant, k) ==
      Ok(if k > 0 then |SetOf(PySlice(ids, 0, k)) * SetOf(relevant)| as real / k as real else 0.0)
    ensures RecallAtK(Listed(ids), relevant, k) ==
      Ok(|SetOf(PySlice(ids, 0, k)) * SetOf(relevant)| as real / |SetOf(relevant)| as real)
  {
    if ids == [] {
      assert SetOf(PySlice(ids, 0, k)) == {};
      assert relevant[0] in SetOf(relevant);
    } else {
      HitsOfIds(ids, relevant, k);
    }
  }

  /** On an id list neither metric raises, and for `0 <= k` only the first `k` ids matter. */
  lemma MetricsIgnoreTail(ids: seq<int>, extra: seq<int>, relevant: seq<int>, k: int)
    requires 0 <= k <= |ids|
    ensures PrecisionAtK(Listed(ids + extra), relevant, k).Ok?
    ensures PrecisionAtK(Listed(ids + extra), relevant, k) == PrecisionAtK(Listed(ids), relevant, k)
    ensures RecallAtK(Listed(ids + extra), relevant, k) == RecallAtK(Listed(ids), relevant, k)
  {
    var all := ids + extra;
    HitsOfIds(all, relevant, k);
    HitsOfIds(ids, relevant, k);
    assert PySlice(all, 0, k) == PySlice(ids, 0, k);
    if ids == [] {
      NothingAtZero(all, relevant);
    } else {
      SameHitsSameMetrics(Listed(all), Listed(ids), relevant, k);
    }
  }

  /** The metrics depend on the recommended values only through the hits. */
  lemma SameHitsSameMetrics(vs: seq<Value>, ws: seq<Value>, relevant: seq<int>, k: int)
    requires vs != [] && ws != [] && HitsAtK(vs, relevant, k) == HitsAtK(ws, relevant, k)
    ensures PrecisionAtK(vs, relevant, k) == PrecisionAtK(ws, relevant, k)
    ensures RecallAtK(vs, relevant, k) == RecallAtK(ws, relevant, k)
  {
  }

  /** With `k == 0` both metrics of an id list are 0. */
  lemma NothingAtZero(ids: seq<int>, relevant: seq<int>)
    ensures PrecisionAtK(Listed(ids), relevant, 0) == Ok(0.0)
    ensures RecallAtK(Listed(ids), relevant, 0) == Ok(0.0)
  {
    if ids != [] && relevant != [] {
      HitsOfIds(ids, relevant, 0);
      assert SetOf(PySlice(ids, 0, 0)) == {};
      assert relevant[0] in SetOf(relevant);
      assert 0 as real / |SetOf(relevant)| as real == 0.0;
    }
  }

  /** Recall is 1 exactly when every relevant id is among the first `k` recommended ones. */
  lemma RecallComplete(ids: seq<int>, relevant: seq<int>, k: int)
    requires ids != [] && relevant != []
    ensures RecallAtK(Listed(ids), relevant, k) == Ok(1.0) <==>
      SetOf(relevant) <= SetOf(PySlice(ids, 0, k))
  {
    HitsOfIds(ids, relevant, k);
    var atK, rel := SetOf(PySlice(ids, 0, k)), SetOf(relevant);
    assert relevant[0] in rel;
    RatioIsOne(|atK * rel|, |rel|);
    IntersectionCovers(atK, rel);
  }

  /** `h / n` is 1 exactly when `h == n`. */
  lemma RatioIsOne(h: nat, n: nat)
    requires n > 0
    ensures h as real / n as real == 1.0 <==> h == n
  {
    if h as real / n as real == 1.0 {
      assert h as real == (h as real / n as real) * n as real;
    }
  }

  /** `a & b` is as large as `b` exactly when `b` is within `a`. */
  lemma IntersectionCovers(a: set<int>, b: set<int>)
    ensures |a * b| == |b| <==> b <= a
  {
    if b <= a {
      assert a * b == b;
    }
    if |a * b| == |b| {
      SubsetSameSize(a * b, b);
    }
  }

  /** The pair returned by the recommender cannot be put in a set once its slice keeps an
      item: for `k >= 1` the slice holds both halves, for `k == -1` the DataFrame; only
      `k == 0` and `k <= -2` leave it empty. */
  lemma ReturnedUnhashable(ids: seq<int>, k: int)
    ensures HashSet(PySlice(Returned(ids), 0, k)).Err? <==> k >= 1 || k == -1
    ensures HashSet(PySlice(Returned(ids), 0, k)).Ok? ==> PySlice(Returned(ids), 0, k) == []
  {
    var pair := Returned(ids);
    if k >= 1 || k == -1 {
      assert PySlice(pair, 0, k)[0] == Frame;
    }
  }

  /** Handed the returned pair instead of the ids, both metrics raise `TypeError` for
      `k >= 1` and `k == -1`, and are 0 for every other `k`. */
  lemma ReturnedMetrics(ids: seq<int>, relevant: seq<int>, k: int)
    requires relevant != []
    ensures (k >= 1 || k == -1) ==> PrecisionAtK(Returned(ids), relevant, k).Err?
    ensures PrecisionAtK(Returned(ids), relevant, k).Ok? ==>
      PrecisionAtK(Returned(ids), relevant, k).value == 0.0 &&
      RecallAtK(Returned(ids), relevant, k) == Ok(0.0)
  {
    ReturnedUnhashable(ids, k);
    if HashSet(PySlice(Returned(ids), 0, k)).Ok? {
      assert PySlice(Returned(ids), 0, k) == [];
      assert HitsAtK(Returned(ids), relevant, k) == Ok(0);
      assert relevant[0] in SetOf(relevant);
      assert 0 as real / |SetOf(relevant)| as real == 0.0;
    }
  }

  /** The fewest visits a user needs to be evaluated. */
  const MinVisits := 5

  /** Which similarity row a query reads: the table position of the first visited listing,
      as `get_item_based_recommendations` is written, or that listing's own row through
      `listing_to_idx`, the corrected lookup. */
  datatype Lookup = TablePosition | ListingColumn

  /** The record kept for one evaluated user. */
  datatype UserScore = UserScore(userId: int, totalVisits: nat, precision: real, recall: real)

  /** What `evaluate_model` returns: the two averages and the per-user records. */
  datatype Evaluation = Evaluation(avgPrecision: real, avgRecall: real, results: seq<UserScore>)

  function Precisions(results: seq<UserScore>): (r: seq<real>)
    ensures |r| == |results| && forall i :: 0 <= i < |results| ==> r[i] == results[i].precision
  {
    seq(|results|, i requires 0 <= i < |results| => results[i].precision)
  }

  function Recalls(results: seq<UserScore>): (r: seq<real>)
    ensures |r| == |results| && forall i :: 0 <= i < |results| ==> r[i] == results[i].recall
  {
    seq(|results|, i requires 0 <= i < |results| => results[i].recall)
  }

  /** `(0, 0, empty)` without records, otherwise the mean precision and mean recall; both
      averages lie in [0, 1] when every record's scores do. */
  function Summarize(results: seq<UserScore>): (r: Evaluation)
    ensures results == [] ==> r == Evaluation(0.0, 0.0, [])
    ensures r.results == results
    ensures results != [] ==> r.avgPrecision == Mean(Precisions(results)) && r.avgRecall == Mean(Recalls(results))
    ensures (forall i :: 0 <= i < |results| ==> InUnit(results[i].precision) && InUnit(results[i].recall)) ==>
      InUnit(r.avgPrecision) && InUnit(r.avgRecall)
  {
    if results == [] then Evaluation(0.0, 0.0, [])
    else
      assert (forall i :: 0 <= i < |results| ==> InUnit(results[i].precision) && InUnit(results[i].recall)) ==>
        InUnit(Mean(Precisions(results))) && InUnit(Mean(Recalls(results))) by {
        if forall i :: 0 <= i < |results| ==> InUnit(results[i].precision) && InUnit(results[i].recall) {
          MeanInUnit(Precisions(results));
          MeanInUnit(Recalls(results));
        }
      }
      Evaluation(Mean(Precisions(results)), Mean(Recalls(results)), results)
  }

  /** The record of an evaluated user, nothing for a skipped one. */
  function RecordOf(res: Result<UserScore>): (r: seq<UserScore>)
    ensures res.Ok? ==> r == [res.value]
    ensures res.Err? ==> r == []
  {
    if res.Ok? then [res.value] else []
  }

  /** Appending the record of one evaluation keeps every metric in [0, 1] and adds at most
      one record. */
  lemma AppendRecord(init: seq<UserScore>, res: Result<UserScore>)
    requires forall i :: 0 <= i < |init| ==> InUnit(init[i].precision) && InUnit(init[i].recall)
    requires res.Ok? ==> InUnit(res.value.precision) && InUnit(res.value.recall)
    ensures |init + RecordOf(res)| <= |init| + 1
    ensures forall i :: 0 <= i < |init + RecordOf(res)| ==>
      InUnit((init + RecordOf(res))[i].precision) && InUnit((init + RecordOf(res))[i].recall)
  {
  }

  class ItemBasedEvaluator {
    const recommender: ItemBasedRecommender
    const listing: seq<Listing>
    const userListingsMap: map<int, seq<int>>

    ghost predicate Valid()
      reads recommender
    {
      recommender.Valid() &&
      listing == recommender.listing &&
      userListingsMap.Keys == UsersOf(listing) &&
      forall u :: u in userListingsMap ==> userListingsMap[u] == History(listing, u)
    }

    /** Every visitors cell is a list, so the map holds each visitor's history. */
    constructor(recommender: ItemBasedRecommender)
      requires recommender.Valid()
      ensures this.recommender == recommender && listing == recommender.listing
      ensures Valid()
    {
      this.recommender := recommender;
      listing := recommender.listing;
      var m := BuildUserListingsMap(recommender.listing);
      userListingsMap := m;
    }

    /** The users with at least five visits. */
    function ValidUsers(): (r: set<int>)
      ensures r <= userListingsMap.Keys
      ensures forall u :: u in r <==> u in userListingsMap && |userListingsMap[u]| >= MinVisits
    {
      set u | u in userListingsMap && |userListingsMap[u]| >= MinVisits
    }

    /** The recommendations for `k` under either lookup. */
    function Recommend(lookup: Lookup, userId: int, k: int): Result<seq<int>>
      requires Valid()
      reads recommender, recommender.itemSimilarity
    {
      match lookup
      case TablePosition => recommender.ItemBasedRecommendations(userId, k)
      case ListingColumn => recommender.IntendedRecommendations(userId, k)
    }

    /** The body of the `try` for one user: the recommendations for `k` under `lookup`,
        handed to the metrics as `pass` makes them, scored against the user's whole
        history. Any exception on the way is the result's error; otherwise the record
        holds the number of visits and the two metrics of those recommendations. */
    function EvaluateUser(userId: int, k: int, lookup: Lookup, pass: seq<int> -> seq<Value>): (r: Result<UserScore>)
      requires Valid() && userId in userListingsMap
      reads recommender, recommender.itemSimilarity
      ensures r.Ok? ==> InUnit(r.value.precision) && InUnit(r.value.recall)
      ensures r.Ok? ==>
        var recs := Recommend(lookup, userId, k);
        var visits := userListingsMap[userId];
        recs.Ok? && r.value.userId == userId && r.value.totalVisits == |visits| &&
        PrecisionAtK(pass(recs.value), visits, k) == Ok(r.value.precision) &&
        RecallAtK(pass(recs.value), visits, k) == Ok(r.value.recall)
    {
      var visits := userListingsMap[userId];
      match Recommend(lookup, userId, k)
      case Err(e) => Err(e)
      case Ok(ids) =>
        var passed := pass(ids);
        match PrecisionAtK(passed, visits, k)
        case Err(e) => Err(e)
        case Ok(precision) =>
          match RecallAtK(passed, visits, k)
          case Err(e) => Err(e)
          case Ok(recall) => Ok(UserScore(userId, |visits|, precision, recall))
    }

    /** The records of `users` whose evaluation succeeds, in order. */
    function Records(users: seq<int>, k: int, lookup: Lookup, pass: seq<int> -> seq<Value>): (r: seq<UserScore>)
      requires Valid() && Known(users)
      reads recommender, recommender.itemSimilarity
      ensures |r| <= |users|
      ensures forall i :: 0 <= i < |r| ==> InUnit(r[i].precision) && InUnit(r[i].recall)
    {
      if users == [] then []
      else
        var n := |users| - 1;
        KnownPrefix(users, n);
        var init := Records(users[..n], k, lookup, pass);
        var res := EvaluateUser(users[n], k, lookup, pass);
        AppendRecord(init, res);
        init + RecordOf(res)
    }

    /** Every user of `users` has a history in the map. */
    ghost predicate Known(users: seq<int>)
    {
      forall i :: 0 <= i < |users| ==> users[i] in userListingsMap
    }

    lemma KnownPrefix(users: seq<int>, n: nat)
      requires Known(users) && n <= |users|
      ensures Known(users[..n])
    {
      assert forall i :: 0 <= i < n ==> users[..n][i] == users[i];
    }

    /** Passed as an id list, the recommendations of a valid user are always scored: the user
        is skipped only when the recommender itself raises. */
    lemma ListedScoresRecommendedUsers(userId: int, k: int, lookup: Lookup)
      requires Valid() && userId in userListingsMap
      ensures EvaluateUser(userId, k, lookup, Listed).Ok? <==> Recommend(lookup, userId, k).Ok?
    {
      var recs := Recommend(lookup, userId, k);
      if recs.Ok? {
        HitsOfIds(recs.value, userListingsMap[userId], k);
      }
    }

    /** Passed as an id list, a served user's record holds the number of visits, the
        relevant ids among the first `k` recommended over `k` (0 for `k <= 0`) as precision,
        and the same count over the number of distinct visited ids as recall. */
    lemma ListedUserScore(userId: int, k: int, lookup: Lookup)
      requires Valid() && userId in ValidUsers() && Recommend(lookup, userId, k).Ok?
      ensures var ids, visits := Recommend(lookup, userId, k).value, userListingsMap[userId];
        var hits := |SetOf(PySlice(ids, 0, k)) * SetOf(visits)|;
        |SetOf(visits)| > 0 &&
        EvaluateUser(userId, k, lookup, Listed) == Ok(UserScore(userId, |visits|,
          if k > 0 then hits as real / k as real else 0.0, hits as real / |SetOf(visits)| as real))
    {
      var ids, visits := Recommend(lookup, userId, k).value, userListingsMap[userId];
      assert visits != [] by { assert |visits| >= MinVisits; }
      ListedScoresRecommendedUsers(userId, k, lookup);
      MetricsOfIds(ids, visits, k);
    }

    /** Passed as the returned pair, the recommendations of a valid user raise `TypeError` for
        `k >= 1` and `k == -1`, and score 0 for every other `k`. */
    lemma ReturnedScoresNothing(userId: int, k: int, lookup: Lookup)
      requires Valid() && userId in ValidUsers()
      ensures (k >= 1 || k == -1) ==> EvaluateUser(userId, k, lookup, Returned).Err?
      ensures EvaluateUser(userId, k, lookup, Returned).Ok? ==>
        EvaluateUser(userId, k, lookup, Returned).value.precision == 0.0 &&
        EvaluateUser(userId, k, lookup, Returned).value.recall == 0.0
    {
      var recs := Recommend(lookup, userId, k);
      if recs.Ok? {
        var visits := userListingsMap[userId];
        assert visits != [] by { assert |visits| >= MinVisits; }
        ReturnedMetrics(recs.value, visits, k);
      }
    }

    /** As written, `evaluate_model` passes the returned pair, read off the table position,
        to the metrics; for `k >= 1` (the default is 10) and `k == -1` every sampled user is
        then skipped. The corrected lookup alone does not change this. */
    lemma {:induction false} AsWrittenSkipsEveryUser(users: seq<int>, k: int, lookup: Lookup)
      requires Valid() && Known(users)
      requires forall i :: 0 <= i < |users| ==> users[i] in ValidUsers()
      requires k >= 1 || k == -1
      ensures Records(users, k, lookup, Returned) == []
      ensures Summarize(Records(users, k, lookup, Returned)) == Evaluation(0.0, 0.0, [])
    {
      if users != [] {
        var n := |users| - 1;
        var init := users[..n];
        KnownPrefix(users, n);
        assert forall i :: 0 <= i < |init| ==> init[i] == users[i];
        AsWrittenSkipsEveryUser(init, k, lookup);
        ReturnedScoresNothing(users[n], k, lookup);
        assert Records(users, k, lookup, Returned) ==
          Records(init, k, lookup, Returned) + RecordOf(EvaluateUser(users[n], k, lookup, Returned));
      }
    }

    /** With the id list passed, every sampled user the recommender can serve gets a record. */
    lemma {:induction false} ListedKeepsServedUsers(users: seq<int>, k: int, lookup: Lookup)
      requires Valid() && Known(users)
      requires forall i :: 0 <= i < |users| ==> Recommend(lookup, users[i], k).Ok?
      ensures |Records(users, k, lookup, Listed)| == |users|
    {
      if users != [] {
        var n := |users| - 1;
        var init := users[..n];
        KnownPrefix(users, n);
        assert forall i :: 0 <= i < |init| ==> init[i] == users[i];
        ListedKeepsServedUsers(init, k, lookup);
        ListedScoresRecommendedUsers(users[n], k, lookup);
        assert Records(users, k, lookup, Listed) ==
          Records(init, k, lookup, Listed) + RecordOf(EvaluateUser(users[n], k, lookup, Listed));
      }
    }

    /** `evaluate_model`, with the recommended ids handed to the metrics: `ValueError` without
        valid users or for a negative sample size; otherwise the averages over the records of
        the sampled users whose evaluation did not raise. `sampled` is what `random.sample`
        drew: `min(sample_size, |valid users|)` distinct valid users. */
    method EvaluateModel(sampleSize: int, k: int, sampled: seq<int>) returns (r: Result<Evaluation>)
      requires Valid()
      requires forall i, j :: 0 <= i < j < |sampled| ==> sampled[i] != sampled[j]
      requires forall i :: 0 <= i < |sampled| ==> sampled[i] in ValidUsers()
      requires ValidUsers() != {} && Min(sampleSize, |ValidUsers()|) >= 0 ==>
        |sampled| == Min(sampleSize, |ValidUsers()|)
      ensures ValidUsers() == {} ==> r == Err(NoValidUsers)
      ensures ValidUsers() != {} && sampleSize < 0 ==> r == Err(NegativeSample)
      ensures ValidUsers() != {} && sampleSize >= 0 ==> r == Ok(Summarize(Records(sampled, k, ListingColumn, Listed)))
      ensures r.Ok? ==> InUnit(r.value.avgPrecision) && InUnit(r.value.avgRecall)
    {
      var valid := ValidUsers();
      if valid == {} {
        return Err(NoValidUsers);
      }
      var size := Min(sampleSize, |valid|);
      if size < 0 {
        return Err(NegativeSample);
      }
      var results := CollectRecords(sampled, k);
      return Ok(Summarize(results));
    }

    /** The loop of `evaluate_model`: each sampled user in turn, a record appended unless
        its evaluation raised. */
    method CollectRecords(users: seq<int>, k: int) returns (results: seq<UserScore>)
      requires Valid() && Known(users)
      ensures results == Records(users, k, ListingColumn, Listed)
    {
      results := [];
      var i := 0;
      while i < |users|
        invariant 0 <= i <= |users|
        invariant Known(users[..i])
        invariant results == Records(users[..i], k, ListingColumn, Listed)
      {
        var res := EvaluateUser(users[i], k, ListingColumn, Listed);
        RecordsStep(users, i, k, ListingColumn, Listed);
        results := results + RecordOf(res);
        i := i + 1;
      }
      assert users[..i] == users;
    }

    /** One more user appends that user's record, if any. */
    lemma RecordsStep(users: seq<int>, i: nat, k: int, lookup: Lookup, pass: seq<int> -> seq<Value>)
      requires Valid() && Known(users)
      requires i < |users|
      ensures Known(users[..i]) && Known(users[..i + 1])
      ensures Records(users[..i + 1], k, lookup, pass) ==
        Records(users[..i], k, lookup, pass) + RecordOf(EvaluateUser(users[i], k, lookup, pass))
    {
      KnownPrefix(users, i);
      KnownPrefix(users, i + 1);
      assert users[..i + 1][..i] == users[..i];
    }
  }
}
