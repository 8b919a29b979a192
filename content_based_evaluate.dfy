/** Offline evaluation of the content-based recommender: each sampled user's history is
    split in half, the first half is fed to the recommender, and the recommendations are
    scored against the second half. */
module ContentBasedEvaluate {
  import opened Common
  import opened Listings
  import opened ContentBasedModeling

  /** The record kept for one evaluated user. */
  datatype UserResult = UserResult(
    userId: int, precision: real, recall: real,
    numTrain: nat, numTest: nat, numRecommendations: nat)

  /** The fewest visits a user needs to be evaluated. */
  const MinHistory := 2

  /** The first `len // 2` visits. */
  function Train(history: seq<int>): seq<int>
  {
    history[..|history| / 2]
  }

  /** The remaining visits. */
  function Test(history: seq<int>): seq<int>
  {
    history[|history| / 2..]
  }

  /** The split loses and reorders nothing, and with at least two visits both halves are
      non-empty. */
  lemma SplitFacts(history: seq<int>)
    ensures Train(history) + Test(history) == history
    ensures |Train(history)| == |history| / 2
    ensures |Train(history)| + |Test(history)| == |history|
    ensures |history| >= MinHistory ==> Train(history) != [] && Test(history) != []
  {
    assert Train(history) + Test(history) == history;
  }

  /** `len(set(recommended) & set(test))`. */
  function Hits(recommended: seq<int>, test: seq<int>): (h: nat)
    ensures h <= |SetOf(recommended)| && h <= |SetOf(test)|
  {
    var both := SetOf(recommended) * SetOf(test);
    SubsetSize(both, SetOf(recommended));
    SubsetSize(both, SetOf(test));
    |both|
  }

  /** The record of an evaluated user, nothing for a skipped one. */
  function RecordOf(res: Option<UserResult>): (r: seq<UserResult>)
    ensures res.Some? ==> r == [res.value]
    ensures res.None? ==> r == []
  {
    if res.Some? then [res.value] else []
  }

  class ContentBasedEvaluator {
    const model: ContentBasedModeling
    const k: int
    const testData: seq<Listing>
    const userListingsMap: map<int, seq<int>>

    ghost predicate Valid()
      reads model
    {
      model.Valid() &&
      userListingsMap.Keys == UsersOf(testData) &&
      forall u :: u in userListingsMap ==> userListingsMap[u] == History(testData, u)
    }

    constructor(model: ContentBasedModeling, k: int, testData: seq<Listing>)
      requires model.Valid()
      ensures this.model == model && this.k == k && this.testData == testData
      ensures Valid()
    {
      this.model := model;
      this.k := k;
      this.testData := testData;
      var m := BuildUserListingsMap(testData);
      userListingsMap := m;
    }

    /** `user_listings_map.get(user_id, [])`. */
    function HistoryOf(userId: int): seq<int>
    {
      if userId in userListingsMap then userListingsMap[userId] else []
    }

    /** `evaluate_single_user`: `None` for a user with fewer than two visits; otherwise the
        scores of the recommendations for the first half of the history against the second
        half, precision over `k` (0 when `k <= 0`) and recall over the test length. */
    function EvaluateSingleUser(userId: int, k: int): (r: Option<UserResult>)
      requires Valid()
      reads model
      ensures r.None? <==> |HistoryOf(userId)| < MinHistory
      ensures r.Some? ==>
        r.value.userId == userId &&
        r.value.numTrain + r.value.numTest == |HistoryOf(userId)| &&
        r.value.numTrain == |HistoryOf(userId)| / 2 &&
        InUnit(r.value.precision) && InUnit(r.value.recall) &&
        (k <= 0 ==> r.value.precision == 0.0)
      ensures r.Some? ==>
        var h := HistoryOf(userId);
        var hits := Hits(model.Recommended(Train(h), k), Test(h));
        r.value.precision == (if k > 0 then hits as real / k as real else 0.0) &&
        r.value.recall == hits as real / |Test(h)| as real &&
        r.value.numRecommendations == |model.Recommended(Train(h), k)|
    {
      var history := HistoryOf(userId);
      if |history| < MinHistory then None
      else
        var train, test := Train(history), Test(history);
        SplitFacts(history);
        var recommended := model.Recommended(train, k);
        var hits := Hits(recommended, test);
        SetOfSize(test);
        assert k >= 1 ==> hits <= k by {
          if k >= 1 {
            model.RecommendedSkipsVisited(train, k);
            SetOfSize(recommended);
          }
        }
        assert k >= 1 ==> InUnit(hits as real / k as real) by {
          if k >= 1 { RatioInUnit(hits, k); }
        }
        RatioInUnit(hits, |test|);
        Some(UserResult(
          userId,
          if k > 0 then hits as real / k as real else 0.0,
          hits as real / |test| as real,
          |train|, |test|, |recommended|))
    }

    /** The users with at least two visits. */
    function ValidUsers(): set<int>
    {
      set u | u in userListingsMap && |userListingsMap[u]| >= MinHistory
    }

    /** The records of `users` that are not `None`, in order. */
    function Records(users: seq<int>): seq<UserResult>
      requires Valid()
      reads model
    {
      if users == [] then []
      else
        var n := |users| - 1;
        Records(users[..n]) + RecordOf(EvaluateSingleUser(users[n], k))
    }

    /** A valid user always yields a record. */
    lemma ValidUserEvaluated(userId: int)
      requires Valid() && userId in ValidUsers()
      ensures EvaluateSingleUser(userId, k).Some?
    {
    }

    /** Every sampled user is valid, so none is skipped. */
    lemma {:induction false} RecordsOfValidUsers(users: seq<int>)
      requires Valid()
      requires forall i :: 0 <= i < |users| ==> users[i] in ValidUsers()
      ensures |Records(users)| == |users|
    {
      if users != [] {
        var n := |users| - 1;
        var init := users[..n];
        assert forall i :: 0 <= i < |init| ==> init[i] in ValidUsers();
        RecordsOfValidUsers(init);
        ValidUserEvaluated(users[n]);
        assert Records(users) == Records(init) + RecordOf(EvaluateSingleUser(users[n], k));
      }
    }

    /** `evaluate_model`: `ValueError` without valid users or for a negative sample size;
        otherwise the records of the sampled users, evaluated in sample order. `sampled` is
        what `random.sample` drew: `min(sample_size, |valid users|)` distinct valid users. */
    method EvaluateModel(sampleSize: int, sampled: seq<int>) returns (r: Result<seq<UserResult>>)
      requires Valid()
      requires forall i, j :: 0 <= i < j < |sampled| ==> sampled[i] != sampled[j]
      requires forall i :: 0 <= i < |sampled| ==> sampled[i] in ValidUsers()
      requires ValidUsers() != {} && Min(sampleSize, |ValidUsers()|) >= 0 ==>
        |sampled| == Min(sampleSize, |ValidUsers()|)
      ensures ValidUsers() == {} ==> r == Err(NoValidUsers)
      ensures ValidUsers() != {} && sampleSize < 0 ==> r == Err(NegativeSample)
      ensures ValidUsers() != {} && sampleSize >= 0 ==> r == Ok(Records(sampled))
    {
      var valid := ValidUsers();
      if valid == {} {
        return Err(NoValidUsers);
      }
      var size := Min(sampleSize, |valid|);
      if size < 0 {
        return Err(NegativeSample);
      }
      var results := CollectRecords(sampled);
      return Ok(results);
    }

    /** The loop of `evaluate_model`: each sampled user in turn, a record appended unless
        the evaluation returned `None`. */
    method CollectRecords(users: seq<int>) returns (results: seq<UserResult>)
      requires Valid()
      ensures results == Records(users)
    {
      results := [];
      var i := 0;
      while i < |users|
        invariant 0 <= i <= |users|
        invariant results == Records(users[..i])
      {
        var res := EvaluateSingleUser(users[i], k);
        RecordsStep(users, i);
        results := results + RecordOf(res);
        i := i + 1;
      }
      assert users[..i] == users;
    }

    /** One more user appends that user's record, if any. */
    lemma RecordsStep(users: seq<int>, i: nat)
      requires Valid() && i < |users|
      ensures Records(users[..i + 1]) == Records(users[..i]) + RecordOf(EvaluateSingleUser(users[i], k))
    {
      assert users[..i + 1][..i] == users[..i];
    }

    /** With a non-negative sample size, every sampled user yields a record, so there are
        `min(sample_size, |valid users|)` of them. */
    lemma EvaluateModelSize(sampleSize: int, sampled: seq<int>)
      requires Valid() && ValidUsers() != {} && sampleSize >= 0
      requires forall i :: 0 <= i < |sampled| ==> sampled[i] in ValidUsers()
      requires |sampled| == Min(sampleSize, |ValidUsers()|)
      ensures |Records(sampled)| == Min(sampleSize, |ValidUsers()|)
    {
      RecordsOfValidUsers(sampled);
    }
  }
}
