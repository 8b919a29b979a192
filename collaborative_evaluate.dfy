/** Precision@k of the collaborative recommender: for each user, the recommendations for
    their first highly rated listing are compared with all of their highly rated listings. */
module CollaborativeEvaluate {
  import opened Common
  import opened CollaborativeModeling

  /** One row of the sampled interaction table. */
  datatype Interaction = Interaction(listingId: int, userId: int, userRating: int)

  /** The rating from which a listing counts as relevant to its user. */
  const RelevantRating := 90

  /** The listing ids of the rows of `user` rated at least 90, in row order. */
  function RatedHighly(data: seq<Interaction>, user: int): seq<int>
  {
    if data == [] then []
    else
      var row := data[|data| - 1];
      RatedHighly(data[..|data| - 1], user) +
        (if row.userId == user && row.userRating >= RelevantRating then [row.listingId] else [])
  }

  /** `user_data`: the distinct listings the user rated at least 90, in first-row order. */
  function RelevantListings(data: seq<Interaction>, user: int): (r: seq<int>)
    ensures Distinct(r)
  {
    Unique(RatedHighly(data, user))
  }

  /** A listing is relevant exactly when some row of the user rates it at least 90. */
  lemma RelevantListingsMembers(data: seq<Interaction>, user: int, x: int)
    ensures x in RelevantListings(data, user) <==>
      exists i :: 0 <= i < |data| && data[i] == Interaction(x, user, data[i].userRating) &&
        data[i].userRating >= RelevantRating
  {
    RatedHighlyMembers(data, user, x);
  }

  lemma {:induction false} RatedHighlyMembers(data: seq<Interaction>, user: int, x: int)
    ensures x in RatedHighly(data, user) <==>
      exists i :: 0 <= i < |data| && data[i] == Interaction(x, user, data[i].userRating) &&
        data[i].userRating >= RelevantRating
  {
    if data != [] {
      var init := data[..|data| - 1];
      RatedHighlyMembers(init, user, x);
      if i :| (0 <= i < |init| && init[i] == Interaction(x, user, init[i].userRating) &&
               init[i].userRating >= RelevantRating) {
        assert data[i] == init[i];
      }
      if i :| (0 <= i < |data| && data[i] == Interaction(x, user, data[i].userRating) &&
               data[i].userRating >= RelevantRating) {
        if i < |init| { assert data[i] == init[i]; }
      }
    }
  }

  /** `precision_at_k_for_user`: the share of `k` taken by the relevant ids among the
      recommendations for the user's first relevant listing. */
  function PrecisionForUser(m: Modeling, data: seq<Interaction>, k: int, user: int): (r: Result<real>)
    requires m.Valid()
    ensures r.Err? ==> r.error == ZeroDivision
  {
    var relevant := RelevantListings(data, user);
    if relevant == [] then Ok(0.0)
    else
      var rec := m.SimilarListings(relevant[0], k);
      var hits := SetOf(rec) * SetOf(relevant);
      if k == 0 then Err(ZeroDivision)
      else Ok(|hits| as real / k as real)
  }

  /** Row `i` is the first row of `user` rated at least 90. */
  predicate FirstRelevantRow(data: seq<Interaction>, user: int, i: nat)
  {
    i < |data| && data[i].userId == user && data[i].userRating >= RelevantRating &&
    forall j :: 0 <= j < i ==> !(data[j].userId == user && data[j].userRating >= RelevantRating)
  }

  /** The highly rated listings of a user start with the listing of their first such row. */
  lemma {:induction false} RatedHighlyFirst(data: seq<Interaction>, user: int, i: nat)
    requires FirstRelevantRow(data, user, i)
    ensures RatedHighly(data, user) != [] && RatedHighly(data, user)[0] == data[i].listingId
  {
    var n := |data| - 1;
    var init := data[..n];
    assert forall j :: 0 <= j < n ==> init[j] == data[j];
    if i < n {
      assert FirstRelevantRow(init, user, i);
      RatedHighlyFirst(init, user, i);
    } else {
      RatedHighlyNone(init, user);
    }
  }

  /** A user with no row rated at least 90 has no highly rated listings. */
  lemma {:induction false} RatedHighlyNone(data: seq<Interaction>, user: int)
    requires forall j :: 0 <= j < |data| ==> !(data[j].userId == user && data[j].userRating >= RelevantRating)
    ensures RatedHighly(data, user) == []
  {
    if data != [] {
      var n := |data| - 1;
      assert forall j :: 0 <= j < n ==> data[..n][j] == data[j];
      RatedHighlyNone(data[..n], user);
    }
  }

  /** The query of `precision_at_k_for_user` is the listing of the user's first row rated at
      least 90, and for `k != 0` the precision is the number of relevant ids among its
      recommendations divided by `k`. */
  lemma PrecisionForUserValue(m: Modeling, data: seq<Interaction>, k: int, user: int, i: nat)
    requires m.Valid() && FirstRelevantRow(data, user, i) && k != 0
    ensures RelevantListings(data, user) != [] && RelevantListings(data, user)[0] == data[i].listingId
    ensures PrecisionForUser(m, data, k, user) ==
      Ok(|SetOf(m.SimilarListings(data[i].listingId, k)) * SetOf(RelevantListings(data, user))| as real / k as real)
  {
    RatedHighlyFirst(data, user, i);
  }

  /** The precision is 0 for a user without relevant listings; otherwise it fails with
      `ZeroDivisionError` exactly when `k` is 0, and for `k >= 1` it lies in [0, 1]. */
  lemma PrecisionForUserCases(m: Modeling, data: seq<Interaction>, k: int, user: int)
    requires m.Valid()
    ensures RelevantListings(data, user) == [] ==> PrecisionForUser(m, data, k, user) == Ok(0.0)
    ensures PrecisionForUser(m, data, k, user).Err? <==> RelevantListings(data, user) != [] && k == 0
    ensures k >= 1 ==> PrecisionForUser(m, data, k, user).Ok? && InUnit(PrecisionForUser(m, data, k, user).value)
  {
    var relevant := RelevantListings(data, user);
    if relevant != [] && k >= 1 {
      var rec := m.SimilarListings(relevant[0], k);
      var hits := SetOf(rec) * SetOf(relevant);
      SetOfSize(rec);
      SubsetSize(hits, SetOf(rec));
      RatioInUnit(|hits|, k);
    }
  }

  /** Some user of `users` has a relevant listing. */
  predicate SomeRelevant(data: seq<Interaction>, users: seq<int>)
  {
    users != [] && (RelevantListings(data, users[0]) != [] || SomeRelevant(data, users[1..]))
  }

  /** The scores of `users` in order; the first failing user's error propagates. */
  function Scores(m: Modeling, data: seq<Interaction>, k: int, users: seq<int>): (r: Result<seq<real>>)
    requires m.Valid()
    ensures r.Ok? ==> |r.value| == |users|
    ensures r.Err? <==> k == 0 && SomeRelevant(data, users)
    ensures r.Err? ==> r.error == ZeroDivision
  {
    if users == [] then Ok([])
    else
      PrecisionForUserCases(m, data, k, users[0]);
      match PrecisionForUser(m, data, k, users[0])
      case Err(e) => Err(e)
      case Ok(s) =>
        match Scores(m, data, k, users[1..])
        case Err(e) =>
          Err(e)
        case Ok(rest) =>
          Ok([s] + rest)
  }

  /** Score `i` is the precision of user `i`. */
  lemma {:induction false} ScoresPointwise(m: Modeling, data: seq<Interaction>, k: int, users: seq<int>, i: nat)
    requires m.Valid() && i < |users| && Scores(m, data, k, users).Ok?
    ensures PrecisionForUser(m, data, k, users[i]) == Ok(Scores(m, data, k, users).value[i])
  {
    var first := PrecisionForUser(m, data, k, users[0]);
    var rest := Scores(m, data, k, users[1..]);
    assert first.Ok? && rest.Ok? && Scores(m, data, k, users).value == [first.value] + rest.value;
    if i > 0 {
      ScoresPointwise(m, data, k, users[1..], i - 1);
      assert users[1..][i - 1] == users[i];
    }
  }

  /** `mean_precision_at_k_all_users`: the mean precision over every distinct user of the
      sample, 0 when there is none. */
  function MeanPrecision(m: Modeling, data: seq<Interaction>, k: int): (r: Result<real>)
    requires m.Valid()
    ensures r.Ok? <==> Scores(m, data, k, Unique(UserIds(data))).Ok?
    ensures r.Ok? ==> r.value == Mean(Scores(m, data, k, Unique(UserIds(data))).value)
    ensures r.Err? <==> k == 0 && SomeRelevant(data, Unique(UserIds(data)))
    ensures r.Err? ==> r.error == ZeroDivision
    ensures data == [] ==> r == Ok(0.0)
    ensures k >= 1 ==> r.Ok? && InUnit(r.value)
  {
    var users := Unique(UserIds(data));
    match Scores(m, data, k, users)
    case Err(e) => Err(e)
    case Ok(scores) =>
      assert k >= 1 ==> InUnit(Mean(scores)) by {
        if k >= 1 {
          forall i | 0 <= i < |scores| ensures InUnit(scores[i]) {
            ScoresPointwise(m, data, k, users, i);
            PrecisionForUserCases(m, data, k, users[i]);
          }
          MeanInUnit(scores);
        }
      }
      Ok(Mean(scores))
  }

  /** The `user_id` column. */
  function UserIds(data: seq<Interaction>): (r: seq<int>)
    ensures |r| == |data| && forall i :: 0 <= i < |data| ==> r[i] == data[i].userId
  {
    seq(|data|, i requires 0 <= i < |data| => data[i].userId)
  }
}
