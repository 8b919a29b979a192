/** The content-based recommender: a user profile averaged from the feature rows of the
    listings the user visited, and the listings ranked by similarity to that profile with
    the visited ones skipped. */
module ContentBasedModeling {
  import opened Common
  import opened Listings
  import opened Ranking

  /** The table positions, in order, whose listing id is in `ids`. */
  function RowsWithIds(t: seq<Listing>, ids: set<int>): (r: seq<nat>)
    ensures forall j :: 0 <= j < |r| ==> r[j] < |t| && t[r[j]].id in ids
    ensures forall i: nat :: i < |t| && t[i].id in ids ==> i in r
    ensures forall j, j' :: 0 <= j < j' < |r| ==> r[j] < r[j']
  {
    if t == [] then []
    else
      var n := |t| - 1;
      var init := RowsWithIds(t[..n], ids);
      assert forall j :: 0 <= j < |init| ==> t[..n][init[j]] == t[init[j]];
      init + (if t[n].id in ids then [n] else [])
  }

  /** `[lid for lid in visited if lid in listing_id.values]`: order and repeats kept. */
  function KnownIds(t: seq<Listing>, visited: seq<int>): (r: seq<int>)
    ensures forall x :: x in r <==> x in visited && x in Ids(t)
  {
    if visited == [] then []
    else
      var n := |visited| - 1;
      KnownIds(t, visited[..n]) + (if visited[n] in Ids(t) then [visited[n]] else [])
  }

  class ContentBasedModeling {
    const listing: seq<Listing>
    /** The encoded feature matrix, one row per table row, `width` columns. */
    const features: seq<seq<real>>
    const width: nat
    /** scikit-learn's cosine similarity of two feature vectors. */
    const cosine: (seq<real>, seq<real>) -> real

    ghost predicate Valid()
    {
      |features| == |listing| && forall i :: 0 <= i < |features| ==> |features[i]| == width
    }

    constructor(listing: seq<Listing>, features: seq<seq<real>>, width: nat, cosine: (seq<real>, seq<real>) -> real)
      requires |features| == |listing| && forall i :: 0 <= i < |features| ==> |features[i]| == width
      ensures this.listing == listing && this.features == features && this.width == width
      ensures this.cosine == cosine
      ensures Valid()
    {
      this.listing := listing;
      this.features := features;
      this.width := width;
      this.cosine := cosine;
    }

    /** The rows averaged into the profile: those whose id was visited and is in the table. */
    function ProfileRows(visited: seq<int>): (r: seq<nat>)
      ensures forall j :: 0 <= j < |r| ==> r[j] < |listing|
    {
      RowsWithIds(listing, SetOf(KnownIds(listing, visited)))
    }

    /** Column `c` of the feature matrix restricted to `rows`. */
    function Column(rows: seq<nat>, c: nat): (col: seq<real>)
      requires Valid() && c < width
      requires forall j :: 0 <= j < |rows| ==> rows[j] < |listing|
      ensures |col| == |rows| && forall j :: 0 <= j < |rows| ==> col[j] == features[rows[j]][c]
    {
      seq(|rows|, j requires 0 <= j < |rows| => features[rows[j]][c])
    }

    /** `generate_user_profile`: `ValueError` when no visited id is in the table; otherwise the
        column-wise mean of the feature rows of every table row whose id was visited. */
    function GenerateUserProfile(visited: seq<int>): (r: Result<seq<real>>)
      requires Valid()
      ensures r.Err? <==> forall j :: 0 <= j < |visited| ==> visited[j] !in Ids(listing)
      ensures r.Err? ==> r.error == NoValidListings
      ensures r.Ok? ==>
        ProfileRows(visited) != [] && |r.value| == width &&
        forall c :: 0 <= c < width ==> r.value[c] == Mean(Column(ProfileRows(visited), c))
    {
      var known := KnownIds(listing, visited);
      if known == [] then
        assert forall j :: 0 <= j < |visited| ==> visited[j] in visited;
        Err(NoValidListings)
      else
        var rows := ProfileRows(visited);
        var x := known[0];
        assert x in known;
        assert x in visited && x in Ids(listing);
        assert rows != [] by {
          var i :| 0 <= i < |listing| && Ids(listing)[i] == x;
          assert listing[i].id in SetOf(known);
        }
        Ok(seq(width, c requires 0 <= c < width => Mean(Column(rows, c))))
    }

    /** Each profile entry lies between the smallest and the largest value the averaged rows
        hold in that column; in particular a profile built from one row is that row. */
    lemma ProfileWithinRows(visited: seq<int>, c: nat, lo: real, hi: real)
      requires Valid() && GenerateUserProfile(visited).Ok? && c < width
      requires forall i :: i in ProfileRows(visited) ==> lo <= features[i][c] <= hi
      ensures lo <= GenerateUserProfile(visited).value[c] <= hi
    {
      var col := Column(ProfileRows(visited), c);
      MeanBetween(col, lo, hi);
    }

    /** The cosine similarity of every table row to the profile. */
    function Scores(profile: seq<real>): (s: seq<real>)
      requires Valid()
      ensures |s| == |listing| && forall i :: 0 <= i < |listing| ==> s[i] == cosine(profile, features[i])
    {
      seq(|listing|, i requires 0 <= i < |listing| => cosine(profile, features[i]))
    }

    /** The positions of `order` whose listing id is not visited, in order. */
    function Eligible(order: seq<nat>, visited: set<int>): (r: seq<nat>)
      requires forall p :: 0 <= p < |order| ==> order[p] < |listing|
      ensures |r| <= |order|
      ensures forall p :: 0 <= p < |r| ==> r[p] < |listing|
    {
      if order == [] then []
      else
        var n := |order| - 1;
        Eligible(order[..n], visited) + (if listing[order[n]].id !in visited then [order[n]] else [])
    }

    /** What the exclusion loop keeps of `order`: for `topn >= 1` the first `topn` eligible
        positions, or all of them when fewer exist; for `topn <= 0` the loop stops after its
        first step, keeping the top position only if it is eligible. */
    function Kept(order: seq<nat>, visited: set<int>, topn: int): (r: seq<nat>)
      requires forall p :: 0 <= p < |order| ==> order[p] < |listing|
    {
      if topn <= 0 then (if order == [] then [] else Eligible(order[..1], visited))
      else
        var e := Eligible(order, visited);
        e[..Min(topn, |e|)]
    }

    /** The ranking the loop walks through. */
    function Order(profile: seq<real>): (order: seq<nat>)
      requires Valid()
      ensures forall p :: 0 <= p < |order| ==> order[p] < |listing|
    {
      RankDescending(Scores(profile))
    }

    /** The ids the recommender returns for `visited`: empty when the profile fails, otherwise
        the ids of the kept positions of the ranking. */
    function Recommended(visited: seq<int>, topn: int): (r: seq<int>)
      requires Valid()
    {
      match GenerateUserProfile(visited)
      case Err(_) => []
      case Ok(profile) =>
        var kept := Kept(Order(profile), SetOf(visited), topn);
        KeptInTable(Order(profile), SetOf(visited), topn);
        seq(|kept|, p requires 0 <= p < |kept| => listing[kept[p]].id)
    }

    lemma KeptInTable(order: seq<nat>, visited: set<int>, topn: int)
      requires forall p :: 0 <= p < |order| ==> order[p] < |listing|
      ensures forall p :: 0 <= p < |Kept(order, visited, topn)| ==> Kept(order, visited, topn)[p] < |listing|
    {
      var k := Kept(order, visited, topn);
      if topn > 0 {
        var e := Eligible(order, visited);
        assert forall p :: 0 <= p < |k| ==> k[p] == e[p];
      }
    }

    /** A position is eligible exactly when it is in `order` and its id was not visited. */
    lemma {:induction false} EligibleMembers(order: seq<nat>, visited: set<int>, x: nat)
      requires forall p :: 0 <= p < |order| ==> order[p] < |listing|
      ensures x in Eligible(order, visited) <==> x in order && listing[x].id !in visited
    {
      if order != [] {
        var n := |order| - 1;
        EligibleMembers(order[..n], visited, x);
        if x in order[..n] { assert x in order; }
        if x in order && x != order[n] {
          var q :| 0 <= q < |order| && order[q] == x;
          assert order[..n][q] == x;
        }
      }
    }

    /** Filtering distributes over concatenation. */
    lemma {:induction false} EligibleAppend(a: seq<nat>, b: seq<nat>, visited: set<int>)
      requires forall p :: 0 <= p < |a| ==> a[p] < |listing|
      requires forall p :: 0 <= p < |b| ==> b[p] < |listing|
      ensures forall p :: 0 <= p < |a + b| ==> (a + b)[p] < |listing|
      ensures Eligible(a + b, visited) == Eligible(a, visited) + Eligible(b, visited)
      decreases |b|
    {
      if b != [] {
        var n := |b| - 1;
        assert (a + b)[..|a + b| - 1] == a + b[..n];
        EligibleAppend(a, b[..n], visited);
      } else {
        assert a + b == a;
      }
    }

    /** `get_recommendations_with_user_preference`: walks the ranking, keeps each position
        whose id is not among the visited ids, and stops once `topn` are kept; any failure
        yields no ids. */
    method RecommendWithPreference(visited: seq<int>, topn: int) returns (ids: seq<int>)
      requires Valid()
      ensures ids == Recommended(visited, topn)
    {
      var profile := GenerateUserProfile(visited);
      if profile.Err? {
        return [];
      }
      var order := Order(profile.value);
      var visitedIds := SetOf(visited);
      var kept := SelectUnvisited(order, visitedIds, topn);
      ids := seq(|kept|, p requires 0 <= p < |kept| => listing[kept[p]].id);
    }

    /** The exclusion loop of `get_recommendations_with_user_preference`. */
    method SelectUnvisited(order: seq<nat>, visited: set<int>, topn: int) returns (kept: seq<nat>)
      requires forall p :: 0 <= p < |order| ==> order[p] < |listing|
      ensures kept == Kept(order, visited, topn)
      ensures forall p :: 0 <= p < |kept| ==> kept[p] < |listing|
    {
      kept := [];
      var p := 0;
      while p < |order|
        invariant 0 <= p <= |order|
        invariant kept == Eligible(order[..p], visited)
        invariant p > 0 ==> |kept| < topn
      {
        var idx := order[p];
        EligibleStep(order, visited, p);
        if listing[idx].id !in visited {
          kept := kept + [idx];
        }
        if |kept| >= topn {
          StopsAtTopn(order, visited, topn, p);
          KeptInTable(order, visited, topn);
          return;
        }
        p := p + 1;
      }
      assert order[..p] == order;
      KeptInTable(order, visited, topn);
    }

    /** When the loop breaks after position `p`, what it has kept is `Kept`. */
    lemma StopsAtTopn(order: seq<nat>, visited: set<int>, topn: int, p: nat)
      requires forall q :: 0 <= q < |order| ==> order[q] < |listing|
      requires p < |order|
      requires p > 0 ==> |Eligible(order[..p], visited)| < topn
      requires |Eligible(order[..p + 1], visited)| >= topn
      ensures Eligible(order[..p + 1], visited) == Kept(order, visited, topn)
    {
      var head := Eligible(order[..p + 1], visited);
      EligibleStep(order, visited, p);
      if topn > 0 {
        EligibleSplit(order, visited, p + 1);
        assert |head| == topn;
      } else {
        assert p == 0;
      }
    }

    /** One more position adds at most that position to the filtered prefix. */
    lemma EligibleStep(order: seq<nat>, visited: set<int>, p: nat)
      requires forall q :: 0 <= q < |order| ==> order[q] < |listing|
      requires p < |order|
      ensures Eligible(order[..p + 1], visited) ==
        Eligible(order[..p], visited) + (if listing[order[p]].id !in visited then [order[p]] else [])
    {
      assert order[..p + 1][..p] == order[..p];
    }

    /** Filtering a ranking is filtering its first `n` positions followed by the rest. */
    lemma EligibleSplit(order: seq<nat>, visited: set<int>, n: nat)
      requires forall q :: 0 <= q < |order| ==> order[q] < |listing|
      requires n <= |order|
      ensures Eligible(order, visited) == Eligible(order[..n], visited) + Eligible(order[n..], visited)
    {
      assert order == order[..n] + order[n..];
      EligibleAppend(order[..n], order[n..], visited);
    }

    /** Filtering keeps the ranking order. */
    lemma {:induction false} EligibleOrdered(scores: seq<real>, order: seq<nat>, visited: set<int>)
      requires forall p :: 0 <= p < |order| ==> order[p] < |listing|
      requires Ordered(scores, order)
      ensures Ordered(scores, Eligible(order, visited))
    {
      if order != [] {
        var n := |order| - 1;
        var init := order[..n];
        OrderedSlice(scores, order, 0, n);
        EligibleOrdered(scores, init, visited);
        var e := Eligible(init, visited);
        forall q | 0 <= q < |e| ensures Before(scores, e[q], order[n]) {
          EligibleMembers(init, visited, e[q]);
          var i :| 0 <= i < n && init[i] == e[q];
          OrderedMeaning(scores, order, i, n);
        }
      }
    }

    /** For `topn >= 1` the kept positions of a ranking are the best `min(topn, eligible)`
        eligible ones: none has a visited id, they are in ranking order, and no eligible
        position left out scores higher than a kept one. */
    lemma KeptTopN(scores: seq<real>, visited: set<int>, topn: int)
      requires Valid() && |scores| == |listing| && topn >= 1
      ensures var order := RankDescending(scores);
        var k := Kept(order, visited, topn);
        (forall p :: 0 <= p < |k| ==> k[p] < |listing| && listing[k[p]].id !in visited) &&
        Ordered(scores, k) &&
        |k| == Min(topn, |Eligible(order, visited)|) &&
        forall p, j ::
          0 <= p < |k| && 0 <= j < |listing| && listing[j].id !in visited && j !in k ==>
            scores[k[p]] >= scores[j]
    {
      var order := RankDescending(scores);
      var k := Kept(order, visited, topn);
      var e := Eligible(order, visited);
      EligibleOrdered(scores, order, visited);
      var m := Min(topn, |e|);
      OrderedSlice(scores, e, 0, m);
      assert k == e[..m];
      forall p | 0 <= p < |k| ensures listing[k[p]].id !in visited {
        EligibleMembers(order, visited, k[p]);
      }
      assert forall t :: 0 <= t < m ==> e[t] in k;
      forall p, j | 0 <= p < |k| && 0 <= j < |listing| && listing[j].id !in visited && j !in k
        ensures scores[k[p]] >= scores[j]
      {
        assert j in order;
        EligibleMembers(order, visited, j);
        var t :| 0 <= t < |e| && e[t] == j;
        OrderedMeaning(scores, e, p, t);
      }
    }

    /** For `topn <= 0` the loop stops after the top position: it is kept if its id was not
        visited, and nothing else is. */
    lemma KeptFirstOnly(scores: seq<real>, visited: set<int>, topn: int)
      requires Valid() && |scores| == |listing| && topn <= 0
      ensures var order := RankDescending(scores);
        var k := Kept(order, visited, topn);
        |k| <= 1 &&
        (forall p :: 0 <= p < |k| ==> k[p] == order[0] && listing[k[p]].id !in visited) &&
        (order != [] && listing[order[0]].id !in visited ==> k == [order[0]])
    {
      var order := RankDescending(scores);
      if order != [] {
        assert order[..1] == order[..0] + [order[0]];
        EligibleAppend(order[..0], [order[0]], visited);
      }
    }

    /** No recommended id is among the visited ids, valid or not, for `topn >= 1` at most
        `topn` ids are returned, and a history with no known listing yields no ids. */
    lemma RecommendedSkipsVisited(visited: seq<int>, topn: int)
      requires Valid()
      ensures (forall j :: 0 <= j < |visited| ==> visited[j] !in Ids(listing)) ==>
        Recommended(visited, topn) == []
      ensures forall p :: 0 <= p < |Recommended(visited, topn)| ==> Recommended(visited, topn)[p] !in visited
      ensures topn >= 1 ==> |Recommended(visited, topn)| <= topn
      ensures topn <= 0 ==> |Recommended(visited, topn)| <= 1
    {
      if GenerateUserProfile(visited).Ok? {
        var profile := GenerateUserProfile(visited).value;
        if topn >= 1 {
          KeptTopN(Scores(profile), SetOf(visited), topn);
        } else {
          KeptFirstOnly(Scores(profile), SetOf(visited), topn);
        }
      }
    }

    /** When at most `topn` table rows have an unvisited id, every one of them is recommended. */
    lemma RecommendedAllWhenFew(visited: seq<int>, topn: int, i: nat)
      requires Valid() && GenerateUserProfile(visited).Ok? && topn >= 1
      requires i < |listing| && listing[i].id !in visited
      requires |Eligible(Order(GenerateUserProfile(visited).value), SetOf(visited))| <= topn
      ensures listing[i].id in Recommended(visited, topn)
    {
      var order := Order(GenerateUserProfile(visited).value);
      assert i in order;
      var p := KeptAllWhenFew(order, SetOf(visited), topn, i);
      RecommendedIds(visited, topn);
    }

    /** When at most `topn` positions are eligible, every eligible position of a full
        ranking is kept; `p` is where. */
    lemma KeptAllWhenFew(order: seq<nat>, visited: set<int>, topn: int, i: nat) returns (p: nat)
      requires forall q :: 0 <= q < |order| ==> order[q] < |listing|
      requires topn >= 1 && |Eligible(order, visited)| <= topn
      requires i in order && listing[i].id !in visited
      ensures p < |Kept(order, visited, topn)| && Kept(order, visited, topn)[p] == i
    {
      var k := Kept(order, visited, topn);
      assert k == Eligible(order, visited);
      EligibleMembers(order, visited, i);
      p :| 0 <= p < |k| && k[p] == i;
    }

    /** With a profile, the recommended ids are those of the kept positions, in order. */
    lemma RecommendedIds(visited: seq<int>, topn: int)
      requires Valid() && GenerateUserProfile(visited).Ok?
      ensures var k := Kept(Order(GenerateUserProfile(visited).value), SetOf(visited), topn);
        |Recommended(visited, topn)| == |k| &&
        forall p :: 0 <= p < |k| ==> k[p] < |listing| && Recommended(visited, topn)[p] == listing[k[p]].id
    {
      KeptInTable(Order(GenerateUserProfile(visited).value), SetOf(visited), topn);
    }
  }
}
