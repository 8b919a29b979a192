/** Ranking of row indices by descending score. Python's `sorted(enumerate(row),
    key=score, reverse=True)` is stable, so equal scores keep ascending index order;
    numpy's `argsort()[::-1]` yields some descending order, of which this is one. */
module Ranking {
  import opened Common

  /** Index `a` ranks ahead of index `b`: a higher score, or the same score and a smaller index. */
  predicate Before(scores: seq<real>, a: nat, b: nat)
    requires a < |scores| && b < |scores|
  {
    scores[a] > scores[b] || (scores[a] == scores[b] && a < b)
  }

  /** Every index in `r` is a position of `scores` and `r` lists them in ranking order. */
  predicate Ordered(scores: seq<real>, r: seq<nat>)
  {
    (forall p :: 0 <= p < |r| ==> r[p] < |scores|) &&
    (forall p, q :: 0 <= p < q < |r| ==> Before(scores, r[p], r[q]))
  }

  /** Inserts index `i` at its place in an ordered list of other indices. */
  function Insert(scores: seq<real>, r: seq<nat>, i: nat): (r': seq<nat>)
    requires i < |scores| && i !in r && Ordered(scores, r)
    ensures |r'| == |r| + 1
    ensures forall x :: x in r' <==> x in r || x == i
    ensures Ordered(scores, r')
  {
    if r == [] then [i]
    else
      OrderedTail(scores, r);
      if Before(scores, i, r[0]) then
        assert forall x :: x in r ==> x == r[0] || x in r[1..];
        OrderedCons(scores, i, r);
        [i] + r
      else
        var rest := Insert(scores, r[1..], i);
        OrderedCons(scores, r[0], rest);
        [r[0]] + rest
  }

  /** The tail of an ordered list is ordered, and its head ranks ahead of every entry. */
  lemma OrderedTail(scores: seq<real>, r: seq<nat>)
    requires Ordered(scores, r) && r != []
    ensures Ordered(scores, r[1..])
    ensures forall x :: x in r[1..] ==> Before(scores, r[0], x)
  {
    OrderedSlice(scores, r, 1, |r|);
    forall x | x in r[1..] ensures Before(scores, r[0], x) {
      var q :| 0 <= q < |r[1..]| && r[1..][q] == x;
      assert r[q + 1] == x;
    }
  }

  /** An index that ranks ahead of every entry of an ordered list may be put in front of it. */
  lemma OrderedCons(scores: seq<real>, h: nat, r: seq<nat>)
    requires h < |scores| && Ordered(scores, r)
    requires forall x :: x in r ==> x < |scores| && Before(scores, h, x)
    ensures Ordered(scores, [h] + r)
  {
    forall p, q | 0 <= p < q < |[h] + r| ensures Before(scores, ([h] + r)[p], ([h] + r)[q]) {
      assert ([h] + r)[q] == r[q - 1];
      if p > 0 { assert ([h] + r)[p] == r[p - 1]; }
    }
  }

  /** The ranking of the indices `0 .. k - 1`. */
  function RankPrefix(scores: seq<real>, k: nat): (r: seq<nat>)
    requires k <= |scores|
    ensures |r| == k
    ensures forall x: nat :: x in r <==> x < k
    ensures Ordered(scores, r)
  {
    if k == 0 then [] else Insert(scores, RankPrefix(scores, k - 1), k - 1)
  }

  /** All positions of `scores`, best first. */
  function RankDescending(scores: seq<real>): (r: seq<nat>)
    ensures |r| == |scores|
    ensures forall x: nat :: x in r <==> x < |scores|
    ensures Ordered(scores, r)
  {
    RankPrefix(scores, |scores|)
  }

  /** Along an ordered list the scores never increase, equal scores come in ascending
      index order, and no index appears twice. */
  lemma OrderedMeaning(scores: seq<real>, r: seq<nat>, p: nat, q: nat)
    requires Ordered(scores, r) && p < q < |r|
    ensures scores[r[p]] >= scores[r[q]]
    ensures scores[r[p]] == scores[r[q]] ==> r[p] < r[q]
    ensures r[p] != r[q]
  {
  }

  /** A list obtained by dropping elements from an ordered list is ordered. */
  lemma {:induction false} OrderedSlice(scores: seq<real>, r: seq<nat>, lo: nat, hi: nat)
    requires Ordered(scores, r) && lo <= hi <= |r|
    ensures Ordered(scores, r[lo..hi])
  {
    forall p, q | 0 <= p < q < hi - lo
      ensures Before(scores, r[lo..hi][p], r[lo..hi][q])
    {
      assert r[lo..hi][p] == r[lo + p] && r[lo..hi][q] == r[lo + q];
    }
  }

  /** The first entry of the ranking holds the highest score. */
  lemma FirstIsBest(scores: seq<real>, j: nat)
    requires j < |scores|
    ensures scores[RankDescending(scores)[0]] >= scores[j]
  {
    var r := RankDescending(scores);
    assert j in r;
    var q :| 0 <= q < |r| && r[q] == j;
    if q > 0 { OrderedMeaning(scores, r, 0, q); }
  }

  /** `ranking[1:stop]` with Python's slice bounds: the ranking with its top entry dropped,
      cut after `stop - 1` entries. It is a run of consecutive ranks starting at rank 2, so
      every index it leaves out, apart from the dropped top one, scores no higher than any
      index it keeps, and on equal scores has the larger index. */
  function RankedAfterFirst(scores: seq<real>, stop: int): (r: seq<nat>)
    requires scores != []
    ensures stop >= 1 ==> |r| == Min(stop - 1, |scores| - 1)
    ensures stop == 0 ==> r == []
    ensures stop < 0 ==> |r| == Max(0, |scores| + stop - 1)
    ensures Ordered(scores, r)
    ensures RankDescending(scores)[0] !in r
    ensures forall p, j ::
              0 <= p < |r| && 0 <= j < |scores| && j !in r && j != RankDescending(scores)[0] ==>
                scores[r[p]] >= scores[j]
    ensures forall p, j ::
              0 <= p < |r| && 0 <= j < |scores| && j !in r && j != RankDescending(scores)[0] ==>
                Before(scores, r[p], j)
  {
    var order := RankDescending(scores);
    var hi := AfterFirstBound(|order|, stop);
    AfterFirstOrdered(scores, order, hi);
    AfterFirstLeavesLower(scores, order, hi);
    PySlice(order, 1, stop)
  }

  /** `PySlice(s, 1, stop)` of a non-empty `s` is the run `s[1..hi]` for the returned `hi`. */
  function AfterFirstBound(n: nat, stop: int): (hi: nat)
    requires n >= 1
    ensures 1 <= hi <= n
    ensures stop >= 1 ==> hi - 1 == Min(stop - 1, n - 1)
    ensures stop == 0 ==> hi == 1
    ensures stop < 0 ==> hi - 1 == Max(0, n + stop - 1)
    ensures forall s: seq<nat> :: |s| == n ==> PySlice(s, 1, stop) == s[1..hi]
  {
    var h := SliceBound(stop, n);
    if 1 < h then h else 1
  }

  /** The run `order[1..hi]` of the ranking is ordered and leaves out its top entry. */
  lemma AfterFirstOrdered(scores: seq<real>, order: seq<nat>, hi: nat)
    requires scores != [] && order == RankDescending(scores) && 1 <= hi <= |order|
    ensures Ordered(scores, order[1..hi]) && order[0] !in order[1..hi]
  {
    OrderedSlice(scores, order, 1, hi);
    forall p | 0 <= p < hi - 1 ensures order[1..hi][p] != order[0] {
      OrderedMeaning(scores, order, 0, p + 1);
    }
  }

  /** Every index that the run `order[1..hi]` leaves out, apart from the top one, ranks
      behind every index the run keeps, hence scores no higher. */
  lemma AfterFirstLeavesLower(scores: seq<real>, order: seq<nat>, hi: nat)
    requires scores != [] && order == RankDescending(scores) && 1 <= hi <= |order|
    ensures forall p, j ::
              0 <= p < hi - 1 && 0 <= j < |scores| && j !in order[1..hi] && j != order[0] ==>
                scores[order[1..hi][p]] >= scores[j]
    ensures forall p, j ::
              0 <= p < hi - 1 && 0 <= j < |scores| && j !in order[1..hi] && j != order[0] ==>
                Before(scores, order[1..hi][p], j)
  {
    var r := order[1..hi];
    forall q | 1 <= q < hi ensures order[q] in r { assert r[q - 1] == order[q]; }
    forall p, j | 0 <= p < |r| && 0 <= j < |scores| && j !in r && j != order[0]
      ensures Before(scores, r[p], j) && scores[r[p]] >= scores[j]
    {
      assert j in order;
      var q :| 0 <= q < |order| && order[q] == j;
      assert q >= hi;
      OrderedMeaning(scores, order, p + 1, q);
    }
  }
}
