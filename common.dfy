/** Shared vocabulary: results with the recommender's error conditions, Python-style
    slicing, multiplicities, sets of sequence elements and arithmetic means. */
module Common {

  /** The exceptions the recommender raises or runs into. */
  datatype Error =
    | NoValidListings        // ValueError: none of the visited ids is in the listing table
    | NoVisitedListings      // IndexError: `visited_listings[0]` on an empty list
    | SimilarityNotComputed  // TypeError: indexing the similarity matrix while it is None
    | RowOutOfRange          // IndexError: a row position beyond the similarity matrix
    | ZeroStep               // ValueError: `range(0, n, 0)`
    | NoValidUsers           // ValueError: no user passes the eligibility threshold
    | NegativeSample         // ValueError: `random.sample` with a negative size
    | ZeroDivision           // ZeroDivisionError: an integer divided by k == 0
    | Unhashable             // TypeError: `set(...)` over a DataFrame or a list

  datatype Result<T> = Ok(value: T) | Err(error: Error)

  datatype Option<T> = None | Some(value: T)

  function Min(a: int, b: int): int { if a <= b then a else b }

  function Max(a: int, b: int): int { if a <= b then b else a }

  /** Python's normalisation of one slice bound against a length `n`. */
  function SliceBound(x: int, n: nat): (r: nat)
    ensures r <= n
    ensures 0 <= x <= n ==> r == x
    ensures x > n ==> r == n
  {
    var y := if x < 0 then x + n else x;
    if y < 0 then 0 else if y > n then n else y
  }

  /** Python's `s[start:stop]`, negative bounds counting from the end. */
  function PySlice<T>(s: seq<T>, start: int, stop: int): (r: seq<T>)
    ensures |r| <= |s|
    ensures 0 <= start <= |s| && start <= stop ==> r == s[start..Min(stop, |s|)]
    ensures 0 <= stop <= start ==> r == []
  {
    var lo := SliceBound(start, |s|);
    var hi := SliceBound(stop, |s|);
    if lo < hi then s[lo..hi] else []
  }

  /** `s[1:topn + 1]` with `topn >= 0` keeps `min(topn, |s| - 1)` elements after the first. */
  lemma DropFirstTake<T>(s: seq<T>, topn: int)
    requires topn >= 0
    ensures |PySlice(s, 1, topn + 1)| == if s == [] then 0 else Min(topn, |s| - 1)
    ensures s != [] ==> PySlice(s, 1, topn + 1) == s[1..Min(topn + 1, |s|)]
  {
  }

  /** Number of occurrences of `x` in `s`. */
  function Count<T(==)>(s: seq<T>, x: T): (c: nat)
    ensures c <= |s|
    ensures c > 0 <==> x in s
  {
    if s == [] then 0 else Count(s[..|s| - 1], x) + (if s[|s| - 1] == x then 1 else 0)
  }

  function Repeat<T>(x: T, n: nat): (r: seq<T>)
    ensures |r| == n && forall i :: 0 <= i < n ==> r[i] == x
  {
    seq(n, _ => x)
  }

  lemma RepeatMembers<T>(x: T, n: nat)
    ensures forall y :: y in Repeat(x, n) <==> n > 0 && y == x
  {
    if n > 0 { assert Repeat(x, n)[0] == x; }
  }

  /** Python's `set(s)`. */
  function SetOf(s: seq<int>): (r: set<int>)
    ensures forall x :: x in r <==> x in s
  {
    set x | x in s
  }

  /** The set of a non-empty sequence is the set of its initial part plus its last element. */
  lemma SetOfSnoc(s: seq<int>, n: nat)
    requires n == |s| - 1
    ensures SetOf(s) == SetOf(s[..n]) + {s[n]}
  {
    assert s == s[..n] + [s[n]];
  }

  lemma {:induction false} SetOfSize(s: seq<int>)
    ensures |SetOf(s)| <= |s|
  {
    if s != [] {
      var t := s[..|s| - 1];
      SetOfSize(t);
      assert SetOf(s) == SetOf(t) + {s[|s| - 1]} by {
        assert s == t + [s[|s| - 1]];
      }
    }
  }

  /** Position of the first occurrence of `x` (Python's `list.index`). */
  function FirstIndex<T(==)>(s: seq<T>, x: T): (r: Option<nat>)
    ensures r.None? <==> x !in s
    ensures r.Some? ==> r.value < |s| && s[r.value] == x && x !in s[..r.value]
  {
    if s == [] then None
    else if s[0] == x then Some(0)
    else match FirstIndex(s[1..], x)
      case None => None
      case Some(i) => assert s[1..][..i] == s[1..i + 1]; Some(i + 1)
  }

  /** Elements in first-appearance order (pandas `Series.unique()`). */
  function Unique(s: seq<int>): (r: seq<int>)
    ensures forall x :: x in r <==> x in s
    ensures forall i, j :: 0 <= i < j < |r| ==> r[i] != r[j]
    ensures s != [] ==> r != [] && r[0] == s[0]
  {
    if s == [] then []
    else
      var u := Unique(s[..|s| - 1]);
      if s[|s| - 1] in u then u else u + [s[|s| - 1]]
  }

  /** `p` is the first position of `x` in `s`, so `list.index` finds it. */
  lemma FirstIndexAt(s: seq<int>, x: int, p: nat)
    requires p < |s| && s[p] == x && x !in s[..p]
    ensures FirstIndex(s, x) == Some(p)
  {
    var q := FirstIndex(s, x).value;
    assert forall k :: 0 <= k < p ==> s[..p][k] == s[k];
    assert forall k :: 0 <= k < q ==> s[..q][k] == s[k];
  }

  /** `Unique` lists the distinct elements in the order of their first appearance. */
  lemma {:induction false} UniqueInOrder(s: seq<int>, i: nat, j: nat)
    requires i < j < |Unique(s)|
    ensures FirstIndex(s, Unique(s)[i]).Some? && FirstIndex(s, Unique(s)[j]).Some?
    ensures FirstIndex(s, Unique(s)[i]).value < FirstIndex(s, Unique(s)[j]).value
  {
    var n := |s| - 1;
    var init, u := s[..n], Unique(s[..n]);
    assert Unique(s)[i] in u;
    var x, y := Unique(s)[i], Unique(s)[j];
    FirstIndexPrefix(s, n, x);
    if j < |u| {
      UniqueInOrder(init, i, j);
      FirstIndexPrefix(s, n, y);
    } else {
      assert y == s[n] && y !in init;
      FirstIndexAt(s, y, n);
    }
  }

  /** An element of the prefix `s[..n]` is found at the same position in `s`. */
  lemma FirstIndexPrefix(s: seq<int>, n: nat, x: int)
    requires n <= |s| && x in s[..n]
    ensures FirstIndex(s, x).Some? && FirstIndex(s, x) == FirstIndex(s[..n], x)
  {
    var p := FirstIndex(s[..n], x).value;
    assert s[..n][..p] == s[..p];
    FirstIndexAt(s, x, p);
  }

  function Sum(xs: seq<real>): real
  {
    if xs == [] then 0.0 else Sum(xs[..|xs| - 1]) + xs[|xs| - 1]
  }

  /** Arithmetic mean; the source returns 0 for no values. */
  function Mean(xs: seq<real>): real
  {
    if xs == [] then 0.0 else Sum(xs) / (|xs| as real)
  }

  predicate InUnit(x: real) { 0.0 <= x <= 1.0 }

  lemma {:induction false} SumBetween(xs: seq<real>, lo: real, hi: real)
    requires forall i :: 0 <= i < |xs| ==> lo <= xs[i] <= hi
    ensures |xs| as real * lo <= Sum(xs) <= |xs| as real * hi
  {
    if xs != [] {
      var init := xs[..|xs| - 1];
      SumBetween(init, lo, hi);
      assert |xs| as real * lo == |init| as real * lo + lo;
      assert |xs| as real * hi == |init| as real * hi + hi;
    }
  }

  /** The mean of a non-empty list lies between any common lower and upper bound of its values. */
  lemma MeanBetween(xs: seq<real>, lo: real, hi: real)
    requires xs != [] && forall i :: 0 <= i < |xs| ==> lo <= xs[i] <= hi
    ensures lo <= Mean(xs) <= hi
  {
    SumBetween(xs, lo, hi);
    var n := |xs| as real;
    assert n * lo / n == lo && n * hi / n == hi;
  }

  /** A mean of values in [0, 1] is in [0, 1]. */
  lemma MeanInUnit(xs: seq<real>)
    requires forall i :: 0 <= i < |xs| ==> InUnit(xs[i])
    ensures InUnit(Mean(xs))
  {
    if xs != [] {
      MeanBetween(xs, 0.0, 1.0);
    }
  }

  /** A subset is no larger than its superset. */
  lemma SubsetSize(a: set<int>, b: set<int>)
    requires a <= b
    ensures |a| <= |b|
  {
    assert b == a + (b - a);
  }

  /** A subset as large as its superset is the superset. */
  lemma SubsetSameSize(a: set<int>, b: set<int>)
    requires a <= b && |a| == |b|
    ensures a == b
  {
    assert |b - a| == |b| - |a|;
  }

  /** `hits / n` lies in [0, 1] when the hits are at most `n`. */
  lemma RatioInUnit(hits: nat, n: nat)
    requires 0 < n && hits <= n
    ensures InUnit(hits as real / n as real)
  {
    assert hits as real / n as real <= n as real / n as real;
  }
}
