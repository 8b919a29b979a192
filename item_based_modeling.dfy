/** The item-based recommender: a user-listing count matrix built from the listing table,
    a listing-by-listing similarity matrix filled band by band, and recommendations read
    off one similarity row. As written, the row is the table position of the first listing
    the user visited (`ItemBasedRecommendations`); `IntendedRecommendations` reads that
    listing's own row. */
module ItemBasedModeling {
  import opened Common
  import opened Listings
  import opened Ranking
  import opened InteractionMatrix

  /** The values `i` of `range(start, n, size)`: the first rows of the batches. */
  function BatchStarts(start: nat, n: nat, size: nat): seq<nat>
    requires size > 0
    decreases n - start
  {
    if start >= n then [] else [start] + BatchStarts(start + size, n, size)
  }

  /** The batch starts begin at `start`, step by `size`, stay below `n`, and the last one is
      within `size` of `n`. */
  lemma BatchStartsFacts(start: nat, n: nat, size: nat)
    requires size > 0
    ensures var b := BatchStarts(start, n, size);
      (b == [] <==> start >= n) &&
      (b != [] ==> b[0] == start && n <= b[|b| - 1] + size) &&
      (forall k :: 0 <= k < |b| ==> start <= b[k] < n) &&
      (forall k, k' :: 0 <= k && k' == k + 1 && k' < |b| ==> b[k'] == b[k] + size) &&
      (forall k, k' :: 0 <= k < k' < |b| ==> b[k] + size <= b[k'])
  {
    BatchStartsBounds(start, n, size);
    BatchStartsSpaced(start, n, size);
  }

  lemma {:induction false} BatchStartsBounds(start: nat, n: nat, size: nat)
    requires size > 0
    ensures var b := BatchStarts(start, n, size);
      (b == [] <==> start >= n) &&
      (b != [] ==> b[0] == start && n <= b[|b| - 1] + size) &&
      (forall k :: 0 <= k < |b| ==> start <= b[k] < n)
    decreases n - start
  {
    if start < n {
      BatchStartsBounds(start + size, n, size);
      var b := BatchStarts(start, n, size);
      var rest := BatchStarts(start + size, n, size);
      assert b == [start] + rest;
      forall k | 0 < k < |b| ensures start <= b[k] < n { assert b[k] == rest[k - 1]; }
    }
  }

  lemma {:induction false} BatchStartsSpaced(start: nat, n: nat, size: nat)
    requires size > 0
    ensures var b := BatchStarts(start, n, size);
      (forall k, k' :: 0 <= k && k' == k + 1 && k' < |b| ==> b[k'] == b[k] + size) &&
      (forall k, k' :: 0 <= k < k' < |b| ==> b[k] + size <= b[k'])
    decreases n - start
  {
    if start < n {
      BatchStartsSpaced(start + size, n, size);
      BatchStartsBounds(start + size, n, size);
      var b := BatchStarts(start, n, size);
      var rest := BatchStarts(start + size, n, size);
      assert b == [start] + rest;
      forall k, k' | 0 <= k < k' < |b| ensures b[k] + size <= b[k'] {
        assert b[k'] == rest[k' - 1];
        if k > 0 { assert b[k] == rest[k - 1]; }
      }
      forall k, k' | 0 <= k && k' == k + 1 && k' < |b| ensures b[k'] == b[k] + size {
        assert b[k'] == rest[k' - 1];
        if k > 0 { assert b[k] == rest[k - 1]; }
      }
    }
  }

  /** Row `row` lies in batch `k`, the rows `b[k]` to `min(b[k] + size, n) - 1`. */
  predicate InBatch(b: seq<nat>, k: int, n: nat, size: nat, row: nat)
  {
    0 <= k < |b| && b[k] <= row < Min(b[k] + size, n)
  }

  lemma {:induction false} SomeBatchHolds(start: nat, n: nat, size: nat, row: nat) returns (k: nat)
    requires size > 0 && start <= row < n
    ensures InBatch(BatchStarts(start, n, size), k, n, size, row)
    decreases n - start
  {
    var b := BatchStarts(start, n, size);
    var rest := BatchStarts(start + size, n, size);
    BatchStartsFacts(start, n, size);
    if row < start + size {
      k := 0;
    } else {
      var k0 := SomeBatchHolds(start + size, n, size, row);
      k := k0 + 1;
      assert b[k] == rest[k0];
    }
  }

  /** The batches partition the rows: every row lies in exactly one batch. */
  lemma BatchOfRow(n: nat, size: nat, row: nat) returns (k: nat)
    requires size > 0 && row < n
    ensures InBatch(BatchStarts(0, n, size), k, n, size, row)
    ensures forall k' :: InBatch(BatchStarts(0, n, size), k', n, size, row) ==> k' == k
  {
    k := SomeBatchHolds(0, n, size, row);
    var b := BatchStarts(0, n, size);
    BatchStartsFacts(0, n, size);
    forall k' | 0 <= k' < |b| && k' != k ensures !InBatch(b, k', n, size, row) {
      if k' < k { assert b[k'] + size <= b[k]; } else { assert b[k] + size <= b[k']; }
    }
  }

  /** One turn of the batch loop: at `i`, the remaining batch starts are those from `k` on;
      if `i < n` then `i` is the `k`-th start, and once `i >= n` all `k` have been visited. */
  lemma BatchStep(i: nat, n: nat, size: nat, k: nat)
    requires size > 0 && k <= |BatchStarts(0, n, size)|
    requires BatchStarts(i, n, size) == BatchStarts(0, n, size)[k..]
    ensures i < n ==>
      k < |BatchStarts(0, n, size)| && BatchStarts(0, n, size)[k] == i &&
      BatchStarts(i + size, n, size) == BatchStarts(0, n, size)[k + 1..]
    ensures i >= n ==> k == |BatchStarts(0, n, size)|
  {
  }

  /** Row `j` of the transposed matrix: listing `j`'s visit count for every user index. */
  function ItemVector(m: CountMatrix, j: nat): (v: seq<nat>)
    requires |m.rows| == |m.cols|
    ensures |v| == m.numRows && forall u :: 0 <= u < m.numRows ==> v[u] == m.Entry(u, j)
  {
    seq(m.numRows, u requires 0 <= u < m.numRows => m.Entry(u, j))
  }

  /** The entry of listing `lid`'s item vector at user `u` is how often `u` visited it. */
  lemma ItemVectorCountsVisits(t: seq<Listing>, u: int, lid: int)
    requires u in UsersOf(t) && lid in ListingIdsOf(t)
    ensures var ix := IndexOf(t);
      |ix.matrix.rows| == |ix.matrix.cols| &&
      ix.userToIdx[u] < ix.matrix.numRows &&
      ItemVector(ix.matrix, ix.listingToIdx[lid])[ix.userToIdx[u]] == Occurrences(t, u, lid)
  {
    IndexUserMaps(t);
    IndexMatrixFacts(t);
    EntryCountsVisits(t, u, lid);
  }

  /** In the two-row table `[listing 5 visited by user 1, listing 3 visited by user 2]`,
      user 1 visited listing 5 only, and listing 5 heads the table. */
  lemma ExampleVisits(t: seq<Listing>)
    requires t == [Listing(5, [1]), Listing(3, [2])]
    ensures VisitedListings(t, 1) == [5] && Ids(t) == [5, 3]
  {
    assert t[..1] == [Listing(5, [1])] && t[..1][..0] == [];
  }

  /** In the same table, the ids in ascending order are 3 then 5, so listing 3 gets column
      number 0 and listing 5 column number 1. */
  lemma ExampleColumns(t: seq<Listing>)
    requires t == [Listing(5, [1]), Listing(3, [2])]
    ensures ListingIdsOf(t) == {3, 5} && Sorted(ListingIdsOf(t)) == [3, 5]
    ensures ListingIndex(t)[3] == 0 && ListingIndex(t)[5] == 1
  {
    ExampleVisits(t);
    var sorted := Sorted({3, 5});
    assert sorted[0] < sorted[1] && sorted[0] in {3, 5} && sorted[1] in {3, 5};
    assert sorted == [3, 5];
  }

  /** `idx_to_listing` names column `c` by the `c`-th smallest listing id of the table. */
  lemma ColumnNamesSortedIds(t: seq<Listing>)
    ensures forall c :: 0 <= c < |ListingIdsOf(t)| ==>
      c in IndexOf(t).idxToListing && IndexOf(t).idxToListing[c] == Sorted(ListingIdsOf(t))[c]
  {
    var ids := Sorted(ListingIdsOf(t));
    IndexOfListingMaps(t);
    forall c | 0 <= c < |ListingIdsOf(t)|
      ensures c in IndexOf(t).idxToListing && IndexOf(t).idxToListing[c] == ids[c]
    {
      assert ListingIndex(t)[ids[c]] == c;
    }
  }

  /** A listing id of the table has a column number, and that column is named by it. */
  lemma ColumnOfListing(t: seq<Listing>, x: int)
    requires x in ListingIdsOf(t)
    ensures x in ListingIndex(t) && ListingIndex(t)[x] < |ListingIdsOf(t)|
    ensures Sorted(ListingIdsOf(t))[ListingIndex(t)[x]] == x
  {
    var ids := Sorted(ListingIdsOf(t));
    var i :| 0 <= i < |ids| && ids[i] == x;
  }

  /** The ids naming the column numbers `cols`. */
  function ColumnIds(cols: seq<nat>, names: seq<int>): (ids: seq<int>)
    requires forall p :: 0 <= p < |cols| ==> cols[p] < |names|
    ensures |ids| == |cols|
    ensures forall p :: 0 <= p < |cols| ==> ids[p] == names[cols[p]]
  {
    seq(|cols|, p requires 0 <= p < |cols| => names[cols[p]])
  }

  /** The columns `RankedAfterFirst` keeps, named by strictly increasing ids: `stop - 1` of
      them when that many remain, and distinct ids of `names`. */
  lemma RankedColumnIds(scores: seq<real>, stop: int, names: seq<int>)
    requires StrictlyIncreasing(names) && |scores| == |names| && scores != []
    ensures forall p :: 0 <= p < |RankedAfterFirst(scores, stop)| ==>
      RankedAfterFirst(scores, stop)[p] < |names|
    ensures var ids := ColumnIds(RankedAfterFirst(scores, stop), names);
      (stop >= 1 ==> |ids| == Min(stop - 1, |names| - 1)) &&
      (forall p :: 0 <= p < |ids| ==> ids[p] in names) &&
      (forall p, p' :: 0 <= p < p' < |ids| ==> ids[p] != ids[p'])
  {
    var cols := RankedAfterFirst(scores, stop);
    var ids := ColumnIds(cols, names);
    forall p, p' | 0 <= p < p' < |ids| ensures ids[p] != ids[p'] {
      assert Before(scores, cols[p], cols[p']);
      assert cols[p] < cols[p'] || cols[p'] < cols[p];
    }
  }

  /** No id left out of the named columns `RankedAfterFirst` keeps, other than the
      top-ranked column's, scores higher than a kept one. */
  lemma RankedColumnIdsOrder(scores: seq<real>, stop: int, names: seq<int>)
    requires StrictlyIncreasing(names) && |scores| == |names| && scores != []
    ensures forall p :: 0 <= p < |RankedAfterFirst(scores, stop)| ==>
      RankedAfterFirst(scores, stop)[p] < |names|
    ensures var ids := ColumnIds(RankedAfterFirst(scores, stop), names);
      var m := Enumerate(names);
      (forall p :: 0 <= p < |ids| ==> ids[p] in m) &&
      (forall y :: y in m ==> m[y] < |scores|) &&
      (forall y :: y in m && y !in ids && m[y] != RankDescending(scores)[0] ==>
         forall p :: 0 <= p < |ids| ==> scores[m[ids[p]]] >= scores[m[y]])
  {
    var cols := RankedAfterFirst(scores, stop);
    var ids := ColumnIds(cols, names);
    var m := Enumerate(names);
    forall y | y in m && y !in ids && m[y] != RankDescending(scores)[0]
      ensures forall p :: 0 <= p < |ids| ==> scores[m[ids[p]]] >= scores[m[y]]
    {
      var c :| 0 <= c < |names| && names[c] == y;
      assert m[y] == c;
    }
  }

  class ItemBasedRecommender {
    const listing: seq<Listing>
    const userItemMatrix: CountMatrix
    const idxToUser: map<nat, int>
    const idxToListing: map<nat, int>
    /** scikit-learn's cosine similarity of two count vectors. */
    const cosine: (seq<nat>, seq<nat>) -> real
    /** `None` until `CreateSimilarityMatrix` runs. */
    var itemSimilarity: array2?<real>

    /** The shape facts every method relies on. */
    ghost predicate Valid()
      reads this
    {
      |userItemMatrix.rows| == |userItemMatrix.cols| &&
      NumItems() == |ListingIdsOf(listing)| && NumItems() <= |listing| &&
      (itemSimilarity != null ==>
        itemSimilarity.Length0 == NumItems() && itemSimilarity.Length1 == NumItems())
    }

    /** The number of distinct listing ids. */
    function NumItems(): nat
    {
      userItemMatrix.numCols
    }

    constructor(listing: seq<Listing>, cosine: (seq<nat>, seq<nat>) -> real)
      ensures this.listing == listing && this.cosine == cosine
      ensures var ix := IndexOf(listing);
        userItemMatrix == ix.matrix && idxToUser == ix.idxToUser && idxToListing == ix.idxToListing
      ensures itemSimilarity == null
      ensures Valid()
    {
      var ix := BuildInteractionIndex(listing);
      IndexMatrixFacts(listing);
      assert |ix.matrix.rows| == |ix.matrix.cols| && ix.matrix.numCols == |ListingIdsOf(listing)|;
      SetOfSize(Ids(listing));
      this.listing := listing;
      this.cosine := cosine;
      userItemMatrix := ix.matrix;
      idxToUser := ix.idxToUser;
      idxToListing := ix.idxToListing;
      itemSimilarity := null;
    }

    /** The similarity of the listings with column indices `i` and `j`. */
    function Similarity(i: nat, j: nat): real
      requires |userItemMatrix.rows| == |userItemMatrix.cols|
    {
      cosine(ItemVector(userItemMatrix, i), ItemVector(userItemMatrix, j))
    }

    /** `cosine_similarity(item_matrix[lo:hi], item_matrix)`. */
    function BandSimilarities(lo: nat, hi: nat): (band: seq<seq<real>>)
      requires |userItemMatrix.rows| == |userItemMatrix.cols| && lo <= hi
      ensures |band| == hi - lo
      ensures forall r :: 0 <= r < hi - lo ==> |band[r]| == NumItems()
      ensures forall r, c :: 0 <= r < hi - lo && 0 <= c < NumItems() ==> band[r][c] == Similarity(lo + r, c)
    {
      seq(hi - lo, r requires 0 <= r < hi - lo =>
        seq(NumItems(), c requires 0 <= c < NumItems() => Similarity(lo + r, c)))
    }

    /** `create_similarity_matrix`: a zero matrix is installed first; a zero batch size then
        fails in `range`, a negative one leaves it zero, and a positive one fills every
        entry, one band of rows per batch. */
    method CreateSimilarityMatrix(batchSize: int) returns (r: Result<()>)
      requires Valid()
      modifies this
      ensures Valid() && itemSimilarity != null && fresh(itemSimilarity)
      ensures r.Err? <==> batchSize == 0
      ensures r.Err? ==> r.error == ZeroStep
      ensures forall i, j :: 0 <= i < NumItems() && 0 <= j < NumItems() ==>
        itemSimilarity[i, j] == if batchSize > 0 then Similarity(i, j) else 0.0
    {
      var n := NumItems();
      var sim := new real[n, n]((_, _) => 0.0);
      itemSimilarity := sim;
      if batchSize == 0 {
        return Err(ZeroStep);
      }
      r := Ok(());
      if batchSize > 0 {
        FillBatches(sim, batchSize);
      }
    }

    /** The loop of `create_similarity_matrix`: for each batch start `i`, the rows `i` to
        `min(i + size, n) - 1` get their similarities with every listing. */
    method FillBatches(sim: array2<real>, size: nat)
      requires Valid() && size > 0
      requires sim.Length0 == NumItems() && sim.Length1 == NumItems()
      requires forall a, c :: 0 <= a < NumItems() && 0 <= c < NumItems() ==> sim[a, c] == 0.0
      modifies sim
      ensures forall a, c :: 0 <= a < NumItems() && 0 <= c < NumItems() ==> sim[a, c] == Similarity(a, c)
    {
      var n := NumItems();
      var i: nat := 0;
      ghost var k: nat := 0;
      while i < n
        invariant k <= |BatchStarts(0, n, size)|
        invariant BatchStarts(i, n, size) == BatchStarts(0, n, size)[k..]
        invariant forall a, c :: 0 <= a < n && 0 <= c < n ==>
          sim[a, c] == if a < i then Similarity(a, c) else 0.0
        decreases n - i
      {
        var lo, hi := i, Min(i + size, n);
        BatchStep(i, n, size, k);
        var band := BandSimilarities(lo, hi);
        forall a, c | lo <= a < hi && 0 <= c < n {
          sim[a, c] := band[a - lo][c];
        }
        i, k := i + size, k + 1;
      }
      BatchStep(i, n, size, k);
    }

    /** `get_user_visited_listings`: the ids of the rows listing the user, in table order. */
    method GetUserVisitedListings(userId: int) returns (visited: seq<int>)
      ensures visited == VisitedListings(listing, userId)
    {
      visited := [];
      var i := 0;
      while i < |listing|
        invariant 0 <= i <= |listing|
        invariant visited == VisitedListings(listing[..i], userId)
      {
        assert listing[..i + 1][..i] == listing[..i];
        if userId in listing[i].visitors {
          visited := visited + [listing[i].id];
        }
        i := i + 1;
      }
      assert listing[..i] == listing;
    }

    /** The table row looked up for the user: the first row carrying the id of the first
        listing the user visited. It exists exactly when the user visited something, so
        the lookup's `ValueError` cannot occur. */
    function QueryRow(userId: int): (pos: Option<nat>)
      ensures pos.None? <==> VisitedListings(listing, userId) == []
      ensures pos.Some? ==>
        pos.value < |listing| && listing[pos.value].id == VisitedListings(listing, userId)[0] &&
        VisitedListings(listing, userId)[0] !in Ids(listing)[..pos.value]
    {
      var visited := VisitedListings(listing, userId);
      if visited == [] then None
      else
        VisitedListingsMembers(listing, userId, visited[0]);
        var i :| Visits(listing, i, userId) && listing[i].id == visited[0];
        assert Ids(listing)[i] == visited[0];
        FirstIndex(Ids(listing), visited[0])
    }

    /** Row `pos` of the similarity matrix. */
    function SimilarityRow(pos: nat): (row: seq<real>)
      requires itemSimilarity != null && pos < itemSimilarity.Length0
      reads this, itemSimilarity
      ensures |row| == itemSimilarity.Length1
      ensures forall j :: 0 <= j < |row| ==> row[j] == itemSimilarity[pos, j]
    {
      var sim := itemSimilarity;
      seq(sim.Length1, j requires 0 <= j < sim.Length1 reads sim => sim[pos, j])
    }

    /** The positions `argsort()[::-1][1:topn + 1]` of matrix row `QueryRow(userId)`, a
        table position used as a matrix row: ranked by that row's scores, the top-ranked
        one dropped, `topn` of them when that many remain, and no left-out position
        scoring higher than a kept one. */
    function RecommendedRows(userId: int, topn: int): (r: Result<seq<nat>>)
      requires Valid()
      reads this, itemSimilarity
      ensures VisitedListings(listing, userId) == [] <==> r == Err(NoVisitedListings)
      ensures VisitedListings(listing, userId) != [] && itemSimilarity == null <==>
        r == Err(SimilarityNotComputed)
      ensures r == Err(RowOutOfRange) <==>
        QueryRow(userId).Some? && itemSimilarity != null && QueryRow(userId).value >= NumItems()
      ensures r.Err? ==> r.error in {NoVisitedListings, SimilarityNotComputed, RowOutOfRange}
      ensures r.Ok? ==>
        QueryRow(userId).Some? && itemSimilarity != null && QueryRow(userId).value < NumItems() &&
        var row := SimilarityRow(QueryRow(userId).value);
        var rows := r.value;
        (topn >= 0 ==> |rows| == Min(topn, NumItems() - 1)) &&
        (topn == -1 ==> rows == []) &&
        (topn < -1 ==> |rows| == Max(0, NumItems() + topn)) &&
        Ordered(row, rows) &&
        RankDescending(row)[0] !in rows &&
        forall p, j ::
          0 <= p < |rows| && 0 <= j < |row| && j !in rows && j != RankDescending(row)[0] ==>
            row[rows[p]] >= row[j]
    {
      match QueryRow(userId)
      case None => Err(NoVisitedListings)
      case Some(pos) =>
        if itemSimilarity == null then Err(SimilarityNotComputed)
        else if pos >= itemSimilarity.Length0 then Err(RowOutOfRange)
        else Ok(RankedAfterFirst(SimilarityRow(pos), topn + 1))
    }

    /** `get_item_based_recommendations`: the listing ids of the recommended table rows,
        taken by position as `iloc` does. */
    function ItemBasedRecommendations(userId: int, topn: int): (r: Result<seq<int>>)
      requires Valid()
      reads this, itemSimilarity
      ensures r.Ok? <==> RecommendedRows(userId, topn).Ok?
      ensures r.Err? ==> r.error == RecommendedRows(userId, topn).error
      ensures r.Ok? ==>
        var rows := RecommendedRows(userId, topn).value;
        |r.value| == |rows| &&
        forall p :: 0 <= p < |rows| ==> rows[p] < |listing| && r.value[p] == listing[rows[p]].id
    {
      match RecommendedRows(userId, topn)
      case Err(e) => Err(e)
      case Ok(rows) =>
        Ok(seq(|rows|, p requires 0 <= p < |rows| => listing[rows[p]].id))
    }
    /** The matrix row of the user's first visited listing: its column number
        `listing_to_idx[id]`, the place of its id among the table's sorted listing ids. */
    function ListingRow(userId: int): (q: Option<nat>)
      ensures q.None? <==> VisitedListings(listing, userId) == []
      ensures q.Some? ==>
        q.value < |ListingIdsOf(listing)| &&
        Sorted(ListingIdsOf(listing))[q.value] == VisitedListings(listing, userId)[0]
    {
      var visited := VisitedListings(listing, userId);
      if visited == [] then None
      else
        VisitedListingsMembers(listing, userId, visited[0]);
        var i :| Visits(listing, i, userId) && listing[i].id == visited[0];
        ListingIdsStep(listing, i);
        ColumnOfListing(listing, visited[0]);
        Some(ListingIndex(listing)[visited[0]])
    }

    /** `get_item_based_recommendations` with its two lookups made consistent: the
        similarity row of the first visited listing's own column number, ranked, the
        top-ranked entry dropped, and the kept column numbers named by their listing ids
        as `idx_to_listing` names them (`ColumnNamesSortedIds`). */
    function IntendedRecommendations(userId: int, topn: int): (r: Result<seq<int>>)
      requires Valid()
      reads this, itemSimilarity
      ensures VisitedListings(listing, userId) == [] <==> r == Err(NoVisitedListings)
      ensures VisitedListings(listing, userId) != [] && itemSimilarity == null <==>
        r == Err(SimilarityNotComputed)
      ensures r.Err? ==> r.error in {NoVisitedListings, SimilarityNotComputed}
    {
      match ListingRow(userId)
      case None => Err(NoVisitedListings)
      case Some(q) =>
        if itemSimilarity == null then Err(SimilarityNotComputed)
        else
          var cols := RankedAfterFirst(SimilarityRow(q), topn + 1);
          Ok(ColumnIds(cols, Sorted(ListingIdsOf(listing))))
    }

    /** Each corrected recommendation is the listing id naming a column `RankedAfterFirst`
        keeps from the first visited listing's own row. */
    lemma IntendedRecommendationsColumns(userId: int, topn: int)
      requires Valid() && IntendedRecommendations(userId, topn).Ok?
      ensures ListingRow(userId).Some? && itemSimilarity != null
      ensures var r := IntendedRecommendations(userId, topn).value;
        var cols := RankedAfterFirst(SimilarityRow(ListingRow(userId).value), topn + 1);
        |r| == |cols| &&
        forall p :: 0 <= p < |cols| ==>
          cols[p] < NumItems() && r[p] == Sorted(ListingIdsOf(listing))[cols[p]]
    {
      var row := SimilarityRow(ListingRow(userId).value);
      RankedColumnIds(row, topn + 1, Sorted(ListingIdsOf(listing)));
    }

    /** The corrected recommendations are distinct listings of the table, `topn` of them
        when that many remain after the top-ranked one is dropped, and each is at least as
        similar to the first visited listing as any other listing left out, apart from the
        top-ranked one. */
    lemma IntendedRecommendationsRanked(userId: int, topn: int)
      requires Valid() && IntendedRecommendations(userId, topn).Ok?
      ensures var r := IntendedRecommendations(userId, topn).value;
        var row := SimilarityRow(ListingRow(userId).value);
        var index := ListingIndex(listing);
        (topn >= 0 ==> |r| == Min(topn, NumItems() - 1)) &&
        (forall p :: 0 <= p < |r| ==> r[p] in ListingIdsOf(listing) && r[p] in index) &&
        (forall y :: y in index ==> index[y] < |row|) &&
        (forall p, p' :: 0 <= p < p' < |r| ==> r[p] != r[p']) &&
        (forall y :: y in index && y !in r && index[y] != RankDescending(row)[0] ==>
           forall p :: 0 <= p < |r| ==> row[index[r[p]]] >= row[index[y]])
    {
      IntendedRecommendationsColumns(userId, topn);
      var row := SimilarityRow(ListingRow(userId).value);
      var names := Sorted(ListingIdsOf(listing));
      RankedColumnIds(row, topn + 1, names);
      RankedColumnIdsOrder(row, topn + 1, names);
      assert IntendedRecommendations(userId, topn).value ==
        ColumnIds(RankedAfterFirst(row, topn + 1), names);
    }

    /** For the table `[listing 5 visited by user 1, listing 3 visited by user 2]` the code
        queries matrix row 0 for user 1, the table position of listing 5, although column
        0 is listing 3's and listing 5's row is 1. */
    lemma AsWrittenQueriesTablePosition()
      requires listing == [Listing(5, [1]), Listing(3, [2])]
      ensures QueryRow(1) == Some(0) && ListingRow(1) == Some(1)
      ensures Sorted(ListingIdsOf(listing)) == [3, 5]
    {
      ExampleVisits(listing);
      ExampleColumns(listing);
      assert Ids(listing)[0] == 5;
    }
  }
}
