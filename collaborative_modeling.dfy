/** The collaborative recommender after `create_similarity_matrix`: the listing ids in
    group order and their pairwise similarities, queried by listing id. */
module CollaborativeModeling {
  import opened Common
  import opened Ranking

  predicate Distinct(s: seq<int>)
  {
    forall i, j :: 0 <= i < j < |s| ==> s[i] != s[j]
  }

  /** `listing_indices` and `listing_similarity`; before the matrix is built both are empty. */
  datatype Modeling = Modeling(listingIndices: seq<int>, listingSimilarity: seq<seq<real>>)
  {
    /** What `create_similarity_matrix` establishes: a square matrix with one row per listing,
        and the listing ids of a group index, hence distinct. */
    predicate Valid()
    {
      |listingSimilarity| == |listingIndices| &&
      (forall i :: 0 <= i < |listingSimilarity| ==> |listingSimilarity[i]| == |listingIndices|) &&
      Distinct(listingIndices)
    }

    /** The positions `sorted(enumerate(row), reverse=True)[1:top_k + 1]` selects for a known
        listing: ranked by similarity to it (a stable sort, so ties keep ascending position),
        the top-ranked one dropped, `top_k` of them when that many remain, and every
        left-out position less similar than a kept one or equally similar and later. */
    function SimilarPositions(listingId: int, topK: int): (r: seq<nat>)
      requires Valid() && listingId in listingIndices
      ensures var idx := FirstIndex(listingIndices, listingId).value;
        var row := listingSimilarity[idx];
        (topK >= 0 ==> |r| == Min(topK, |listingIndices| - 1)) &&
        (topK == -1 ==> r == []) &&
        (topK < -1 ==> |r| == Max(0, |listingIndices| + topK)) &&
        Ordered(row, r) &&
        RankDescending(row)[0] !in r &&
        (forall p, j ::
          0 <= p < |r| && 0 <= j < |row| && j !in r && j != RankDescending(row)[0] ==>
            row[r[p]] >= row[j]) &&
        forall p, j ::
          0 <= p < |r| && 0 <= j < |row| && j !in r && j != RankDescending(row)[0] ==>
            Before(row, r[p], j)
    {
      var idx := FirstIndex(listingIndices, listingId).value;
      RankedAfterFirst(listingSimilarity[idx], topK + 1)
    }

    /** `get_similar_listings`: `[]` for an unknown id; otherwise the ids at the selected
        positions, which are distinct, none more than `top_k`, and in ranking order. */
    function SimilarListings(listingId: int, topK: int): (r: seq<int>)
      requires Valid()
      ensures listingId !in listingIndices ==> r == []
      ensures listingId in listingIndices ==>
        var pos := SimilarPositions(listingId, topK);
        |r| == |pos| && forall p :: 0 <= p < |pos| ==> pos[p] < |listingIndices| && r[p] == listingIndices[pos[p]]
      ensures Distinct(r)
      ensures topK >= 0 ==> |r| <= topK
    {
      if listingId !in listingIndices then []
      else
        var pos := SimilarPositions(listingId, topK);
        var idx := FirstIndex(listingIndices, listingId).value;
        var r := seq(|pos|, p requires 0 <= p < |pos| => listingIndices[pos[p]]);
        assert Distinct(r) by {
          forall p, q | 0 <= p < q < |r| ensures r[p] != r[q] {
            OrderedMeaning(listingSimilarity[idx], pos, p, q);
          }
        }
        r
    }
  }
}
