/** Attaching visitors to listings: reviews are grouped by listing, the groups are
    left-joined onto the listing table, and listings without a group get `[]`. */
module Preprocessing {

  datatype Review = Review(listingId: int, reviewerId: int)

  /** A row of the listing table; `attributes` stands for every other column. */
  datatype ListingRecord<A> = ListingRecord(id: int, attributes: A)

  /** A listing row with the `visitors` column added. */
  datatype WithVisitors<A> = WithVisitors(record: ListingRecord<A>, visitors: seq<int>)

  /** `review_df.groupby('listing_id')['reviewer_id'].agg(list)`: one entry per listing id
      that has reviews, its reviewers in review order. */
  function GroupReviewers(reviews: seq<Review>): map<int, seq<int>>
  {
    if reviews == [] then map[]
    else
      var g := GroupReviewers(reviews[..|reviews| - 1]);
      var r := reviews[|reviews| - 1];
      g[r.listingId := (if r.listingId in g then g[r.listingId] else []) + [r.reviewerId]]
  }

  /** The reviewers of listing `id`, in review order, duplicates kept. */
  function ReviewersOf(reviews: seq<Review>, id: int): seq<int>
  {
    if reviews == [] then []
    else
      var r := reviews[|reviews| - 1];
      ReviewersOf(reviews[..|reviews| - 1], id) + (if r.listingId == id then [r.reviewerId] else [])
  }

  /** A listing id has a group exactly when some review names it, and the group is the
      listing's reviewers. */
  lemma {:induction false} GroupReviewersMeaning(reviews: seq<Review>, id: int)
    ensures id in GroupReviewers(reviews) <==> exists j :: 0 <= j < |reviews| && reviews[j].listingId == id
    ensures id in GroupReviewers(reviews) ==> GroupReviewers(reviews)[id] == ReviewersOf(reviews, id)
    ensures id !in GroupReviewers(reviews) ==> ReviewersOf(reviews, id) == []
  {
    if reviews != [] {
      var init := reviews[..|reviews| - 1];
      GroupReviewersMeaning(init, id);
      if j :| 0 <= j < |init| && init[j].listingId == id {
        assert reviews[j].listingId == id;
      }
      if j :| 0 <= j < |reviews| && reviews[j].listingId == id {
        if j < |init| { assert init[j].listingId == id; }
      }
    }
  }

  /** The merged table: the listing rows in their order, each with the reviewers of its id,
      or `[]` when no review names it. */
  function AddVisitors<A>(listings: seq<ListingRecord<A>>, reviews: seq<Review>): (r: seq<WithVisitors<A>>)
    ensures |r| == |listings|
    ensures forall i :: 0 <= i < |r| ==> r[i].record == listings[i]
    ensures forall i :: 0 <= i < |r| ==> r[i].visitors == ReviewersOf(reviews, listings[i].id)
  {
    var groups := GroupReviewers(reviews);
    seq(|listings|, i requires 0 <= i < |listings| =>
      WithVisitors(listings[i], FillMissing(groups, reviews, listings[i].id)))
  }

  /** The left join's value for one listing, with a missing group filled by `[]`. */
  function FillMissing(groups: map<int, seq<int>>, reviews: seq<Review>, id: int): (v: seq<int>)
    requires groups == GroupReviewers(reviews)
    ensures v == ReviewersOf(reviews, id)
  {
    GroupReviewersMeaning(reviews, id);
    if id in groups then groups[id] else []
  }

  /** A reviewer is among a listing's visitors exactly when one of the listing's own reviews
      is theirs; a listing nobody reviewed gets `[]`, and a review of an id missing from the
      listing table reaches no row. */
  lemma {:induction false} ReviewersOfMembers(reviews: seq<Review>, id: int, x: int)
    ensures x in ReviewersOf(reviews, id) <==>
      exists j :: 0 <= j < |reviews| && reviews[j] == Review(id, x)
    ensures ReviewersOf(reviews, id) == [] <==>
      forall j :: 0 <= j < |reviews| ==> reviews[j].listingId != id
  {
    if reviews != [] {
      var init := reviews[..|reviews| - 1];
      ReviewersOfMembers(init, id, x);
      if j :| 0 <= j < |init| && init[j] == Review(id, x) {
        assert reviews[j] == Review(id, x);
      }
      if j :| 0 <= j < |reviews| && reviews[j] == Review(id, x) {
        if j < |init| { assert init[j] == Review(id, x); }
      }
      if ReviewersOf(reviews, id) == [] {
        forall j | 0 <= j < |reviews| ensures reviews[j].listingId != id {
          if j < |init| { assert init[j] == reviews[j]; }
        }
      }
      if forall j :: 0 <= j < |reviews| ==> reviews[j].listingId != id {
        assert forall j :: 0 <= j < |init| ==> init[j] == reviews[j];
      }
    }
  }
}
