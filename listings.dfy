/** The listing table as the recommenders see it: one row per listing with the ids of
    its visitors (duplicates kept), and what can be read off it per user. */
module Listings {
  import opened Common

  datatype Listing = Listing(id: int, visitors: seq<int>)

  /** The `listing_id` column. */
  function Ids(t: seq<Listing>): (r: seq<int>)
    ensures |r| == |t| && forall i :: 0 <= i < |t| ==> r[i] == t[i].id
  {
    seq(|t|, i requires 0 <= i < |t| => t[i].id)
  }

  /** Row `i` of the table lists user `u` among its visitors. */
  predicate Visits(t: seq<Listing>, i: int, u: int)
  {
    0 <= i < |t| && u in t[i].visitors
  }

  /** Every user that occurs in some visitors list. */
  function UsersOf(t: seq<Listing>): set<int>
  {
    if t == [] then {} else UsersOf(t[..|t| - 1]) + SetOf(t[|t| - 1].visitors)
  }

  lemma {:induction false} UsersOfMembers(t: seq<Listing>, u: int)
    ensures u in UsersOf(t) <==> exists i :: Visits(t, i, u)
  {
    if t != [] {
      var init := t[..|t| - 1];
      UsersOfMembers(init, u);
      if u in UsersOf(init) {
        var i :| Visits(init, i, u);
        assert t[i] == init[i];
        assert Visits(t, i, u);
      }
      if u in SetOf(t[|t| - 1].visitors) {
        assert Visits(t, |t| - 1, u);
      }
      if i :| Visits(t, i, u) {
        if i < |init| { assert t[i] == init[i]; assert Visits(init, i, u); }
        else { assert u in SetOf(t[|t| - 1].visitors); }
      }
    }
  }

  /** Total number of visitor entries over all rows. */
  function TotalVisits(t: seq<Listing>): nat
  {
    if t == [] then 0 else TotalVisits(t[..|t| - 1]) + |t[|t| - 1].visitors|
  }

  /** The ids of the rows whose visitors contain `u`, in row order, once per row. */
  function VisitedListings(t: seq<Listing>, u: int): (r: seq<int>)
    ensures |r| <= |t|
  {
    if t == [] then []
    else
      var last := t[|t| - 1];
      VisitedListings(t[..|t| - 1], u) + (if u in last.visitors then [last.id] else [])
  }

  /** An id is among the visited listings exactly when some row with that id has `u` as a visitor. */
  lemma {:induction false} VisitedListingsMembers(t: seq<Listing>, u: int, x: int)
    ensures x in VisitedListings(t, u) <==> exists i :: Visits(t, i, u) && t[i].id == x
  {
    if t != [] {
      var init := t[..|t| - 1];
      VisitedListingsMembers(init, u, x);
      if x in VisitedListings(init, u) {
        var i :| Visits(init, i, u) && init[i].id == x;
        assert Visits(t, i, u) && t[i].id == x;
      }
      if i :| Visits(t, i, u) && t[i].id == x {
        if i < |init| { assert Visits(init, i, u) && init[i].id == x; }
      }
    }
  }

  /** A user's visits: for each row in order, its id once per occurrence of `u` among its visitors. */
  function History(t: seq<Listing>, u: int): (r: seq<int>)
    ensures r == [] <==> u !in UsersOf(t)
  {
    if t == [] then []
    else History(t[..|t| - 1], u) + Repeat(t[|t| - 1].id, Count(t[|t| - 1].visitors, u))
  }

  lemma {:induction false} HistoryLength(t: seq<Listing>, u: int)
    ensures |History(t, u)| >= |VisitedListings(t, u)|
  {
    if t != [] { HistoryLength(t[..|t| - 1], u); }
  }

  /** A history holds the same ids as the visited listings; it differs only in keeping a
      listing once per repeated visit. */
  lemma {:induction false} HistoryMembers(t: seq<Listing>, u: int)
    ensures forall x :: x in History(t, u) <==> x in VisitedListings(t, u)
  {
    if t != [] {
      HistoryMembers(t[..|t| - 1], u);
      var last := t[|t| - 1];
      var c := Count(last.visitors, u);
      RepeatMembers(last.id, c);
    }
  }

  /** Python's per-row loop `for user in visitors: user_listings.setdefault(user, []).append(id)`. */
  method BuildUserListingsMap(t: seq<Listing>) returns (m: map<int, seq<int>>)
    ensures m.Keys == UsersOf(t)
    ensures forall u :: u in m ==> m[u] == History(t, u)
  {
    m := map[];
    var i := 0;
    while i < |t|
      invariant 0 <= i <= |t|
      invariant m.Keys == UsersOf(t[..i])
      invariant forall u :: u in m ==> m[u] == History(t[..i], u)
    {
      assert t[..i + 1][..i] == t[..i];
      ghost var before := m;
      m := AppendVisits(m, t[i].id, t[i].visitors);
      forall u | u in m ensures m[u] == History(t[..i + 1], u) {
        if u !in before {
          assert History(t[..i], u) == [];
        }
      }
      i := i + 1;
    }
    assert t[..i] == t;
  }

  /** The inner loop over one row's visitors: each visitor's list, created empty on first
      sight, grows by the row's id once per occurrence of the visitor. */
  method AppendVisits(m0: map<int, seq<int>>, id: int, vs: seq<int>) returns (m: map<int, seq<int>>)
    ensures m.Keys == m0.Keys + SetOf(vs)
    ensures forall u :: u in m ==> m[u] == Prior(m0, u) + Repeat(id, Count(vs, u))
  {
    m := m0;
    var j := 0;
    while j < |vs|
      invariant 0 <= j <= |vs|
      invariant forall u :: u in m <==> u in m0 || u in vs[..j]
      invariant forall u :: u in m ==> m[u] == Prior(m0, u) + Repeat(id, Count(vs[..j], u))
    {
      var user := vs[j];
      assert vs[..j + 1] == vs[..j] + [user];
      ghost var before := m;
      m := m[user := (if user in m then m[user] else []) + [id]];
      AppendStep(m0, before, m, id, vs, j);
      j := j + 1;
    }
    assert vs[..j] == vs;
    assert forall u :: u in m.Keys <==> u in m0.Keys + SetOf(vs);
  }

  /** A user's list before the row: empty when the user has not been seen. */
  function Prior(m0: map<int, seq<int>>, u: int): seq<int>
  {
    if u in m0 then m0[u] else []
  }

  /** One visitor of the row appended: the lists keep counting the row's id per occurrence. */
  lemma AppendStep(m0: map<int, seq<int>>, before: map<int, seq<int>>, m: map<int, seq<int>>,
                   id: int, vs: seq<int>, j: nat)
    requires j < |vs| && forall u :: u in m0 ==> u in before
    requires forall u :: u in before ==> before[u] == Prior(m0, u) + Repeat(id, Count(vs[..j], u))
    requires forall u :: u !in before ==> Count(vs[..j], u) == 0
    requires m == before[vs[j] := (if vs[j] in before then before[vs[j]] else []) + [id]]
    ensures forall u :: u in m ==> m[u] == Prior(m0, u) + Repeat(id, Count(vs[..j + 1], u))
  {
    assert vs[..j + 1][..j] == vs[..j];
    forall u | u in m ensures m[u] == Prior(m0, u) + Repeat(id, Count(vs[..j + 1], u)) {
      if u == vs[j] {
        assert Repeat(id, Count(vs[..j], u) + 1) == Repeat(id, Count(vs[..j], u)) + [id];
      }
    }
  }
}
