/** The sparse user x listing count matrix of the item-based recommender: dense indices
    for the sorted distinct user and listing ids, their inverse maps, and the coordinate
    lists whose duplicate pairs the sparse matrix sums. */
module InteractionMatrix {
  import opened Common
  import opened Listings

  predicate StrictlyIncreasing(s: seq<int>)
  {
    forall i, j :: 0 <= i < j < |s| ==> s[i] < s[j]
  }

  predicate IsSetMin(m: int, s: set<int>)
  {
    m in s && forall y :: y in s ==> m <= y
  }

  lemma SomeMember(s: set<int>) returns (x: int)
    requires s != {}
    ensures x in s
  {
    if forall y :: y !in s { assert false; }
    x :| x in s;
  }

  lemma {:induction false} MinExists(s: set<int>)
    requires s != {}
    ensures exists m :: IsSetMin(m, s)
  {
    var x := SomeMember(s);
    if s != {x} {
      MinExists(s - {x});
      var m :| IsSetMin(m, s - {x});
      forall y | y in s ensures y == x || y in s - {x} { }
      if x < m {
        assert IsSetMin(x, s);
      } else {
        assert IsSetMin(m, s);
      }
    } else {
      assert IsSetMin(x, s);
    }
  }

  function SetMin(s: set<int>): (m: int)
    requires s != {}
    ensures IsSetMin(m, s)
  {
    MinExists(s);
    var m :| IsSetMin(m, s);
    m
  }

  /** Python's `sorted(s)` of a set of ids. */
  function Sorted(s: set<int>): (r: seq<int>)
    ensures |r| == |s| && StrictlyIncreasing(r)
    ensures forall x :: x in r <==> x in s
    decreases |s|
  {
    if s == {} then []
    else
      var m := SetMin(s);
      var rest := Sorted(s - {m});
      assert forall x :: x in rest ==> m < x;
      [m] + rest
  }

  /** `{x: i for i, x in enumerate(ids)}`. */
  function Enumerate(ids: seq<int>): (m: map<int, nat>)
    requires StrictlyIncreasing(ids)
    ensures forall i :: 0 <= i < |ids| ==> ids[i] in m && m[ids[i]] == i
    ensures forall x :: x in m <==> x in ids
  {
    map i | 0 <= i < |ids| :: ids[i] := i
  }

  /** Distinct ids have distinct numbers. */
  ghost predicate Injective(m: map<int, nat>)
  {
    forall x, y :: x in m && y in m && x != y ==> m[x] != m[y]
  }

  /** `{v: k for k, v in m.items()}`. */
  function Invert(m: map<int, nat>): (inv: map<nat, int>)
    requires Injective(m)
    ensures forall x :: x in m ==> m[x] in inv && inv[m[x]] == x
    ensures forall i :: i in inv ==> inv[i] in m && m[inv[i]] == i
  {
    map x | x in m :: m[x] := x
  }

  /** `m` numbers the ids `s` densely from 0, a smaller id getting a smaller number. */
  ghost predicate DenseOrderedIndex(m: map<int, nat>, s: set<int>)
  {
    m.Keys == s &&
    (forall x :: x in m ==> m[x] < |s|) &&
    (forall x, y :: x in m && y in m && x < y ==> m[x] < m[y])
  }

  /** `inv` is the exact inverse of `m`, defined on `0 .. n - 1`. */
  ghost predicate ExactInverse(m: map<int, nat>, inv: map<nat, int>, n: nat)
  {
    (forall i: nat :: i in inv <==> i < n) &&
    (forall x :: x in m ==> m[x] in inv && inv[m[x]] == x) &&
    (forall i :: i in inv ==> inv[i] in m && m[inv[i]] == i)
  }

  /** Numbering a strictly increasing list of the ids `s` is dense and ordered. */
  lemma EnumerateDense(ids: seq<int>, s: set<int>)
    requires StrictlyIncreasing(ids) && |ids| == |s|
    requires forall x :: x in ids <==> x in s
    ensures DenseOrderedIndex(Enumerate(ids), s)
  {
    var m := Enumerate(ids);
    forall x ensures x in m.Keys <==> x in s { }
    assert m.Keys == s;
    EnumerateOrdered(ids);
  }

  /** Each number is a position, and a smaller id sits at a smaller position. */
  lemma EnumerateOrdered(ids: seq<int>)
    requires StrictlyIncreasing(ids)
    ensures forall x :: x in Enumerate(ids) ==> Enumerate(ids)[x] < |ids|
    ensures forall x, y :: x in Enumerate(ids) && y in Enumerate(ids) && x < y ==>
      Enumerate(ids)[x] < Enumerate(ids)[y]
  {
    var m := Enumerate(ids);
    forall x | x in m ensures m[x] < |ids| {
      var i := PositionOf(ids, x);
    }
    forall x, y | x in m && y in m && x < y ensures m[x] < m[y] {
      var i := PositionOf(ids, x);
      var j := PositionOf(ids, y);
    }
  }

  /** Where an id sits in a strictly increasing list, and the number it is given. */
  lemma PositionOf(ids: seq<int>, x: int) returns (i: nat)
    requires StrictlyIncreasing(ids) && x in ids
    ensures i < |ids| && ids[i] == x && Enumerate(ids)[x] == i
  {
    i :| 0 <= i < |ids| && ids[i] == x;
  }

  /** Inverting that numbering gives its exact inverse on `0 .. |ids| - 1`. */
  lemma EnumerateInverse(ids: seq<int>)
    requires StrictlyIncreasing(ids) && Injective(Enumerate(ids))
    ensures ExactInverse(Enumerate(ids), Invert(Enumerate(ids)), |ids|)
  {
    var m := Enumerate(ids);
    var inv := Invert(m);
    forall i: nat ensures i in inv <==> i < |ids| {
      if i < |ids| { assert m[ids[i]] == i; }
      if i in inv { assert inv[i] in m; }
    }
  }

  /** The index of `sorted(s)` is dense, ordered, and its inversion is an exact inverse. */
  lemma SortedIndexFacts(s: set<int>)
    ensures DenseOrderedIndex(Enumerate(Sorted(s)), s)
    ensures Injective(Enumerate(Sorted(s)))
    ensures ExactInverse(Enumerate(Sorted(s)), Invert(Enumerate(Sorted(s))), |s|)
  {
    var m := Enumerate(Sorted(s));
    EnumerateDense(Sorted(s), s);
    forall x, y | x in m && y in m && x != y ensures m[x] != m[y] {
      if x < y { assert m[x] < m[y]; } else { assert m[y] < m[x]; }
    }
    EnumerateInverse(Sorted(s));
  }

  /** The two facts about the index of `sorted(s)` that building it needs. */
  lemma SortedIndexKeys(s: set<int>)
    ensures Injective(Enumerate(Sorted(s))) && Enumerate(Sorted(s)).Keys == s
  {
    SortedIndexFacts(s);
  }

  /** The sparse matrix `csr_matrix((ones, (rows, cols)), shape)`: duplicate coordinates add up. */
  datatype CountMatrix = CountMatrix(numRows: nat, numCols: nat, rows: seq<nat>, cols: seq<nat>)
  {
    function Entry(u: nat, l: nat): nat
      requires |rows| == |cols|
    {
      PairCount(rows, cols, u, l)
    }
  }

  /** Number of positions `k` holding the coordinate pair `(u, l)`. */
  function PairCount(rows: seq<nat>, cols: seq<nat>, u: nat, l: nat): nat
    requires |rows| == |cols|
  {
    if rows == [] then 0
    else
      var n := |rows| - 1;
      PairCount(rows[..n], cols[..n], u, l) + (if rows[n] == u && cols[n] == l then 1 else 0)
  }

  /** The index maps, their inverses and the count matrix. */
  datatype InteractionIndex = InteractionIndex(
    userToIdx: map<int, nat>,
    listingToIdx: map<int, nat>,
    idxToUser: map<nat, int>,
    idxToListing: map<nat, int>,
    matrix: CountMatrix)

  function ListingIdsOf(t: seq<Listing>): set<int>
  {
    SetOf(Ids(t))
  }

  lemma ListingIdsPrefix(t: seq<Listing>, i: nat)
    requires i <= |t|
    ensures ListingIdsOf(t[..i]) <= ListingIdsOf(t)
  {
    forall x | x in Ids(t[..i]) ensures x in Ids(t) {
      var k :| 0 <= k < i && Ids(t[..i])[k] == x;
      assert Ids(t)[k] == x;
    }
  }

  /** `[m[v] for v in vs]`. */
  function MapIds(m: map<int, nat>, vs: seq<int>): (r: seq<nat>)
    requires forall j :: 0 <= j < |vs| ==> vs[j] in m
    ensures |r| == |vs| && forall j :: 0 <= j < |vs| ==> r[j] == m[vs[j]]
  {
    seq(|vs|, j requires 0 <= j < |vs| => m[vs[j]])
  }

  /** The row coordinates: for each table row in order, the index of each of its visitors. */
  function RowCoords(t: seq<Listing>, um: map<int, nat>): seq<nat>
    requires UsersOf(t) <= um.Keys
  {
    if t == [] then []
    else
      var vs := t[|t| - 1].visitors;
      assert forall j :: 0 <= j < |vs| ==> vs[j] in SetOf(vs);
      RowCoords(t[..|t| - 1], um) + MapIds(um, vs)
  }

  /** The column coordinates: for each table row, its listing index once per visitor. */
  function ColCoords(t: seq<Listing>, lm: map<int, nat>): seq<nat>
    requires ListingIdsOf(t) <= lm.Keys
  {
    if t == [] then []
    else
      var last := t[|t| - 1];
      assert last.id == Ids(t)[|t| - 1];
      ListingIdsPrefix(t, |t| - 1);
      ColCoords(t[..|t| - 1], lm) + Repeat(lm[last.id], |last.visitors|)
  }

  /** The index the builder produces for table `t`. */
  function IndexOf(t: seq<Listing>): InteractionIndex
  {
    var users, listings := UsersOf(t), ListingIdsOf(t);
    var um, lm := UserIndex(t), ListingIndex(t);
    SortedIndexKeys(users);
    SortedIndexKeys(listings);
    InteractionIndex(um, lm, Invert(um), Invert(lm),
      CountMatrix(|users|, |listings|, RowCoords(t, um), ColCoords(t, lm)))
  }

  /** How often user `u` occurs among the visitors of the rows whose id is `lid`. */
  function Occurrences(t: seq<Listing>, u: int, lid: int): nat
  {
    if t == [] then 0
    else
      var last := t[|t| - 1];
      Occurrences(t[..|t| - 1], u, lid) + (if last.id == lid then Count(last.visitors, u) else 0)
  }

  lemma {:induction false} CoordLengths(t: seq<Listing>, um: map<int, nat>, lm: map<int, nat>)
    requires UsersOf(t) <= um.Keys && ListingIdsOf(t) <= lm.Keys
    ensures |RowCoords(t, um)| == |ColCoords(t, lm)| == TotalVisits(t)
  {
    if t != [] {
      ListingIdsPrefix(t, |t| - 1);
      CoordLengths(t[..|t| - 1], um, lm);
    }
  }

  /** Every coordinate is a value of the corresponding index map. */
  lemma {:induction false} CoordBounds(t: seq<Listing>, um: map<int, nat>, lm: map<int, nat>, nu: nat, nl: nat)
    requires UsersOf(t) <= um.Keys && ListingIdsOf(t) <= lm.Keys
    requires forall x :: x in um ==> um[x] < nu
    requires forall x :: x in lm ==> lm[x] < nl
    ensures forall k :: 0 <= k < |RowCoords(t, um)| ==> RowCoords(t, um)[k] < nu
    ensures forall k :: 0 <= k < |ColCoords(t, lm)| ==> ColCoords(t, lm)[k] < nl
  {
    if t != [] {
      ListingIdsPrefix(t, |t| - 1);
      CoordBounds(t[..|t| - 1], um, lm, nu, nl);
    }
  }

  lemma {:induction false} PairCountAppend(a: seq<nat>, b: seq<nat>, c: seq<nat>, d: seq<nat>, u: nat, l: nat)
    requires |a| == |c| && |b| == |d|
    ensures PairCount(a + b, c + d, u, l) == PairCount(a, c, u, l) + PairCount(b, d, u, l)
  {
    if b == [] {
      assert a + b == a && c + d == c;
    } else {
      var n := |b| - 1;
      assert (a + b)[..|a| + n] == a + b[..n];
      assert (c + d)[..|c| + n] == c + d[..n];
      assert (a + b)[|a| + n] == b[n] && (c + d)[|c| + n] == d[n];
      PairCountAppend(a, b[..n], c, d[..n], u, l);
    }
  }

  /** One row's coordinates hold the pair of `u` and `lid` once per occurrence of `u`,
      and only when the row's id is `lid`. */
  lemma {:induction false} PairCountRow(vs: seq<int>, um: map<int, nat>, col: nat, u: int, cu: nat, cl: nat)
    requires forall j :: 0 <= j < |vs| ==> vs[j] in um
    requires u in um && cu == um[u]
    requires Injective(um)
    ensures PairCount(MapIds(um, vs), Repeat(col, |vs|), cu, cl) == if col == cl then Count(vs, u) else 0
  {
    if vs != [] {
      var n := |vs| - 1;
      assert MapIds(um, vs)[..n] == MapIds(um, vs[..n]);
      assert Repeat(col, |vs|)[..n] == Repeat(col, n);
      PairCountRow(vs[..n], um, col, u, cu, cl);
      assert MapIds(um, vs)[n] == um[vs[n]];
      assert um[vs[n]] == cu <==> vs[n] == u;
    }
  }

  /** Matrix entry (index of `u`, index of `lid`) counts the occurrences of `u` in the
      visitors of the rows with id `lid`. */
  lemma {:induction false} CoordsCountOccurrences(t: seq<Listing>, um: map<int, nat>, lm: map<int, nat>, u: int, lid: int)
    requires UsersOf(t) <= um.Keys && ListingIdsOf(t) <= lm.Keys
    requires u in um && lid in lm
    requires Injective(um) && Injective(lm)
    ensures |RowCoords(t, um)| == |ColCoords(t, lm)|
    ensures PairCount(RowCoords(t, um), ColCoords(t, lm), um[u], lm[lid]) == Occurrences(t, u, lid)
  {
    CoordLengths(t, um, lm);
    if t != [] {
      var init, last := t[..|t| - 1], t[|t| - 1];
      ListingIdsPrefix(t, |t| - 1);
      CoordLengths(init, um, lm);
      CoordsCountOccurrences(init, um, lm, u, lid);
      assert forall j :: 0 <= j < |last.visitors| ==> last.visitors[j] in SetOf(last.visitors);
      assert last.id == Ids(t)[|t| - 1];
      PairCountAppend(RowCoords(init, um), MapIds(um, last.visitors),
                      ColCoords(init, lm), Repeat(lm[last.id], |last.visitors|), um[u], lm[lid]);
      PairCountRow(last.visitors, um, lm[last.id], u, um[u], lm[lid]);
    }
  }

  /** Occurrences are positive exactly for observed (user, listing) pairs. */
  lemma {:induction false} OccurrencesObserved(t: seq<Listing>, u: int, lid: int)
    ensures Occurrences(t, u, lid) > 0 <==> exists i :: Visits(t, i, u) && t[i].id == lid
  {
    if t != [] {
      var init := t[..|t| - 1];
      OccurrencesObserved(init, u, lid);
      if i :| Visits(init, i, u) && init[i].id == lid {
        assert Visits(t, i, u) && t[i].id == lid;
      }
      if i :| Visits(t, i, u) && t[i].id == lid {
        if i < |init| { assert Visits(init, i, u) && init[i].id == lid; }
      }
    }
  }

  /** The user map of `IndexOf`, spelled out. */
  lemma IndexOfUserMaps(t: seq<Listing>)
    ensures IndexOf(t).userToIdx == UserIndex(t)
    ensures Injective(UserIndex(t)) && IndexOf(t).idxToUser == Invert(UserIndex(t))
  {
    SortedIndexKeys(UsersOf(t));
  }

  /** The listing map of `IndexOf`, spelled out. */
  lemma IndexOfListingMaps(t: seq<Listing>)
    ensures IndexOf(t).listingToIdx == ListingIndex(t)
    ensures Injective(ListingIndex(t)) && IndexOf(t).idxToListing == Invert(ListingIndex(t))
  {
    SortedIndexKeys(ListingIdsOf(t));
  }

  /** The matrix of `IndexOf`, spelled out. */
  lemma IndexOfMatrix(t: seq<Listing>)
    ensures UsersOf(t) <= UserIndex(t).Keys && ListingIdsOf(t) <= ListingIndex(t).Keys
    ensures IndexOf(t).matrix ==
      CountMatrix(|UsersOf(t)|, |ListingIdsOf(t)|, RowCoords(t, UserIndex(t)), ColCoords(t, ListingIndex(t)))
  {
    SortedIndexKeys(UsersOf(t));
    SortedIndexKeys(ListingIdsOf(t));
  }

  /** `user_to_idx` numbers the sorted distinct users densely from 0, and `idx_to_user` is
      its exact inverse. */
  lemma IndexUserMaps(t: seq<Listing>)
    ensures DenseOrderedIndex(IndexOf(t).userToIdx, UsersOf(t))
    ensures ExactInverse(IndexOf(t).userToIdx, IndexOf(t).idxToUser, |UsersOf(t)|)
  {
    IndexOfUserMaps(t);
    SortedIndexFacts(UsersOf(t));
  }

  /** `listing_to_idx` numbers the sorted distinct listing ids densely from 0, and
      `idx_to_listing` is its exact inverse. */
  lemma IndexListingMaps(t: seq<Listing>)
    ensures DenseOrderedIndex(IndexOf(t).listingToIdx, ListingIdsOf(t))
    ensures ExactInverse(IndexOf(t).listingToIdx, IndexOf(t).idxToListing, |ListingIdsOf(t)|)
  {
    IndexOfListingMaps(t);
    SortedIndexFacts(ListingIdsOf(t));
  }

  /** The matrix has one row per user and one column per listing, and its coordinate lists
      hold one pair per visitor entry, each within that shape. */
  lemma IndexMatrixFacts(t: seq<Listing>)
    ensures var m := IndexOf(t).matrix;
      m.numRows == |UsersOf(t)| && m.numCols == |ListingIdsOf(t)| &&
      |m.rows| == |m.cols| == TotalVisits(t) &&
      (forall k :: 0 <= k < |m.rows| ==> m.rows[k] < m.numRows) &&
      (forall k :: 0 <= k < |m.cols| ==> m.cols[k] < m.numCols)
  {
    var um, lm := UserIndex(t), ListingIndex(t);
    IndexOfMatrix(t);
    SortedIndexBound(UsersOf(t));
    SortedIndexBound(ListingIdsOf(t));
    CoordLengths(t, um, lm);
    CoordBounds(t, um, lm, |UsersOf(t)|, |ListingIdsOf(t)|);
  }

  /** Every number the index of `sorted(s)` hands out is below `|s|`. */
  lemma SortedIndexBound(s: set<int>)
    ensures forall x :: x in Enumerate(Sorted(s)) ==> Enumerate(Sorted(s))[x] < |s|
  {
    SortedIndexFacts(s);
  }

  /** `user_to_idx`. */
  function UserIndex(t: seq<Listing>): map<int, nat>
  {
    Enumerate(Sorted(UsersOf(t)))
  }

  /** `listing_to_idx`. */
  function ListingIndex(t: seq<Listing>): map<int, nat>
  {
    Enumerate(Sorted(ListingIdsOf(t)))
  }

  /** Entry (u, l) of the matrix is the number of times user u occurs among the visitors
      of the rows mapped to column l: at least 1 for an observed pair and 0 otherwise. */
  lemma EntryCountsVisits(t: seq<Listing>, u: int, lid: int)
    requires u in UsersOf(t) && lid in ListingIdsOf(t)
    ensures var ix := IndexOf(t);
      |ix.matrix.rows| == |ix.matrix.cols| &&
      ix.matrix.Entry(ix.userToIdx[u], ix.listingToIdx[lid]) == Occurrences(t, u, lid) &&
      (ix.matrix.Entry(ix.userToIdx[u], ix.listingToIdx[lid]) >= 1 <==>
        exists i :: Visits(t, i, u) && t[i].id == lid)
  {
    var um, lm := UserIndex(t), ListingIndex(t);
    IndexOfMatrix(t);
    assert IndexOf(t).userToIdx == um && IndexOf(t).listingToIdx == lm;
    CoordsCountOccurrences(t, um, lm, u, lid);
    OccurrencesObserved(t, u, lid);
  }

  /** The loop `for visitors in ...: unique_users.update(visitors)`. */
  method CollectUsers(t: seq<Listing>) returns (users: set<int>)
    ensures users == UsersOf(t)
  {
    users := {};
    var i := 0;
    while i < |t|
      invariant 0 <= i <= |t|
      invariant users == UsersOf(t[..i])
    {
      assert t[..i + 1][..i] == t[..i];
      users := users + SetOf(t[i].visitors);
      i := i + 1;
    }
    assert t[..i] == t;
  }

  /** The loop appending `user_to_idx[user]` to `rows` and the row's listing index to
      `cols` for every visitor entry of every row. */
  method EmitCoordinates(t: seq<Listing>, um: map<int, nat>, lm: map<int, nat>)
    returns (rows: seq<nat>, cols: seq<nat>)
    requires UsersOf(t) <= um.Keys && ListingIdsOf(t) <= lm.Keys
    ensures rows == RowCoords(t, um) && cols == ColCoords(t, lm)
  {
    rows, cols := [], [];
    var i := 0;
    while i < |t|
      invariant 0 <= i <= |t|
      invariant UsersOf(t[..i]) <= um.Keys && ListingIdsOf(t[..i]) <= lm.Keys
      invariant rows == RowCoords(t[..i], um)
      invariant cols == ColCoords(t[..i], lm)
    {
      CoordsStep(t, i, um, lm);
      rows, cols := EmitRow(rows, cols, um, t[i].visitors, lm[t[i].id]);
      i := i + 1;
    }
    assert t[..i] == t;
  }

  /** The inner loop over one row's visitors: a `(user index, listing index)` pair each. */
  method EmitRow(rows0: seq<nat>, cols0: seq<nat>, um: map<int, nat>, vs: seq<int>, listingIdx: nat)
    returns (rows: seq<nat>, cols: seq<nat>)
    requires forall j :: 0 <= j < |vs| ==> vs[j] in um
    ensures rows == rows0 + MapIds(um, vs) && cols == cols0 + Repeat(listingIdx, |vs|)
  {
    rows, cols := rows0, cols0;
    var j := 0;
    while j < |vs|
      invariant 0 <= j <= |vs|
      invariant rows == rows0 + MapIds(um, vs[..j])
      invariant cols == cols0 + Repeat(listingIdx, j)
    {
      assert MapIds(um, vs[..j + 1]) == MapIds(um, vs[..j]) + [um[vs[j]]];
      assert Repeat(listingIdx, j + 1) == Repeat(listingIdx, j) + [listingIdx];
      rows := rows + [um[vs[j]]];
      cols := cols + [listingIdx];
      j := j + 1;
    }
    assert vs[..j] == vs;
  }

  /** One more table row appends that row's coordinates. */
  lemma CoordsStep(t: seq<Listing>, i: nat, um: map<int, nat>, lm: map<int, nat>)
    requires i < |t| && UsersOf(t) <= um.Keys && ListingIdsOf(t) <= lm.Keys
    ensures UsersOf(t[..i + 1]) <= um.Keys && ListingIdsOf(t[..i + 1]) <= lm.Keys
    ensures UsersOf(t[..i]) <= um.Keys && ListingIdsOf(t[..i]) <= lm.Keys
    ensures t[i].id in lm && forall j :: 0 <= j < |t[i].visitors| ==> t[i].visitors[j] in um
    ensures RowCoords(t[..i + 1], um) == RowCoords(t[..i], um) + MapIds(um, t[i].visitors)
    ensures ColCoords(t[..i + 1], lm) == ColCoords(t[..i], lm) + Repeat(lm[t[i].id], |t[i].visitors|)
  {
    ListingIdsStep(t, i);
    UsersStep(t, i, um);
    assert t[..i + 1][..i] == t[..i];
  }

  lemma UsersStep(t: seq<Listing>, i: nat, um: map<int, nat>)
    requires i < |t| && UsersOf(t) <= um.Keys
    ensures UsersOf(t[..i + 1]) == UsersOf(t[..i]) + SetOf(t[i].visitors)
    ensures UsersOf(t[..i + 1]) <= um.Keys
    ensures forall j :: 0 <= j < |t[i].visitors| ==> t[i].visitors[j] in um
  {
    assert t[..i + 1][..i] == t[..i];
    forall j | 0 <= j < |t[i].visitors| ensures t[i].visitors[j] in um {
      UsersOfMembers(t, t[i].visitors[j]);
      assert Visits(t, i, t[i].visitors[j]);
    }
    forall u | u in UsersOf(t[..i + 1]) ensures u in um {
      UsersOfMembers(t[..i + 1], u);
      var k :| Visits(t[..i + 1], k, u);
      assert Visits(t, k, u);
      UsersOfMembers(t, u);
    }
  }

  /** `_create_sparse_user_item_matrix`: collects the users, numbers the sorted ids, emits
      one coordinate pair per visitor entry and inverts the maps. */
  method BuildInteractionIndex(t: seq<Listing>) returns (ix: InteractionIndex)
    ensures ix == IndexOf(t)
  {
    var users := CollectUsers(t);
    var listings := SetOf(Ids(t));
    SortedIndexKeys(users);
    SortedIndexKeys(listings);
    var userToIdx := Enumerate(Sorted(users));
    var listingToIdx := Enumerate(Sorted(listings));
    var rows, cols := EmitCoordinates(t, userToIdx, listingToIdx);
    ix := InteractionIndex(userToIdx, listingToIdx, Invert(userToIdx), Invert(listingToIdx),
      CountMatrix(|users|, |listings|, rows, cols));
  }

  lemma ListingIdsStep(t: seq<Listing>, i: nat)
    requires i < |t|
    ensures ListingIdsOf(t[..i + 1]) == ListingIdsOf(t[..i]) + {t[i].id}
    ensures ListingIdsOf(t[..i + 1]) <= ListingIdsOf(t)
    ensures t[i].id in ListingIdsOf(t)
  {
    assert Ids(t)[i] == t[i].id;
    assert Ids(t[..i + 1]) == Ids(t[..i]) + [t[i].id];
    forall x | x in Ids(t[..i + 1]) ensures x in Ids(t) {
      var k :| 0 <= k < i + 1 && Ids(t[..i + 1])[k] == x;
      assert Ids(t)[k] == x;
    }
  }
}
