/**
 The interactor that builds the catalog list the app shows: it appends the
 installed catalogs to the internal ones and orders the result by name, or by
 the user's favorite sources first and then by name.

 The reactive wiring around it is not modelled: each call below takes the
 latest value of every source as a plain sequence and returns the list that
 would be emitted for those values.
 */
module GetLocalCatalogs {
  import opened Catalogs
  import opened Comparators
  import opened StableSort

  /** `internal + installed`: the internal catalogs, then the installed ones. */
  function Merge(internal: seq<Catalog>, installed: seq<Catalog>): (r: seq<Catalog>)
    ensures |r| == |internal| + |installed|
    ensures r[..|internal|] == internal && r[|internal|..] == installed
    ensures multiset(r) == multiset(internal) + multiset(installed)
  {
    internal + installed
  }

  /**
   The rank map built from the favorite source ids: each id is mapped to its
   position in the sequence, and a later occurrence of an id replaces an
   earlier one. Its keys are exactly the favorite ids and every rank is a
   position in `ids`.
   */
  function RankMapOf(ids: seq<int>): (m: map<int, int>)
    ensures m.Keys == set i | 0 <= i < |ids| :: ids[i]
    ensures forall id :: id in m ==> 0 <= m[id] < |ids|
  {
    if ids == [] then map[]
    else
      var init := ids[..|ids| - 1];
      assert forall i :: 0 <= i < |init| ==> init[i] == ids[i];
      assert (set i | 0 <= i < |ids| :: ids[i]) == (set i | 0 <= i < |init| :: init[i]) + {ids[|ids| - 1]};
      RankMapOf(init)[ids[|ids| - 1] := |ids| - 1]
  }

  /** The ids are pairwise distinct. */
  predicate Distinct(ids: seq<int>)
  {
    forall i, j :: 0 <= i < j < |ids| ==> ids[i] != ids[j]
  }

  /** An id's rank is the position of its last occurrence. */
  lemma {:induction false} RankMapLastWins(ids: seq<int>, i: int)
    requires 0 <= i < |ids|
    requires forall j :: i < j < |ids| ==> ids[j] != ids[i]
    ensures ids[i] in RankMapOf(ids) && RankMapOf(ids)[ids[i]] == i
  {
    if i < |ids| - 1 {
      var init := ids[..|ids| - 1];
      RankMapLastWins(init, i);
    }
  }

  /** With distinct ids, the id at position `i` has rank `i`; no ids gives the empty map. */
  lemma {:induction false} RankMapOfDistinct(ids: seq<int>)
    requires Distinct(ids)
    ensures forall i :: 0 <= i < |ids| ==> ids[i] in RankMapOf(ids) && RankMapOf(ids)[ids[i]] == i
    ensures ids == [] ==> RankMapOf(ids) == map[]
  {
    forall i | 0 <= i < |ids|
      ensures ids[i] in RankMapOf(ids) && RankMapOf(ids)[ids[i]] == i
    {
      RankMapLastWins(ids, i);
    }
  }

  /**
   `var position = 0; favoriteIds.associateWith { position++ }`: walks the ids
   in order, mapping each to the current position and then advancing it.
   */
  method BuildRanks(favoriteIds: seq<int>) returns (ranks: map<int, int>)
    ensures ranks == RankMapOf(favoriteIds)
    ensures ranks.Keys == set i | 0 <= i < |favoriteIds| :: favoriteIds[i]
    ensures forall id :: id in ranks ==> 0 <= ranks[id] < |favoriteIds|
    ensures Distinct(favoriteIds) ==>
              forall i :: 0 <= i < |favoriteIds| ==> ranks[favoriteIds[i]] == i
  {
    var position := 0;
    ranks := map[];
    while position < |favoriteIds|
      invariant 0 <= position <= |favoriteIds|
      invariant ranks == RankMapOf(favoriteIds[..position])
    {
      assert favoriteIds[..position + 1][..position] == favoriteIds[..position];
      ranks := ranks[favoriteIds[position] := position];
      position := position + 1;
    }
    assert favoriteIds[..position] == favoriteIds;
    if Distinct(favoriteIds) {
      RankMapOfDistinct(favoriteIds);
    }
  }

  /**
   `interact(sort)` for one value of each source: the merged list sorted by
   name, or by favorite rank and then by name.
   */
  method Interact(sort: CatalogSort, internal: seq<Catalog>, installed: seq<Catalog>, favoriteIds: seq<int>)
    returns (catalogs: seq<Catalog>)
    ensures multiset(catalogs) == multiset(internal) + multiset(installed)
    ensures sort == Name ==> catalogs == SortedWith(ByName, Merge(internal, installed))
    ensures sort == Favorites ==>
              catalogs == SortedWith(ByFavorites(RankMapOf(favoriteIds)), Merge(internal, installed))
  {
    var merged := Merge(internal, installed);
    match sort
    case Name =>
      catalogs := SortedWith(ByName, merged);
    case Favorites =>
      var ranks := BuildRanks(favoriteIds);
      catalogs := SortedWith(ByFavorites(ranks), merged);
  }

  /** The catalogs of `s` named `name`, in the order `s` has them. */
  function Named(s: seq<Catalog>, name: string): (r: seq<Catalog>)
    ensures |r| <= |s|
  {
    if s == [] then []
    else (if s[0].name == name then [s[0]] else []) + Named(s[1..], name)
  }

  /** Under the Name policy, the catalogs tied with `k` are those named like `k`. */
  lemma {:induction false} NamedAreTies(s: seq<Catalog>, k: Catalog)
    ensures TiesWith(ByName, k, s) == Named(s, k.name)
  {
    if s != [] {
      NamedAreTies(s[1..], k);
    }
  }

  /**
   The Name sort: a permutation of the merged list, names non-decreasing in
   string order, and catalogs with equal names in merged order.
   */
  lemma NameSortCorrect(internal: seq<Catalog>, installed: seq<Catalog>, name: string)
    ensures multiset(SortedWith(ByName, Merge(internal, installed))) == multiset(internal) + multiset(installed)
    ensures var r := SortedWith(ByName, Merge(internal, installed));
            forall i, j :: 0 <= i < j < |r| ==> CompareNames(r[i].name, r[j].name) <= 0
    ensures Named(SortedWith(ByName, Merge(internal, installed)), name) == Named(internal + installed, name)
  {
    var k := Catalog(0, name);
    SortedWithInOrder(ByName, internal + installed);
    SortedWithStable(ByName, k, internal + installed);
    NamedAreTies(internal + installed, k);
    NamedAreTies(SortedWith(ByName, internal + installed), k);
  }

  /** A list already in name order comes back unchanged from the Name sort. */
  lemma NameSortIdempotent(cs: seq<Catalog>)
    requires forall i, j :: 0 <= i < j < |cs| ==> CompareNames(cs[i].name, cs[j].name) <= 0
    ensures SortedWith(ByName, cs) == cs
  {
    SortedWithIdempotent(ByName, cs);
  }

  /** Along the Favorites sort, ranks never decrease, and names never decrease within a rank. */
  lemma FavoritesMonotone(ranks: map<int, int>, cs: seq<Catalog>)
    ensures var r := SortedWith(ByFavorites(ranks), cs);
            forall i, j :: 0 <= i < j < |r| ==>
              && RankOf(ranks, r[i]) <= RankOf(ranks, r[j])
              && (RankOf(ranks, r[i]) == RankOf(ranks, r[j]) ==> CompareNames(r[i].name, r[j].name) <= 0)
  {
    var o := ByFavorites(ranks);
    var r := SortedWith(o, cs);
    SortedWithInOrder(o, cs);
    forall i, j | 0 <= i < j < |r|
      ensures RankOf(ranks, r[i]) <= RankOf(ranks, r[j])
      ensures RankOf(ranks, r[i]) == RankOf(ranks, r[j]) ==> CompareNames(r[i].name, r[j].name) <= 0
    {
      assert Le(o, r[i], r[j]);
    }
  }

  /**
   The Favorites sort against any rank map whose ranks stay below the
   sentinel: favorites come first, favorites in ascending rank, equal ranks by
   name, and catalogs tied on rank and name in input order. `k` is any
   catalog: the catalogs tied with it are those with its rank and its name.
   */
  lemma FavoritesSortCorrect(ranks: map<int, int>, cs: seq<Catalog>, k: Catalog)
    requires forall id :: id in ranks ==> ranks[id] < IntMax
    ensures multiset(SortedWith(ByFavorites(ranks), cs)) == multiset(cs)
    ensures var r := SortedWith(ByFavorites(ranks), cs);
            forall i, j :: 0 <= i < j < |r| && r[j].id in ranks ==> r[i].id in ranks
    ensures var r := SortedWith(ByFavorites(ranks), cs);
            forall i, j :: 0 <= i < j < |r| && r[i].id in ranks && r[j].id in ranks ==>
              ranks[r[i].id] <= ranks[r[j].id]
    ensures var r := SortedWith(ByFavorites(ranks), cs);
            forall i, j :: 0 <= i < j < |r| && RankOf(ranks, r[i]) == RankOf(ranks, r[j]) ==>
              CompareNames(r[i].name, r[j].name) <= 0
    ensures TiesWith(ByFavorites(ranks), k, SortedWith(ByFavorites(ranks), cs)) == TiesWith(ByFavorites(ranks), k, cs)
  {
    FavoritesMonotone(ranks, cs);
    SortedWithStable(ByFavorites(ranks), k, cs);
  }

  /** The rank map holds exactly the favorite ids. */
  lemma RankMapHoldsFavorites(ids: seq<int>)
    ensures forall id :: id in RankMapOf(ids) <==> id in ids
  {
    forall id ensures id in RankMapOf(ids) <==> id in ids {
      if id in ids {
        var q :| 0 <= q < |ids| && ids[q] == id;
      }
    }
  }

  /** A catalog whose id is a favorite never follows one whose id is not. */
  lemma FavoriteIdsFirst(favoriteIds: seq<int>, cs: seq<Catalog>)
    requires |favoriteIds| <= IntMax
    ensures var r := SortedWith(ByFavorites(RankMapOf(favoriteIds)), cs);
            forall i, j :: 0 <= i < j < |r| && r[j].id in favoriteIds ==> r[i].id in favoriteIds
  {
    var ranks := RankMapOf(favoriteIds);
    RankMapHoldsFavorites(favoriteIds);
    FavoritesMonotone(ranks, cs);
    var r := SortedWith(ByFavorites(ranks), cs);
    forall i, j | 0 <= i < j < |r| && r[j].id in favoriteIds
      ensures r[i].id in favoriteIds
    {
      assert RankOf(ranks, r[i]) <= RankOf(ranks, r[j]) < IntMax;
    }
  }

  /** With distinct ids, favorited catalogs come in the order of `favoriteIds`. */
  lemma FavoriteIdsInOrder(favoriteIds: seq<int>, cs: seq<Catalog>)
    requires Distinct(favoriteIds)
    ensures var r := SortedWith(ByFavorites(RankMapOf(favoriteIds)), cs);
            forall i, j, p, q ::
              (0 <= i < j < |r| && 0 <= p < |favoriteIds| && 0 <= q < |favoriteIds| &&
               r[i].id == favoriteIds[p] && r[j].id == favoriteIds[q]) ==> p <= q
  {
    var ranks := RankMapOf(favoriteIds);
    RankMapOfDistinct(favoriteIds);
    FavoritesMonotone(ranks, cs);
    var r := SortedWith(ByFavorites(ranks), cs);
    forall i, j, p, q |
      0 <= i < j < |r| && 0 <= p < |favoriteIds| && 0 <= q < |favoriteIds| &&
      r[i].id == favoriteIds[p] && r[j].id == favoriteIds[q]
      ensures p <= q
    {
      assert ranks[favoriteIds[p]] == p && ranks[favoriteIds[q]] == q;
      assert r == SortedWith(ByFavorites(RankMapOf(favoriteIds)), cs);
      assert RankOf(ranks, r[i]) <= RankOf(ranks, r[j]);
    }
  }

  /** Catalogs whose ids are not favorites are ordered among themselves by name. */
  lemma UnfavoritedByName(favoriteIds: seq<int>, cs: seq<Catalog>)
    ensures var r := SortedWith(ByFavorites(RankMapOf(favoriteIds)), cs);
            forall i, j :: 0 <= i < j < |r| && r[i].id !in favoriteIds && r[j].id !in favoriteIds ==>
              CompareNames(r[i].name, r[j].name) <= 0
  {
    var ranks := RankMapOf(favoriteIds);
    RankMapHoldsFavorites(favoriteIds);
    FavoritesMonotone(ranks, cs);
    var r := SortedWith(ByFavorites(ranks), cs);
    forall i, j | 0 <= i < j < |r| && r[i].id !in favoriteIds && r[j].id !in favoriteIds
      ensures CompareNames(r[i].name, r[j].name) <= 0
    {
      assert RankOf(ranks, r[i]) == IntMax == RankOf(ranks, r[j]);
    }
  }

  /**
   The Favorites policy end to end, with distinct favorite ids: a catalog
   whose id is a favorite never follows one whose id is not, favorites appear
   in the order of `favoriteIds`, and the others are ordered by name.
   */
  lemma FavoritesFollowFavoriteIds(favoriteIds: seq<int>, internal: seq<Catalog>, installed: seq<Catalog>)
    requires Distinct(favoriteIds) && |favoriteIds| <= IntMax
    ensures var r := SortedWith(ByFavorites(RankMapOf(favoriteIds)), Merge(internal, installed));
            forall i, j :: 0 <= i < j < |r| && r[j].id in favoriteIds ==> r[i].id in favoriteIds
    ensures var r := SortedWith(ByFavorites(RankMapOf(favoriteIds)), Merge(internal, installed));
            forall i, j, p, q ::
              (0 <= i < j < |r| && 0 <= p < |favoriteIds| && 0 <= q < |favoriteIds| &&
               r[i].id == favoriteIds[p] && r[j].id == favoriteIds[q]) ==> p <= q
    ensures var r := SortedWith(ByFavorites(RankMapOf(favoriteIds)), Merge(internal, installed));
            forall i, j :: 0 <= i < j < |r| && r[i].id !in favoriteIds && r[j].id !in favoriteIds ==>
              CompareNames(r[i].name, r[j].name) <= 0
  {
    FavoriteIdsFirst(favoriteIds, internal + installed);
    FavoriteIdsInOrder(favoriteIds, internal + installed);
    UnfavoritedByName(favoriteIds, internal + installed);
  }

  /** Internal Batoto (id 1) and installed Aggregator (id 2) under the Name policy. */
  lemma ScenarioByName()
    ensures SortedWith(ByName, Merge([Catalog(1, "Batoto")], [Catalog(2, "Aggregator")]))
            == [Catalog(2, "Aggregator"), Catalog(1, "Batoto")]
  {
  }

  /** The same catalogs under the Favorites policy with Batoto as the only favorite. */
  lemma ScenarioOneFavorite()
    ensures SortedWith(ByFavorites(RankMapOf([1])), Merge([Catalog(1, "Batoto")], [Catalog(2, "Aggregator")]))
            == [Catalog(1, "Batoto"), Catalog(2, "Aggregator")]
  {
  }

  /** The favorites change to [2, 1] while the catalogs stay the same. */
  lemma ScenarioFavoritesReordered()
    ensures SortedWith(ByFavorites(RankMapOf([2, 1])), Merge([Catalog(1, "Batoto")], [Catalog(2, "Aggregator")]))
            == [Catalog(2, "Aggregator"), Catalog(1, "Batoto")]
  {
  }
}
