/**
 The comparators the two sorts use, written as functions that return what the
 Kotlin comparators return: a negative number, zero or a positive number.
 */
module Comparators {
  import opened Catalogs

  /** `Int.compareTo`: -1, 0 or 1. */
  function CompareInts(a: int, b: int): (r: int)
    ensures r == -1 || r == 0 || r == 1
    ensures r < 0 <==> a < b
    ensures r == 0 <==> a == b
  {
    if a < b then -1 else if a == b then 0 else 1
  }

  /**
   `String.compareTo`: the difference of the first pair of characters that
   differ, or, when one name is a prefix of the other, the difference of the
   lengths.
   */
  function CompareNames(a: string, b: string): (r: int)
    ensures r == 0 <==> a == b
  {
    if a == [] || b == [] then |a| - |b|
    else if a[0] != b[0] then (a[0] as int) - (b[0] as int)
    else
      assert a == [a[0]] + a[1..] && b == [b[0]] + b[1..];
      CompareNames(a[1..], b[1..])
  }

  /** Lexicographic order on character sequences, stated without recursion. */
  ghost predicate LexLessEq(a: string, b: string)
  {
    (|a| <= |b| && a == b[..|a|])
    || exists k :: 0 <= k < |a| && k < |b| && a[..k] == b[..k] && a[k] < b[k]
  }

  lemma {:induction false} CompareNamesIsLexicographic(a: string, b: string)
    ensures CompareNames(a, b) <= 0 <==> LexLessEq(a, b)
  {
    if a == [] || b == [] {
    } else if a[0] != b[0] {
      if a[0] < b[0] {
        assert a[..0] == b[..0];
      }
    } else {
      CompareNamesIsLexicographic(a[1..], b[1..]);
      LexLessEqTail(a, b);
    }
  }

  /** Dropping a common first character keeps the lexicographic order. */
  lemma LexLessEqTail(a: string, b: string)
    requires a != [] && b != [] && a[0] == b[0]
    ensures LexLessEq(a, b) <==> LexLessEq(a[1..], b[1..])
  {
    var a', b' := a[1..], b[1..];
    assert (|a| <= |b| && a == b[..|a|]) <==> (|a'| <= |b'| && a' == b'[..|a'|]) by {
      if |a| <= |b| && a == b[..|a|] {
        assert a' == b[..|a|][1..];
      }
      if |a'| <= |b'| && a' == b'[..|a'|] {
        assert a == [a[0]] + a' && b[..|a|] == [b[0]] + b'[..|a'|];
      }
    }
    if k :| 0 <= k < |a| && k < |b| && a[..k] == b[..k] && a[k] < b[k] {
      assert k > 0;
      assert a'[..k - 1] == a[..k][1..] && b'[..k - 1] == b[..k][1..];
      assert a'[k - 1] < b'[k - 1];
    }
    if k :| 0 <= k < |a'| && k < |b'| && a'[..k] == b'[..k] && a'[k] < b'[k] {
      assert a[..k + 1] == [a[0]] + a'[..k] && b[..k + 1] == [b[0]] + b'[..k];
      assert a[k + 1] < b[k + 1];
    }
  }

  lemma {:induction false} CompareNamesFlip(a: string, b: string)
    ensures CompareNames(a, b) == -CompareNames(b, a)
  {
    if a != [] && b != [] && a[0] == b[0] {
      CompareNamesFlip(a[1..], b[1..]);
    }
  }

  lemma {:induction false} CompareNamesTransitive(a: string, b: string, c: string)
    requires CompareNames(a, b) <= 0 && CompareNames(b, c) <= 0
    ensures CompareNames(a, c) <= 0
  {
    if a == [] || b == [] || c == [] {
    } else if a[0] != b[0] || b[0] != c[0] {
    } else {
      CompareNamesTransitive(a[1..], b[1..], c[1..]);
    }
  }

  /** `favoriteIds.getOrElse(c.source.id) { Int.MAX_VALUE }`. */
  function RankOf(ranks: map<int, int>, c: Catalog): (r: int)
    ensures c.id in ranks ==> r == ranks[c.id]
    ensures c.id !in ranks ==> r == IntMax
  {
    if c.id in ranks then ranks[c.id] else IntMax
  }

  /** `FavoritesComparator.compare`: orders catalogs by favorite rank alone. */
  function FavoritesCompare(ranks: map<int, int>, c1: Catalog, c2: Catalog): (r: int)
    ensures r == -1 || r == 0 || r == 1
    ensures c1.id in ranks && c2.id in ranks ==>
              (r < 0 <==> ranks[c1.id] < ranks[c2.id]) && (r == 0 <==> ranks[c1.id] == ranks[c2.id])
    ensures c1.id !in ranks && c2.id !in ranks ==> r == 0
    ensures c1.id !in ranks && c2.id in ranks && ranks[c2.id] < IntMax ==> r > 0
    ensures c1.id in ranks && c2.id !in ranks && ranks[c1.id] < IntMax ==> r < 0
  {
    CompareInts(RankOf(ranks, c1), RankOf(ranks, c2))
  }

  /**
   The comparator a sort is run with: `compareBy { it.name }` for the Name
   policy, `FavoritesComparator(ranks).thenBy { it.name }` for Favorites.
   */
  datatype Ordering = ByName | ByFavorites(ranks: map<int, int>)

  function Compare(o: Ordering, a: Catalog, b: Catalog): (r: int)
    ensures o.ByName? ==> (r == 0 <==> a.name == b.name)
    ensures o.ByFavorites? ==>
              && (RankOf(o.ranks, a) < RankOf(o.ranks, b) ==> r < 0)
              && (RankOf(o.ranks, a) > RankOf(o.ranks, b) ==> r > 0)
              && (RankOf(o.ranks, a) == RankOf(o.ranks, b) ==> r == CompareNames(a.name, b.name))
  {
    match o
    case ByName => CompareNames(a.name, b.name)
    case ByFavorites(ranks) =>
      var previous := FavoritesCompare(ranks, a, b);
      if previous != 0 then previous else CompareNames(a.name, b.name)
  }

  /** `a` may stand before `b`. */
  predicate Le(o: Ordering, a: Catalog, b: Catalog)
  {
    Compare(o, a, b) <= 0
  }

  /** `a` and `b` tie under the comparator. */
  predicate Tie(o: Ordering, a: Catalog, b: Catalog)
  {
    Compare(o, a, b) == 0
  }

  /** What a tie means under each policy. */
  lemma TieMeans(o: Ordering, a: Catalog, b: Catalog)
    ensures o.ByName? ==> (Tie(o, a, b) <==> a.name == b.name)
    ensures o.ByFavorites? ==>
              (Tie(o, a, b) <==> RankOf(o.ranks, a) == RankOf(o.ranks, b) && a.name == b.name)
  {
  }

  /** Swapping the arguments negates the comparison. */
  lemma CompareFlip(o: Ordering, a: Catalog, b: Catalog)
    ensures Compare(o, a, b) == -Compare(o, b, a)
  {
    CompareNamesFlip(a.name, b.name);
  }

  lemma CompareTotal(o: Ordering, a: Catalog, b: Catalog)
    ensures Le(o, a, b) || Le(o, b, a)
    ensures Tie(o, a, b) <==> Le(o, a, b) && Le(o, b, a)
  {
    CompareFlip(o, a, b);
  }

  lemma LeTransitive(o: Ordering, a: Catalog, b: Catalog, c: Catalog)
    requires Le(o, a, b) && Le(o, b, c)
    ensures Le(o, a, c)
  {
    match o
    case ByName =>
      CompareNamesTransitive(a.name, b.name, c.name);
    case ByFavorites(ranks) =>
      if FavoritesCompare(ranks, a, b) == 0 && FavoritesCompare(ranks, b, c) == 0 {
        CompareNamesTransitive(a.name, b.name, c.name);
      }
  }

  lemma TieTransitive(o: Ordering, a: Catalog, b: Catalog, c: Catalog)
    requires Tie(o, a, b) && Tie(o, b, c)
    ensures Tie(o, a, c)
  {
    CompareTotal(o, a, b);
    CompareTotal(o, b, c);
    LeTransitive(o, a, b, c);
    LeTransitive(o, c, b, a);
    CompareTotal(o, a, c);
  }
}
