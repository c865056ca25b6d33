/**
 A stable sort of catalogs under one of the two comparators, standing for the
 library sort behind Kotlin's `sortedBy` and `sortedWith` (documented stable).
 It is an insertion sort: each catalog is inserted in front of the first
 already-sorted catalog it does not compare greater than, so catalogs that tie
 keep the order they had in the input.
 */
module StableSort {
  import opened Catalogs
  import opened Comparators

  /** Every catalog may stand before every later one. */
  predicate InOrder(o: Ordering, s: seq<Catalog>)
  {
    forall i, j :: 0 <= i < j < |s| ==> Le(o, s[i], s[j])
  }

  /** The catalogs of `s` that tie with `k`, in the order `s` has them. */
  function TiesWith(o: Ordering, k: Catalog, s: seq<Catalog>): (r: seq<Catalog>)
    ensures |r| <= |s|
  {
    if s == [] then []
    else (if Tie(o, s[0], k) then [s[0]] else []) + TiesWith(o, k, s[1..])
  }

  function Insert(o: Ordering, x: Catalog, s: seq<Catalog>): (r: seq<Catalog>)
    ensures multiset(r) == multiset(s) + multiset{x}
  {
    if s == [] || Le(o, x, s[0]) then [x] + s
    else
      assert s == [s[0]] + s[1..];
      [s[0]] + Insert(o, x, s[1..])
  }

  /** `sortedWith(comparator)` */
  function SortedWith(o: Ordering, s: seq<Catalog>): (r: seq<Catalog>)
    ensures multiset(r) == multiset(s)
  {
    if s == [] then []
    else
      assert s == [s[0]] + s[1..];
      Insert(o, s[0], SortedWith(o, s[1..]))
  }

  /** A catalog that may stand before every catalog of an ordered sequence may lead it. */
  lemma PrependInOrder(o: Ordering, x: Catalog, s: seq<Catalog>)
    requires InOrder(o, s)
    requires forall j :: 0 <= j < |s| ==> Le(o, x, s[j])
    ensures InOrder(o, [x] + s)
  {
    var r := [x] + s;
    forall i, j | 0 <= i < j < |r| ensures Le(o, r[i], r[j]) {
      if i > 0 { assert r[i] == s[i - 1] && r[j] == s[j - 1]; }
    }
  }

  /** The first catalog of an ordered sequence may stand before all of it. */
  lemma HeadLeAll(o: Ordering, x: Catalog, s: seq<Catalog>)
    requires InOrder(o, s) && (s == [] || Le(o, x, s[0]))
    ensures forall j :: 0 <= j < |s| ==> Le(o, x, s[j])
  {
    forall j | 0 <= j < |s| ensures Le(o, x, s[j]) {
      if j > 0 { LeTransitive(o, x, s[0], s[j]); }
    }
  }

  lemma InOrderTail(o: Ordering, s: seq<Catalog>)
    requires InOrder(o, s) && s != []
    ensures InOrder(o, s[1..])
    ensures forall j :: 0 <= j < |s[1..]| ==> Le(o, s[0], s[1..][j])
  {
    forall i, j | 0 <= i < j < |s[1..]| ensures Le(o, s[1..][i], s[1..][j]) {
      assert s[1..][i] == s[i + 1] && s[1..][j] == s[j + 1];
    }
    forall j | 0 <= j < |s[1..]| ensures Le(o, s[0], s[1..][j]) {
      assert s[1..][j] == s[j + 1];
    }
  }

  /** Inserting keeps a lower bound of the sequence and of the inserted catalog. */
  lemma LowerBoundOfInsert(o: Ordering, y: Catalog, x: Catalog, s: seq<Catalog>)
    requires Le(o, y, x)
    requires forall j :: 0 <= j < |s| ==> Le(o, y, s[j])
    ensures forall j :: 0 <= j < |Insert(o, x, s)| ==> Le(o, y, Insert(o, x, s)[j])
  {
    var r := Insert(o, x, s);
    forall j | 0 <= j < |r| ensures Le(o, y, r[j]) {
      assert r[j] in multiset(r);
      if r[j] != x {
        assert r[j] in multiset(s);
        var m :| 0 <= m < |s| && s[m] == r[j];
      }
    }
  }

  lemma {:induction false} InsertInOrder(o: Ordering, x: Catalog, s: seq<Catalog>)
    requires InOrder(o, s)
    ensures InOrder(o, Insert(o, x, s))
  {
    if s == [] || Le(o, x, s[0]) {
      HeadLeAll(o, x, s);
      PrependInOrder(o, x, s);
    } else {
      CompareTotal(o, x, s[0]);
      InOrderTail(o, s);
      InsertInOrder(o, x, s[1..]);
      LowerBoundOfInsert(o, s[0], x, s[1..]);
      PrependInOrder(o, s[0], Insert(o, x, s[1..]));
    }
  }

  /** The sort's output is ordered by the comparator. */
  lemma {:induction false} SortedWithInOrder(o: Ordering, s: seq<Catalog>)
    ensures InOrder(o, SortedWith(o, s))
  {
    if s != [] {
      SortedWithInOrder(o, s[1..]);
      InsertInOrder(o, s[0], SortedWith(o, s[1..]));
    }
  }

  lemma TiesWithCons(o: Ordering, k: Catalog, x: Catalog, s: seq<Catalog>)
    ensures TiesWith(o, k, [x] + s) == (if Tie(o, x, k) then [x] else []) + TiesWith(o, k, s)
  {
    assert ([x] + s)[1..] == s;
  }

  /** Two catalogs that tie with the same catalog may stand in either order. */
  lemma TiedWithSame(o: Ordering, x: Catalog, y: Catalog, k: Catalog)
    ensures Tie(o, x, k) && Tie(o, y, k) ==> Le(o, x, y)
  {
    if Tie(o, x, k) && Tie(o, y, k) {
      CompareTotal(o, x, k);
      CompareTotal(o, y, k);
      LeTransitive(o, x, k, y);
    }
  }

  lemma {:induction false} InsertTies(o: Ordering, k: Catalog, x: Catalog, s: seq<Catalog>)
    requires InOrder(o, s)
    ensures TiesWith(o, k, Insert(o, x, s))
            == (if Tie(o, x, k) then [x] else []) + TiesWith(o, k, s)
  {
    if s == [] || Le(o, x, s[0]) {
      TiesWithCons(o, k, x, s);
    } else {
      var r := Insert(o, x, s[1..]);
      assert Insert(o, x, s) == [s[0]] + r;
      InOrderTail(o, s);
      InsertTies(o, k, x, s[1..]);
      TiesWithCons(o, k, s[0], r);
      TiedWithSame(o, x, s[0], k);
      if Tie(o, x, k) {
        assert !Tie(o, s[0], k);
        assert TiesWith(o, k, s) == TiesWith(o, k, s[1..]);
      } else {
        assert TiesWith(o, k, r) == TiesWith(o, k, s[1..]);
      }
    }
  }

  /**
   Stability: for every catalog `k`, the catalogs that tie with `k` come out
   in the order they went in.
   */
  lemma {:induction false} SortedWithStable(o: Ordering, k: Catalog, s: seq<Catalog>)
    ensures TiesWith(o, k, SortedWith(o, s)) == TiesWith(o, k, s)
  {
    if s != [] {
      SortedWithStable(o, k, s[1..]);
      SortedWithInOrder(o, s[1..]);
      InsertTies(o, k, s[0], SortedWith(o, s[1..]));
    }
  }

  /** Sorting a list that is already in order returns it unchanged. */
  lemma {:induction false} SortedWithIdempotent(o: Ordering, s: seq<Catalog>)
    requires InOrder(o, s)
    ensures SortedWith(o, s) == s
  {
    if s != [] {
      SortedWithIdempotent(o, s[1..]);
      assert [s[0]] + s[1..] == s;
    }
  }

  /**
   An ordered permutation of `s` that keeps every group of tied catalogs in
   input order is exactly what the sort returns: sorted plus stable pins the
   result down.
   */
  lemma SortedWithUnique(o: Ordering, s: seq<Catalog>, t: seq<Catalog>)
    requires InOrder(o, t) && multiset(t) == multiset(s)
    requires forall k :: TiesWith(o, k, t) == TiesWith(o, k, s)
    ensures t == SortedWith(o, s)
  {
    var u := SortedWith(o, s);
    SortedWithInOrder(o, s);
    forall k ensures TiesWith(o, k, t) == TiesWith(o, k, u) {
      SortedWithStable(o, k, s);
    }
    InOrderTiesUnique(o, t, u);
  }

  lemma {:induction false} InOrderTiesUnique(o: Ordering, t: seq<Catalog>, u: seq<Catalog>)
    requires InOrder(o, t) && InOrder(o, u) && multiset(t) == multiset(u)
    requires forall k :: TiesWith(o, k, t) == TiesWith(o, k, u)
    ensures t == u
  {
    if t != [] {
      assert |u| == |multiset(u)| == |multiset(t)| == |t|;
      assert t[0] in multiset(u) && u[0] in multiset(t);
      HeadsEqual(o, t, u);
      TailsAgree(o, t, u);
      InOrderTail(o, t);
      InOrderTail(o, u);
      InOrderTiesUnique(o, t[1..], u[1..]);
      assert t == [t[0]] + t[1..] && u == [u[0]] + u[1..];
    }
  }

  /** After a common first catalog, the rests hold the same catalogs and the same ties. */
  lemma TailsAgree(o: Ordering, t: seq<Catalog>, u: seq<Catalog>)
    requires t != [] && u != [] && t[0] == u[0] && multiset(t) == multiset(u)
    requires forall k :: TiesWith(o, k, t) == TiesWith(o, k, u)
    ensures multiset(t[1..]) == multiset(u[1..])
    ensures forall k :: TiesWith(o, k, t[1..]) == TiesWith(o, k, u[1..])
  {
    var a := t[0];
    assert t == [a] + t[1..] && u == [a] + u[1..];
    assert multiset(t[1..]) == multiset(u[1..]) by {
      forall c ensures multiset(t[1..])[c] == multiset(u[1..])[c] {
        assert multiset(t)[c] == multiset(u)[c];
      }
    }
    forall k ensures TiesWith(o, k, t[1..]) == TiesWith(o, k, u[1..]) {
      TailTies(o, k, t, u);
    }
  }

  /** Two ordered sequences with the same catalogs and the same ties start alike. */
  lemma HeadsEqual(o: Ordering, t: seq<Catalog>, u: seq<Catalog>)
    requires InOrder(o, t) && InOrder(o, u) && t != [] && u != []
    requires t[0] in multiset(u) && u[0] in multiset(t)
    requires TiesWith(o, t[0], t) == TiesWith(o, t[0], u)
    ensures t[0] == u[0]
  {
    var a, b := t[0], u[0];
    LeBeforeAll(o, b, u, a);
    LeBeforeAll(o, a, t, b);
    CompareTotal(o, a, b);
    CompareFlip(o, a, a);
    assert Tie(o, b, a) by { CompareFlip(o, a, b); }
    assert TiesWith(o, a, t)[0] == a && TiesWith(o, a, u)[0] == b;
  }

  /** Dropping a common first catalog keeps the ties equal. */
  lemma TailTies(o: Ordering, k: Catalog, t: seq<Catalog>, u: seq<Catalog>)
    requires t != [] && u != [] && t[0] == u[0]
    requires TiesWith(o, k, t) == TiesWith(o, k, u)
    ensures TiesWith(o, k, t[1..]) == TiesWith(o, k, u[1..])
  {
    var head := if Tie(o, t[0], k) then [t[0]] else [];
    assert TiesWith(o, k, t[1..]) == TiesWith(o, k, t)[|head|..];
    assert TiesWith(o, k, u[1..]) == TiesWith(o, k, u)[|head|..];
  }

  /** The first catalog of an ordered sequence may stand before any catalog in it. */
  lemma LeBeforeAll(o: Ordering, b: Catalog, u: seq<Catalog>, x: Catalog)
    requires InOrder(o, u) && u != [] && u[0] == b && x in multiset(u)
    ensures Le(o, b, x)
  {
    CompareFlip(o, b, b);
    var m :| 0 <= m < |u| && u[m] == x;
  }
}
