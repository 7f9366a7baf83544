/**
 * What `get_all`, `count` and `get_by_id` promise: visibility, exact filters,
 * inclusive bounds, sorted pages that partition the filtered rows, and how
 * `count` relates to the pages.
 */
module QueryFacts {
  import opened Wrappers
  import opened Models
  import opened Query
  import Text

  /**
   * Every row `get_all` returns is a stored, visible row that passes every
   * supplied filter; category and status equal the filter strings exactly;
   * there are at most `limit` of them.
   */
  lemma {:induction false} GetAllSound(rows: seq<Asset>, f: Filters, sortBy: Column, order: string, skip: nat, limit: nat)
    ensures |GetAll(rows, f, sortBy, order, skip, limit)| <= limit
    ensures forall a :: a in GetAll(rows, f, sortBy, order, skip, limit) ==>
      && a in rows
      && !a.isDeleted
      && (TextSet(f.category) ==> a.category == f.category.value)
      && (TextSet(f.status) ==> a.status == f.status.value)
      && (IntSet(f.minValue) ==> a.value >= f.minValue.value as real)
      && (IntSet(f.maxValue) ==> a.value <= f.maxValue.value as real)
      && (f.purchaseDateFrom.Some? ==> a.purchaseDate >= f.purchaseDateFrom.value)
      && (f.purchaseDateTo.Some? ==> a.purchaseDate <= f.purchaseDateTo.value)
      && (TextSet(f.search) ==> SearchHit(a, f.search.value))
  {
    var all := Listing(rows, f, sortBy, order);
    forall a | a in GetAll(rows, f, sortBy, order, skip, limit)
      ensures a in rows && Matches(a, f)
    {
      assert a in all;
      assert a in multiset(all);
      assert a in Filtered(rows, f);
    }
  }

  lemma {:induction false} PageSorted(s: seq<Asset>, c: Column, asc: bool, skip: nat, limit: nat)
    requires Sorted(s, c, asc)
    ensures Sorted(Page(s, skip, limit), c, asc)
  {
    var lo := if skip < |s| then skip else |s|;
    var p := Page(s, skip, limit);
    forall i, j | 0 <= i < j < |p|
      ensures Before(p[i], p[j], c, asc)
    {
      assert p[i] == s[lo + i] && p[j] == s[lo + j];
    }
  }

  /**
   * A page is in `sortBy` order (ascending exactly when `order` is "asc",
   * descending for every other string) and holds `limit` rows, or fewer when the
   * filtered rows run out after `skip`.
   */
  lemma {:induction false} GetAllSortedPage(rows: seq<Asset>, f: Filters, sortBy: Column, order: string, skip: nat, limit: nat)
    ensures Sorted(GetAll(rows, f, sortBy, order, skip, limit), sortBy, order == "asc")
    ensures |GetAll(rows, f, sortBy, order, skip, limit)| ==
      if skip >= |Filtered(rows, f)| then 0
      else if limit <= |Filtered(rows, f)| - skip then limit
      else |Filtered(rows, f)| - skip
  {
    SortRowsSorted(Filtered(rows, f), sortBy, order == "asc");
    PageSorted(Listing(rows, f, sortBy, order), sortBy, order == "asc", skip, limit);
  }

  lemma PageAdjoin(s: seq<Asset>, skip: nat, a: nat, b: nat)
    ensures Page(s, skip, a) + Page(s, skip + a, b) == Page(s, skip, a + b)
  {
    var lo := if skip < |s| then skip else |s|;
    var mid := if skip + a < |s| then skip + a else |s|;
    var hi := if skip + a + b < |s| then skip + a + b else |s|;
    assert s[lo..mid] + s[mid..hi] == s[lo..hi];
  }

  /** Two adjacent pages together are the page that spans both. */
  lemma {:induction false} GetAllPagesAdjoin(rows: seq<Asset>, f: Filters, sortBy: Column, order: string, skip: nat, a: nat, b: nat)
    ensures GetAll(rows, f, sortBy, order, skip, a) + GetAll(rows, f, sortBy, order, skip + a, b)
         == GetAll(rows, f, sortBy, order, skip, a + b)
  {
    PageAdjoin(Listing(rows, f, sortBy, order), skip, a, b);
  }

  /**
   * The first page with a limit no smaller than the number of matching rows is
   * every matching row, each exactly once.
   */
  lemma {:induction false} GetAllWholeListing(rows: seq<Asset>, f: Filters, sortBy: Column, order: string, limit: nat)
    requires limit >= |Filtered(rows, f)|
    ensures multiset(GetAll(rows, f, sortBy, order, 0, limit)) == multiset(Filtered(rows, f))
    ensures forall a :: a in GetAll(rows, f, sortBy, order, 0, limit) <==> a in rows && Matches(a, f)
    ensures forall a :: multiset(GetAll(rows, f, sortBy, order, 0, limit))[a]
                     == if Matches(a, f) then multiset(rows)[a] else 0
  {
    var s := Listing(rows, f, sortBy, order);
    assert GetAll(rows, f, sortBy, order, 0, limit) == s by {
      assert s[0..|s|] == s;
    }
    forall a
      ensures a in s <==> a in rows && Matches(a, f)
    {
      assert a in s <==> a in multiset(s);
      assert a in Filtered(rows, f) <==> a in multiset(Filtered(rows, f));
    }
    WhereMultiplicity(rows, a => Matches(a, f));
  }

  /** The first `n` slices of `k` elements each, concatenated. */
  function Chunks(s: seq<Asset>, k: nat, n: nat): seq<Asset> {
    if n == 0 then [] else Chunks(s, k, n - 1) + Page(s, (n - 1) * k, k)
  }

  /**
   * The first `n` `get_all` pages of `k` rows each, concatenated: slice `i` of
   * the listing is `GetAll(rows, f, sortBy, order, i * k, k)`.
   */
  function Pages(rows: seq<Asset>, f: Filters, sortBy: Column, order: string, k: nat, n: nat): seq<Asset> {
    Chunks(Listing(rows, f, sortBy, order), k, n)
  }

  /** Reading one more page appends the next `get_all` page. */
  lemma PagesStep(rows: seq<Asset>, f: Filters, sortBy: Column, order: string, k: nat, n: nat)
    requires n > 0
    ensures Pages(rows, f, sortBy, order, k, n)
         == Pages(rows, f, sortBy, order, k, n - 1) + GetAll(rows, f, sortBy, order, (n - 1) * k, k)
  {
  }

  lemma {:induction false} ChunksArePage(s: seq<Asset>, k: nat, n: nat)
    ensures Chunks(s, k, n) == Page(s, 0, n * k)
  {
    if n > 0 {
      var m: nat := (n - 1) * k;
      ChunksArePage(s, k, n - 1);
      PageAdjoin(s, 0, m, k);
      NextMultiple(n, k);
    }
  }

  /** The pages read one after another make up the one page that spans them. */
  lemma {:induction false} PagesAreOnePage(rows: seq<Asset>, f: Filters, sortBy: Column, order: string, k: nat, n: nat)
    ensures Pages(rows, f, sortBy, order, k, n) == GetAll(rows, f, sortBy, order, 0, n * k)
  {
    ChunksArePage(Listing(rows, f, sortBy, order), k, n);
  }

  lemma NextMultiple(n: nat, k: nat)
    requires n > 0
    ensures (n - 1) * k + k == n * k
  {
  }

  /**
   * An order the database may return for one `get_all` query: the matching rows,
   * each as often as stored, in `sortBy` order. Rows with equal keys may come in
   * any order, and in a different order for each query.
   */
  predicate DbListing(rows: seq<Asset>, f: Filters, sortBy: Column, order: string, s: seq<Asset>) {
    Sorted(s, sortBy, order == "asc") && multiset(s) == multiset(Filtered(rows, f))
  }

  /** The model's listing is one of the orders the database may return. */
  lemma ListingIsDbListing(rows: seq<Asset>, f: Filters, sortBy: Column, order: string)
    ensures DbListing(rows, f, sortBy, order, Listing(rows, f, sortBy, order))
  {
    SortRowsSorted(Filtered(rows, f), sortBy, order == "asc");
  }

  /** Sorting by the primary key leaves no ties. */
  lemma {:induction false} IdKeysDistinct(rows: seq<Asset>, f: Filters)
    requires DistinctIds(rows)
    ensures KeysDistinct(Filtered(rows, f), Id)
  {
    forall a, b | a in Filtered(rows, f) && b in Filtered(rows, f) && Key(a, Id) == Key(b, Id)
      ensures a == b
    {
      var i :| 0 <= i < |rows| && rows[i] == a;
      var j :| 0 <= j < |rows| && rows[j] == b;
      assert rows[i].id == rows[j].id;
    }
  }

  /**
   * When no two matching rows share a `sortBy` key, the database has only one
   * order to return: the model's listing.
   */
  lemma {:induction false} UniqueKeyFixesOrder(rows: seq<Asset>, f: Filters, sortBy: Column, order: string, s: seq<Asset>)
    requires KeysDistinct(Filtered(rows, f), sortBy)
    requires DbListing(rows, f, sortBy, order, s)
    ensures s == Listing(rows, f, sortBy, order)
  {
    ListingIsDbListing(rows, f, sortBy, order);
    forall a | a in s
      ensures a in Filtered(rows, f)
    {
      assert a in multiset(s);
    }
    SortedPermutationUnique(s, Listing(rows, f, sortBy, order), sortBy, order == "asc");
  }

  /**
   * With no ties, two page queries adjoin whatever orders the database returns
   * for them: the page at `skip` of size `a` followed by the page at `skip + a`
   * of size `b` is the page at `skip` of size `a + b`.
   */
  lemma {:induction false} PagesAdjoinAnyOrder(rows: seq<Asset>, f: Filters, sortBy: Column, order: string,
                                               s1: seq<Asset>, s2: seq<Asset>, skip: nat, a: nat, b: nat)
    requires KeysDistinct(Filtered(rows, f), sortBy)
    requires DbListing(rows, f, sortBy, order, s1) && DbListing(rows, f, sortBy, order, s2)
    ensures Page(s1, skip, a) + Page(s2, skip + a, b) == GetAll(rows, f, sortBy, order, skip, a + b)
  {
    UniqueKeyFixesOrder(rows, f, sortBy, order, s1);
    UniqueKeyFixesOrder(rows, f, sortBy, order, s2);
    GetAllPagesAdjoin(rows, f, sortBy, order, skip, a, b);
  }

  /**
   * With ties, they need not: two rows with the same `created_at` may come in
   * either order, and if the first page query returns one order and the second
   * the other, the same row is read twice and the other never.
   */
  lemma TiedRowsMayRepeatAcrossPages(x: Asset, y: Asset)
    requires x != y && x.createdAt == y.createdAt
    ensures Sorted([x, y], CreatedAt, false) && Sorted([y, x], CreatedAt, false)
    ensures Page([x, y], 0, 1) + Page([y, x], 1, 1) == [x, x]
  {
  }

  /** Page `i` of size `k` read from the `i`-th query's order, for the first `n` queries. */
  function ChunksOf(ls: seq<seq<Asset>>, k: nat, n: nat): seq<Asset>
    requires n <= |ls|
  {
    if n == 0 then [] else ChunksOf(ls, k, n - 1) + Page(ls[n - 1], (n - 1) * k, k)
  }

  lemma PageSize(s1: seq<Asset>, s2: seq<Asset>, skip: nat, limit: nat)
    requires |s1| == |s2|
    ensures |Page(s1, skip, limit)| == |Page(s2, skip, limit)|
  {
  }

  lemma {:induction false} ChunksOfSize(ls: seq<seq<Asset>>, s: seq<Asset>, k: nat, n: nat)
    requires n <= |ls| && forall i :: 0 <= i < n ==> |ls[i]| == |s|
    ensures |ChunksOf(ls, k, n)| == |Chunks(s, k, n)|
  {
    if n > 0 {
      var m: nat := (n - 1) * k;
      ChunksOfSize(ls, s, k, n - 1);
      assert ChunksOf(ls, k, n) == ChunksOf(ls, k, n - 1) + Page(ls[n - 1], m, k);
      assert Chunks(s, k, n) == Chunks(s, k, n - 1) + Page(s, m, k);
      PageSize(ls[n - 1], s, m, k);
    }
  }

  /**
   * Whatever order the database returns for each page query, paging until the
   * rows run out reads as many rows as the corrected count.
   */
  lemma {:induction false} PagedSizeAnyOrder(rows: seq<Asset>, f: Filters, sortBy: Column, order: string,
                                             ls: seq<seq<Asset>>, k: nat, n: nat)
    requires n <= |ls| && forall i :: 0 <= i < n ==> DbListing(rows, f, sortBy, order, ls[i])
    requires n * k >= CountExact(rows, f)
    ensures |ChunksOf(ls, k, n)| == CountExact(rows, f)
  {
    var s := Listing(rows, f, sortBy, order);
    forall i | 0 <= i < n
      ensures |ls[i]| == |s|
    {
      assert |ls[i]| == |multiset(ls[i])| == |multiset(Filtered(rows, f))| == |Filtered(rows, f)|;
    }
    ChunksOfSize(ls, s, k, n);
    CountExactIsPagedTotal(rows, f, sortBy, order, k, n);
  }

  /** The corrected count: the rows the `get_all` filter accepts. */
  function CountExact(rows: seq<Asset>, f: Filters): nat {
    |Filtered(rows, f)|
  }

  /**
   * Paging through `get_all` with any page size until the pages run out yields
   * every matching row exactly once, and as many rows as the corrected count.
   */
  lemma {:induction false} CountExactIsPagedTotal(rows: seq<Asset>, f: Filters, sortBy: Column, order: string, k: nat, n: nat)
    requires n * k >= CountExact(rows, f)
    ensures |Pages(rows, f, sortBy, order, k, n)| == CountExact(rows, f)
    ensures multiset(Pages(rows, f, sortBy, order, k, n)) == multiset(Filtered(rows, f))
    ensures forall a :: multiset(Pages(rows, f, sortBy, order, k, n))[a] == if Matches(a, f) then multiset(rows)[a] else 0
  {
    PagesAreOnePage(rows, f, sortBy, order, k, n);
    GetAllWholeListing(rows, f, sortBy, order, n * k);
  }

  /**
   * When the stored values are the lower-case enumeration strings and the
   * category and status filters are in lower case too, `count`'s
   * case-insensitive match selects the same rows as `get_all`'s exact one.
   */
  lemma {:induction false} CountAgreesForLowerCaseFilters(rows: seq<Asset>, f: Filters)
    requires forall i :: 0 <= i < |rows| ==> WellFormed(rows[i])
    requires TextSet(f.category) ==> Text.IsLower(f.category.value)
    requires TextSet(f.status) ==> Text.IsLower(f.status.value)
    ensures Count(rows, f) == CountExact(rows, f)
  {
    forall i | 0 <= i < |rows|
      ensures CountMatches(rows[i], f) == Matches(rows[i], f)
    {
      if TextSet(f.category) {
        Text.EqualsCIOfLower(rows[i].category, f.category.value);
      }
      if TextSet(f.status) {
        Text.EqualsCIOfLower(rows[i].status, f.status.value);
      }
    }
    WhereAgree(rows, a => CountMatches(a, f), a => Matches(a, f));
  }

  /**
   * Under the same conditions, `count` is the number of rows a single `get_all`
   * page returns when `skip` is 0 and `limit` is large enough.
   */
  lemma {:induction false} CountIsListingSize(rows: seq<Asset>, f: Filters, sortBy: Column, order: string, limit: nat)
    requires forall i :: 0 <= i < |rows| ==> WellFormed(rows[i])
    requires TextSet(f.category) ==> Text.IsLower(f.category.value)
    requires TextSet(f.status) ==> Text.IsLower(f.status.value)
    requires limit >= Count(rows, f)
    ensures |GetAll(rows, f, sortBy, order, 0, limit)| == Count(rows, f)
  {
    CountAgreesForLowerCaseFilters(rows, f);
    GetAllSortedPage(rows, f, sortBy, order, 0, limit);
  }

  /**
   * As written, the two disagree: with one stored electronics row and the
   * filter "Electronics", `count` reports 1 while `get_all` returns nothing.
   */
  lemma CountDisagreesWithGetAll()
    ensures var laptop := Inserted("a1", "Laptop", ELECTRONICS, 1200.0, 0, ACTIVE, None, 0);
            var f := NoFilters.(category := Some("Electronics"));
            Count([laptop], f) == 1 && GetAll([laptop], f, CreatedAt, "desc", 0, 100) == []
  {
    var laptop := Inserted("a1", "Laptop", ELECTRONICS, 1200.0, 0, ACTIVE, None, 0);
    var f := NoFilters.(category := Some("Electronics"));
    assert Text.EqualsCI(ELECTRONICS, "Electronics") by {
      assert Text.Lower('E') == 'e';
    }
    assert CountMatches(laptop, f) && !Matches(laptop, f);
    WhereSingle(laptop, a => CountMatches(a, f));
    WhereSingle(laptop, a => Matches(a, f));
  }

  /**
   * For every table and every filter, `count` reports at least as many rows as
   * `get_all`'s filter accepts: an exact match is also a case-insensitive one.
   */
  lemma {:induction false} CountNeverBelowExact(rows: seq<Asset>, f: Filters)
    ensures CountExact(rows, f) <= Count(rows, f)
  {
    forall i | 0 <= i < |rows|
      ensures Matches(rows[i], f) ==> CountMatches(rows[i], f)
    {
      if TextSet(f.category) {
        assert Text.EqualsCI(f.category.value, f.category.value);
      }
      if TextSet(f.status) {
        assert Text.EqualsCI(f.status.value, f.status.value);
      }
    }
    WhereMonotone(rows, a => Matches(a, f), a => CountMatches(a, f));
  }

  /**
   * A falsy parameter imposes no constraint: an empty category, status or
   * search string, and a zero value bound, filter exactly as an absent one.
   */
  lemma FalsyParametersIgnored(a: Asset, f: Filters)
    ensures Matches(a, f.(category := Some(""))) == Matches(a, f.(category := None))
    ensures Matches(a, f.(status := Some(""))) == Matches(a, f.(status := None))
    ensures Matches(a, f.(search := Some(""))) == Matches(a, f.(search := None))
    ensures Matches(a, f.(minValue := Some(0))) == Matches(a, f.(minValue := None))
    ensures Matches(a, f.(maxValue := Some(0))) == Matches(a, f.(maxValue := None))
  {
  }

  /** Value and purchase-date bounds are inclusive at both ends. */
  lemma BoundsInclusive(a: Asset, v: int, d: Date)
    requires !a.isDeleted && v > 0 && a.value == v as real && a.purchaseDate == d
    ensures Matches(a, NoFilters.(minValue := Some(v), maxValue := Some(v)))
    ensures Matches(a, NoFilters.(purchaseDateFrom := Some(d), purchaseDateTo := Some(d)))
    ensures !Matches(a, NoFilters.(minValue := Some(v + 1)))
    ensures v > 1 ==> !Matches(a, NoFilters.(maxValue := Some(v - 1)))
    ensures !Matches(a, NoFilters.(purchaseDateFrom := Some(d + 1)))
    ensures !Matches(a, NoFilters.(purchaseDateTo := Some(d - 1)))
  {
  }

  /**
   * A visible row passes the search filter exactly when the search text occurs
   * in its name or in its description, ignoring case.
   */
  lemma {:induction false} SearchIsSubstringOfNameOrDescription(a: Asset, s: string)
    requires !a.isDeleted && s != ""
    ensures Matches(a, NoFilters.(search := Some(s))) <==>
      (exists k :: Text.OccursAt(a.name, s, k))
      || (a.description.Some? && exists k :: Text.OccursAt(a.description.value, s, k))
  {
  }

  /**
   * `get_by_id` returns the row with that id exactly when the id is stored on a
   * row that is not soft-deleted; with distinct ids, it is that row.
   */
  lemma {:induction false} GetByIdFindsTheVisibleRow(rows: seq<Asset>, i: nat)
    requires DistinctIds(rows) && i < |rows|
    ensures GetById(rows, rows[i].id) == if rows[i].isDeleted then None else Some(rows[i])
  {
    var r := VisibleIndex(rows, rows[i].id);
    if r.Some? {
      assert r.value == i;
    }
  }
}
