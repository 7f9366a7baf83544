/**
 * The read side of the asset store: `get_all` (filter, sort, paginate),
 * `count` and `get_by_id`, as functions over the table's rows in storage order.
 */
module Query {
  import opened Wrappers
  import opened Models
  import Text

  /**
   * The optional query parameters shared by `get_all` and `count`. The value
   * bounds are integers; the purchase-date bounds are day numbers.
   */
  datatype Filters = Filters(
    category: Option<string>,
    status: Option<string>,
    minValue: Option<int>,
    maxValue: Option<int>,
    purchaseDateFrom: Option<Date>,
    purchaseDateTo: Option<Date>,
    search: Option<string>)

  const NoFilters := Filters(None, None, None, None, None, None, None)

  /** A text parameter constrains only when it is truthy: present and non-empty. */
  predicate TextSet(x: Option<string>) { x.Some? && x.value != "" }

  /** An integer parameter constrains only when it is truthy: present and non-zero. */
  predicate IntSet(x: Option<int>) { x.Some? && x.value != 0 }

  /**
   * `name ilike '%s%' OR description ilike '%s%'`; a null description never
   * matches.
   */
  predicate SearchHit(a: Asset, s: string) {
    Text.ContainsCI(a.name, s) || (a.description.Some? && Text.ContainsCI(a.description.value, s))
  }

  /** The conditions `get_all` and `count` build alike. */
  predicate CommonFilters(a: Asset, f: Filters) {
    && !a.isDeleted
    && (IntSet(f.minValue) ==> a.value >= f.minValue.value as real)
    && (IntSet(f.maxValue) ==> a.value <= f.maxValue.value as real)
    && (f.purchaseDateFrom.Some? ==> a.purchaseDate >= f.purchaseDateFrom.value)
    && (f.purchaseDateTo.Some? ==> a.purchaseDate <= f.purchaseDateTo.value)
    && (TextSet(f.search) ==> SearchHit(a, f.search.value))
  }

  /** The `get_all` row filter: category and status by exact equality. */
  predicate Matches(a: Asset, f: Filters) {
    && CommonFilters(a, f)
    && (TextSet(f.category) ==> a.category == f.category.value)
    && (TextSet(f.status) ==> a.status == f.status.value)
  }

  /** The `count` row filter: category and status by `ilike`, that is, ignoring case. */
  predicate CountMatches(a: Asset, f: Filters) {
    && CommonFilters(a, f)
    && (TextSet(f.category) ==> Text.EqualsCI(a.category, f.category.value))
    && (TextSet(f.status) ==> Text.EqualsCI(a.status, f.status.value))
  }

  /** The rows that `keep` accepts, in storage order. */
  function Where(rows: seq<Asset>, keep: Asset -> bool): (r: seq<Asset>)
    ensures |r| <= |rows|
    ensures forall a :: a in r <==> a in rows && keep(a)
  {
    if rows == [] then []
    else
      var rest := Where(rows[1..], keep);
      assert forall a :: a in rows <==> a == rows[0] || a in rows[1..];
      if keep(rows[0]) then [rows[0]] + rest else rest
  }

  /**
   * `Where` keeps each accepted row as many times as it is stored, and drops
   * every other row.
   */
  lemma {:induction false} WhereMultiplicity(rows: seq<Asset>, keep: Asset -> bool)
    ensures forall a :: multiset(Where(rows, keep))[a] == if keep(a) then multiset(rows)[a] else 0
  {
    if rows != [] {
      WhereMultiplicity(rows[1..], keep);
      assert rows == [rows[0]] + rows[1..];
    }
  }

  lemma WhereSingle(x: Asset, keep: Asset -> bool)
    ensures Where([x], keep) == if keep(x) then [x] else []
  {
    assert [x][1..] == [];
  }

  /** Two filters that agree on every row select the same rows. */
  lemma {:induction false} WhereAgree(rows: seq<Asset>, k1: Asset -> bool, k2: Asset -> bool)
    requires forall i :: 0 <= i < |rows| ==> k1(rows[i]) == k2(rows[i])
    ensures Where(rows, k1) == Where(rows, k2)
  {
    if rows != [] {
      WhereAgree(rows[1..], k1, k2);
    }
  }

  /** A filter that accepts at least the rows another accepts keeps at least as many. */
  lemma {:induction false} WhereMonotone(rows: seq<Asset>, k1: Asset -> bool, k2: Asset -> bool)
    requires forall i :: 0 <= i < |rows| ==> k1(rows[i]) ==> k2(rows[i])
    ensures |Where(rows, k1)| <= |Where(rows, k2)|
  {
    if rows != [] {
      WhereMonotone(rows[1..], k1, k2);
    }
  }

  function Filtered(rows: seq<Asset>, f: Filters): seq<Asset> {
    Where(rows, a => Matches(a, f))
  }

  /** The columns `sort_by` may name. */
  datatype Column =
    | Id | Name | Category | Value | PurchaseDate | Status | Description
    | CreatedAt | UpdatedAt | IsDeleted | DeletedAt

  /** An ORDER BY key: NULL, a boolean, a number or a string. */
  datatype SortKey = Null | Flag(b: bool) | Num(n: real) | Str(s: string)

  function Key(a: Asset, c: Column): SortKey {
    match c
    case Id => Str(a.id)
    case Name => Str(a.name)
    case Category => Str(a.category)
    case Value => Num(a.value)
    case PurchaseDate => Num(a.purchaseDate as real)
    case Status => Str(a.status)
    case Description => if a.description.Some? then Str(a.description.value) else Null
    case CreatedAt => Num(a.createdAt as real)
    case UpdatedAt => Num(a.updatedAt as real)
    case IsDeleted => Flag(a.isDeleted)
    case DeletedAt => if a.deletedAt.Some? then Num(a.deletedAt.value as real) else Null
  }

  function Rank(k: SortKey): nat {
    match k
    case Null => 0
    case Flag(_) => 1
    case Num(_) => 2
    case Str(_) => 3
  }

  /** Ascending key order; NULL sorts before every value. */
  predicate KeyLe(x: SortKey, y: SortKey) {
    match (x, y)
    case (Flag(a), Flag(b)) => !a || b
    case (Num(a), Num(b)) => a <= b
    case (Str(a), Str(b)) => Text.StrLe(a, b)
    case _ => Rank(x) <= Rank(y)
  }

  lemma KeyLeTotal(x: SortKey, y: SortKey)
    ensures KeyLe(x, y) || KeyLe(y, x)
  {
    if x.Str? && y.Str? {
      Text.StrLeTotal(x.s, y.s);
    }
  }

  lemma KeyLeTrans(x: SortKey, y: SortKey, z: SortKey)
    requires KeyLe(x, y) && KeyLe(y, z)
    ensures KeyLe(x, z)
  {
    if x.Str? && y.Str? && z.Str? {
      Text.StrLeTrans(x.s, y.s, z.s);
    }
  }

  lemma KeyLeAntisym(x: SortKey, y: SortKey)
    requires KeyLe(x, y) && KeyLe(y, x)
    ensures x == y
  {
    if x.Str? && y.Str? {
      Text.StrLeAntisym(x.s, y.s);
    }
  }

  /** `a` may come before `b` in the requested order. */
  predicate Before(a: Asset, b: Asset, c: Column, asc: bool) {
    if asc then KeyLe(Key(a, c), Key(b, c)) else KeyLe(Key(b, c), Key(a, c))
  }

  lemma BeforeTotal(a: Asset, b: Asset, c: Column, asc: bool)
    ensures Before(a, b, c, asc) || Before(b, a, c, asc)
  {
    KeyLeTotal(Key(a, c), Key(b, c));
  }

  lemma BeforeTrans(a: Asset, b: Asset, d: Asset, c: Column, asc: bool)
    requires Before(a, b, c, asc) && Before(b, d, c, asc)
    ensures Before(a, d, c, asc)
  {
    if asc {
      KeyLeTrans(Key(a, c), Key(b, c), Key(d, c));
    } else {
      KeyLeTrans(Key(d, c), Key(b, c), Key(a, c));
    }
  }

  predicate Sorted(s: seq<Asset>, c: Column, asc: bool) {
    forall i, j :: 0 <= i < j < |s| ==> Before(s[i], s[j], c, asc)
  }

  /** No two different rows of `s` share a `c` key: ORDER BY `c` leaves no ties. */
  predicate KeysDistinct(s: seq<Asset>, c: Column) {
    forall a, b :: a in s && b in s && Key(a, c) == Key(b, c) ==> a == b
  }

  lemma {:induction false} TailSorted(s: seq<Asset>, c: Column, asc: bool)
    requires Sorted(s, c, asc) && s != []
    ensures Sorted(s[1..], c, asc)
  {
    var t := s[1..];
    forall i, j | 0 <= i < j < |t|
      ensures Before(t[i], t[j], c, asc)
    {
      assert t[i] == s[i + 1] && t[j] == s[j + 1];
    }
  }

  lemma TailMultiset(s1: seq<Asset>, s2: seq<Asset>)
    requires s1 != [] && s2 != [] && s1[0] == s2[0] && multiset(s1) == multiset(s2)
    ensures multiset(s1[1..]) == multiset(s2[1..])
  {
    assert s1 == [s1[0]] + s1[1..] && s2 == [s2[0]] + s2[1..];
    assert multiset(s1) == multiset{s1[0]} + multiset(s1[1..]);
    assert multiset(s2) == multiset{s1[0]} + multiset(s2[1..]);
    forall a
      ensures multiset(s1[1..])[a] == multiset(s2[1..])[a]
    {
      assert multiset(s1)[a] == multiset(s2)[a];
    }
  }

  lemma TailKeysDistinct(s: seq<Asset>, c: Column)
    requires KeysDistinct(s, c) && s != []
    ensures KeysDistinct(s[1..], c)
  {
    assert forall a :: a in s[1..] ==> a in s;
  }

  /** Two sorted arrangements of the same rows without ties start with the same row. */
  lemma {:induction false} SameHead(s1: seq<Asset>, s2: seq<Asset>, c: Column, asc: bool)
    requires Sorted(s1, c, asc) && Sorted(s2, c, asc) && s1 != [] && s2 != []
    requires multiset(s1) == multiset(s2) && KeysDistinct(s1, c)
    ensures s1[0] == s2[0]
  {
    var x, y := s1[0], s2[0];
    if x != y {
      assert y in multiset(s1) && x in multiset(s2);
      var k :| 0 <= k < |s1| && s1[k] == y;
      var l :| 0 <= l < |s2| && s2[l] == x;
      assert Before(x, y, c, asc) && Before(y, x, c, asc);
      if asc {
        KeyLeAntisym(Key(x, c), Key(y, c));
      } else {
        KeyLeAntisym(Key(y, c), Key(x, c));
      }
    }
  }

  /**
   * Without ties there is only one order: two sorted arrangements of the same
   * rows are equal.
   */
  lemma {:induction false} SortedPermutationUnique(s1: seq<Asset>, s2: seq<Asset>, c: Column, asc: bool)
    requires Sorted(s1, c, asc) && Sorted(s2, c, asc)
    requires multiset(s1) == multiset(s2) && KeysDistinct(s1, c)
    ensures s1 == s2
    decreases |s1|
  {
    assert |s1| == |multiset(s1)| == |multiset(s2)| == |s2|;
    if s1 != [] {
      SameHead(s1, s2, c, asc);
      TailMultiset(s1, s2);
      TailSorted(s1, c, asc);
      TailSorted(s2, c, asc);
      TailKeysDistinct(s1, c);
      SortedPermutationUnique(s1[1..], s2[1..], c, asc);
      assert s1 == [s1[0]] + s1[1..] && s2 == [s2[0]] + s2[1..];
    }
  }

  /** Insert `x` before the first row it may precede. */
  function Insert(x: Asset, s: seq<Asset>, c: Column, asc: bool): (r: seq<Asset>)
    ensures |r| == |s| + 1
    ensures multiset(r) == multiset(s) + multiset{x}
  {
    if s == [] then [x]
    else if Before(x, s[0], c, asc) then [x] + s
    else
      assert s == [s[0]] + s[1..];
      [s[0]] + Insert(x, s[1..], c, asc)
  }

  /** Insertion sort; rows with equal keys keep their storage order. */
  function SortRows(s: seq<Asset>, c: Column, asc: bool): (r: seq<Asset>)
    ensures |r| == |s|
    ensures multiset(r) == multiset(s)
  {
    if s == [] then []
    else
      assert s == [s[0]] + s[1..];
      Insert(s[0], SortRows(s[1..], c, asc), c, asc)
  }

  /** A row that may precede every row of a sorted sequence may head it. */
  lemma {:induction false} ConsSorted(x: Asset, s: seq<Asset>, c: Column, asc: bool)
    requires Sorted(s, c, asc)
    requires forall y :: y in s ==> Before(x, y, c, asc)
    ensures Sorted([x] + s, c, asc)
  {
    var r := [x] + s;
    forall i, j | 0 <= i < j < |r|
      ensures Before(r[i], r[j], c, asc)
    {
      if i == 0 {
        assert r[j] == s[j - 1] && r[j] in s;
      } else {
        assert r[i] == s[i - 1] && r[j] == s[j - 1];
      }
    }
  }

  /** A row that may precede the head of a sorted sequence may precede all of it. */
  lemma {:induction false} HeadBound(x: Asset, s: seq<Asset>, c: Column, asc: bool)
    requires Sorted(s, c, asc) && s != [] && Before(x, s[0], c, asc)
    ensures forall y :: y in s ==> Before(x, y, c, asc)
  {
    forall y | y in s
      ensures Before(x, y, c, asc)
    {
      var k :| 0 <= k < |s| && s[k] == y;
      if k > 0 {
        BeforeTrans(x, s[0], y, c, asc);
      }
    }
  }

  /** The head of a sorted sequence may precede everything `Insert` puts after it. */
  lemma {:induction false} TailBound(x: Asset, s: seq<Asset>, c: Column, asc: bool)
    requires Sorted(s, c, asc) && s != [] && Before(s[0], x, c, asc)
    ensures forall y :: y in Insert(x, s[1..], c, asc) ==> Before(s[0], y, c, asc)
  {
    var t := Insert(x, s[1..], c, asc);
    forall y | y in t
      ensures Before(s[0], y, c, asc)
    {
      assert y in multiset(t);
      if y != x {
        assert y in multiset(s[1..]);
        var k :| 0 <= k < |s[1..]| && s[1..][k] == y;
        assert s[k + 1] == y;
      }
    }
  }

  lemma {:induction false} InsertSorted(x: Asset, s: seq<Asset>, c: Column, asc: bool)
    requires Sorted(s, c, asc)
    ensures Sorted(Insert(x, s, c, asc), c, asc)
  {
    if s == [] {
    } else if Before(x, s[0], c, asc) {
      HeadBound(x, s, c, asc);
      ConsSorted(x, s, c, asc);
    } else {
      BeforeTotal(x, s[0], c, asc);
      assert Sorted(s[1..], c, asc) by {
        forall i, j | 0 <= i < j < |s[1..]|
          ensures Before(s[1..][i], s[1..][j], c, asc)
        {
          assert s[1..][i] == s[i + 1] && s[1..][j] == s[j + 1];
        }
      }
      InsertSorted(x, s[1..], c, asc);
      TailBound(x, s, c, asc);
      ConsSorted(s[0], Insert(x, s[1..], c, asc), c, asc);
    }
  }

  lemma {:induction false} SortRowsSorted(s: seq<Asset>, c: Column, asc: bool)
    ensures Sorted(SortRows(s, c, asc), c, asc)
  {
    if s != [] {
      SortRowsSorted(s[1..], c, asc);
      InsertSorted(s[0], SortRows(s[1..], c, asc), c, asc);
    }
  }

  /** `offset(skip).limit(limit)`. */
  function Page(s: seq<Asset>, skip: nat, limit: nat): (r: seq<Asset>)
    ensures |r| == if skip >= |s| then 0 else if limit <= |s| - skip then limit else |s| - skip
    ensures forall i :: 0 <= i < |r| ==> r[i] == s[skip + i]
  {
    var lo := if skip < |s| then skip else |s|;
    var hi := if skip + limit < |s| then skip + limit else |s|;
    s[lo..hi]
  }

  /** The matching rows sorted by `sortBy`, ascending exactly when `order` is "asc". */
  function Listing(rows: seq<Asset>, f: Filters, sortBy: Column, order: string): seq<Asset> {
    SortRows(Filtered(rows, f), sortBy, order == "asc")
  }

  /** `get_all`: the page `[skip, skip + limit)` of the listing. */
  function GetAll(rows: seq<Asset>, f: Filters, sortBy: Column, order: string, skip: nat, limit: nat): (r: seq<Asset>)
    ensures |r| <= limit
  {
    Page(Listing(rows, f, sortBy, order), skip, limit)
  }

  /** `count`: the number of rows its own filter accepts. */
  function Count(rows: seq<Asset>, f: Filters): (r: nat)
    ensures r <= |rows|
  {
    |Where(rows, a => CountMatches(a, f))|
  }

  predicate VisibleWithId(a: Asset, id: string) {
    a.id == id && !a.isDeleted
  }

  /** Position of the first row with this id that is not soft-deleted. */
  function VisibleIndex(rows: seq<Asset>, id: string): (r: Option<nat>)
    ensures r.Some? ==> r.value < |rows| && VisibleWithId(rows[r.value], id)
    ensures r.Some? ==> forall j :: 0 <= j < r.value ==> !VisibleWithId(rows[j], id)
    ensures r.None? ==> forall j :: 0 <= j < |rows| ==> !VisibleWithId(rows[j], id)
  {
    if rows == [] then None
    else if VisibleWithId(rows[0], id) then Some(0)
    else
      var r := VisibleIndex(rows[1..], id);
      assert forall j :: 1 <= j < |rows| ==> rows[j] == rows[1..][j - 1];
      if r.Some? then Some(r.value + 1) else None
  }

  /**
   * `get_by_id`: the row with this id, unless it is missing or soft-deleted,
   * both of which read as absent.
   */
  function GetById(rows: seq<Asset>, id: string): (r: Option<Asset>)
    ensures r.Some? <==> exists i :: 0 <= i < |rows| && VisibleWithId(rows[i], id)
    ensures r.Some? ==> r.value in rows && r.value.id == id && !r.value.isDeleted
  {
    var i := VisibleIndex(rows, id);
    if i.Some? then Some(rows[i.value]) else None
  }
}
