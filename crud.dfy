/**
 * The write side of the asset store (`AssetCRUD`): create, partial update,
 * soft delete and hard delete over the table's rows, and what they promise
 * about the rows the read side sees afterwards.
 */
module Crud {
  import opened Wrappers
  import opened Models
  import opened Schemas
  import Query
  import QueryFacts

  /** `create`: the new row, or a primary-key clash on the generated id. */
  datatype CreateOutcome = Created(asset: Asset) | DuplicateId

  /**
   * `update`: not found (the method returns `None`), the commit refused because
   * a not-null column was set to null, or the updated row.
   */
  datatype UpdateOutcome = NotFound | NotNullViolation | Updated(asset: Asset)

  /** The invariant of the stored table. */
  predicate TableOk(rows: seq<Asset>) {
    DistinctIds(rows) && forall i :: 0 <= i < |rows| ==> WellFormed(rows[i])
  }

  predicate HasId(rows: seq<Asset>, id: string) {
    exists i :: 0 <= i < |rows| && rows[i].id == id
  }

  /** The row `create` inserts: enumeration members stored as their strings. */
  function NewRow(data: AssetCreate, id: string, now: Timestamp): Asset {
    Inserted(id, data.name, CategoryValue(data.category), data.value, data.purchaseDate,
             StatusValue(data.status), data.description, now)
  }

  /**
   * Reading back a created row by its id gives every user-supplied field as
   * sent, the enumerations as their strings, status `active` when the payload
   * omitted it (the schema default), a live row, and equal creation and update
   * stamps.
   */
  lemma {:induction false} CreateThenGetById(rows: seq<Asset>, data: AssetCreate, id: string, now: Timestamp)
    requires DistinctIds(rows) && !HasId(rows, id)
    ensures var r := Query.GetById(rows + [NewRow(data, id, now)], id);
      && r.Some?
      && r.value.id == id && r.value.name == data.name && r.value.value == data.value
      && r.value.category == CategoryValue(data.category) && r.value.status == StatusValue(data.status)
      && r.value.purchaseDate == data.purchaseDate && r.value.description == data.description
      && r.value.createdAt == r.value.updatedAt == now
      && !r.value.isDeleted && r.value.deletedAt.None?
  {
    var rows' := rows + [NewRow(data, id, now)];
    assert Query.VisibleWithId(rows'[|rows|], id);
    var i := Query.VisibleIndex(rows', id);
    assert i.Some? && i.value == |rows|;
  }

  lemma {:induction false} CreatePreservesTable(rows: seq<Asset>, data: AssetCreate, id: string, now: Timestamp)
    requires TableOk(rows) && ValidCreate(data) && !HasId(rows, id)
    ensures TableOk(rows + [NewRow(data, id, now)])
  {
    var rows' := rows + [NewRow(data, id, now)];
    forall i, j | 0 <= i < j < |rows'|
      ensures rows'[i].id != rows'[j].id
    {
      if j == |rows| {
        assert rows'[i] == rows[i];
      }
    }
  }

  /** One `setattr(db_asset, field, value)` of the update loop, enumerations already converted. */
  datatype Assignment =
    | SetName(name: string)
    | SetCategory(category: string)
    | SetValue(value: real)
    | SetPurchaseDate(purchaseDate: Date)
    | SetStatus(status: string)
    | SetDescription(description: Option<string>)

  function SetAttr(a: Asset, x: Assignment): Asset {
    match x
    case SetName(v) => a.(name := v)
    case SetCategory(v) => a.(category := v)
    case SetValue(v) => a.(value := v)
    case SetPurchaseDate(v) => a.(purchaseDate := v)
    case SetStatus(v) => a.(status := v)
    case SetDescription(v) => a.(description := v)
  }

  /** The patch sets a column that the table declares not-null to null. */
  predicate NullIntoNotNull(p: AssetUpdate) {
    p.name.Null? || p.category.Null? || p.value.Null? || p.purchaseDate.Null? || p.status.Null?
  }

  /**
   * `model_dump(exclude_unset=True)` with `.value` applied to the enumeration
   * members: one assignment per field the client set, in declaration order.
   */
  function Dump(p: AssetUpdate): seq<Assignment>
    requires !NullIntoNotNull(p)
  {
    NameEntry(p.name) + CategoryEntry(p.category) + ValueEntry(p.value)
    + PurchaseDateEntry(p.purchaseDate) + StatusEntry(p.status) + DescriptionEntry(p.description)
  }

  /* The dumped entry of each field: present when the client set it. */

  function NameEntry(x: Input<string>): seq<Assignment>
  {
    if x.Given? then [SetName(x.value)] else []
  }

  function CategoryEntry(x: Input<Category>): seq<Assignment>
  {
    if x.Given? then [SetCategory(CategoryValue(x.value))] else []
  }

  function ValueEntry(x: Input<real>): seq<Assignment>
  {
    if x.Given? then [SetValue(x.value)] else []
  }

  function PurchaseDateEntry(x: Input<Date>): seq<Assignment>
  {
    if x.Given? then [SetPurchaseDate(x.value)] else []
  }

  function StatusEntry(x: Input<Status>): seq<Assignment>
  {
    if x.Given? then [SetStatus(StatusValue(x.value))] else []
  }

  /** The nullable description: `null` clears it. */
  function DescriptionEntry(x: Input<string>): seq<Assignment>
  {
    match x
    case Omitted => []
    case Null => [SetDescription(None)]
    case Given(d) => [SetDescription(Some(d))]
  }

  /** The update loop: `setattr` each dumped assignment in turn. */
  method SetAttrs(row: Asset, items: seq<Assignment>) returns (a: Asset)
    ensures a == ApplyAll(row, items)
  {
    a := row;
    var k := 0;
    while k < |items|
      invariant 0 <= k <= |items|
      invariant a == ApplyAll(row, items[..k])
    {
      assert items[..k + 1][..k] == items[..k];
      a := SetAttr(a, items[k]);
      k := k + 1;
    }
    assert items[..k] == items;
  }

  /** The row after the first `|xs|` iterations of the update loop. */
  function ApplyAll(a: Asset, xs: seq<Assignment>): Asset {
    if xs == [] then a else SetAttr(ApplyAll(a, xs[..|xs| - 1]), xs[|xs| - 1])
  }

  lemma {:induction false} ApplyAllAppend(a: Asset, xs: seq<Assignment>, ys: seq<Assignment>)
    ensures ApplyAll(a, xs + ys) == ApplyAll(ApplyAll(a, xs), ys)
  {
    if ys != [] {
      var zs := xs + ys;
      var ys' := ys[..|ys| - 1];
      assert zs[..|zs| - 1] == xs + ys';
      assert zs[|zs| - 1] == ys[|ys| - 1];
      ApplyAllAppend(a, xs, ys');
      assert ApplyAll(a, zs) == SetAttr(ApplyAll(a, xs + ys'), ys[|ys| - 1]);
    } else {
      assert xs + ys == xs;
    }
  }

  /**
   * The merge, field by field: a field the client set takes the new value (an
   * enumeration as its string, a null description as no description); every
   * other column keeps its value.
   */
  function Merge(a: Asset, p: AssetUpdate): Asset
    requires !NullIntoNotNull(p)
  {
    a.(name := if p.name.Given? then p.name.value else a.name,
       category := if p.category.Given? then CategoryValue(p.category.value) else a.category,
       value := if p.value.Given? then p.value.value else a.value,
       purchaseDate := if p.purchaseDate.Given? then p.purchaseDate.value else a.purchaseDate,
       status := if p.status.Given? then StatusValue(p.status.value) else a.status,
       description := match p.description
                      case Omitted => a.description
                      case Null => None
                      case Given(d) => Some(d))
  }

  /** Running the update loop over the dumped patch is the field-by-field merge. */
  lemma {:induction false} UpdateLoopIsMerge(a: Asset, p: AssetUpdate)
    requires !NullIntoNotNull(p)
    ensures ApplyAll(a, Dump(p)) == Merge(a, p)
  {
    var s1 := NameEntry(p.name);
    var s2 := s1 + CategoryEntry(p.category);
    var s3 := s2 + ValueEntry(p.value);
    var s4 := s3 + PurchaseDateEntry(p.purchaseDate);
    var s5 := s4 + StatusEntry(p.status);
    var s6 := s5 + DescriptionEntry(p.description);
    assert Dump(p) == s6;
    ApplyAllShort(a, s1);
    CategoryStep(a, s1, p.category);
    ValueStep(a, s2, p.value);
    PurchaseDateStep(a, s3, p.purchaseDate);
    StatusStep(a, s4, p.status);
    DescriptionStep(a, s5, p.description);
  }

  /* One iteration of the loop per field: the field takes the set value, if any. */

  lemma CategoryStep(a: Asset, s: seq<Assignment>, x: Input<Category>)
    ensures ApplyAll(a, s + CategoryEntry(x))
         == ApplyAll(a, s).(category := if x.Given? then CategoryValue(x.value) else ApplyAll(a, s).category)
  {
    StepEntry(a, s, CategoryEntry(x));
  }

  lemma ValueStep(a: Asset, s: seq<Assignment>, x: Input<real>)
    ensures ApplyAll(a, s + ValueEntry(x)) == ApplyAll(a, s).(value := if x.Given? then x.value else ApplyAll(a, s).value)
  {
    StepEntry(a, s, ValueEntry(x));
  }

  lemma PurchaseDateStep(a: Asset, s: seq<Assignment>, x: Input<Date>)
    ensures ApplyAll(a, s + PurchaseDateEntry(x))
         == ApplyAll(a, s).(purchaseDate := if x.Given? then x.value else ApplyAll(a, s).purchaseDate)
  {
    StepEntry(a, s, PurchaseDateEntry(x));
  }

  lemma StatusStep(a: Asset, s: seq<Assignment>, x: Input<Status>)
    ensures ApplyAll(a, s + StatusEntry(x))
         == ApplyAll(a, s).(status := if x.Given? then StatusValue(x.value) else ApplyAll(a, s).status)
  {
    StepEntry(a, s, StatusEntry(x));
  }

  lemma DescriptionStep(a: Asset, s: seq<Assignment>, x: Input<string>)
    ensures ApplyAll(a, s + DescriptionEntry(x))
         == ApplyAll(a, s).(description := match x
                                           case Omitted => ApplyAll(a, s).description
                                           case Null => None
                                           case Given(d) => Some(d))
  {
    StepEntry(a, s, DescriptionEntry(x));
  }

  /** Appending at most one assignment to the loop applies it, if any. */
  lemma StepEntry(a: Asset, s: seq<Assignment>, d: seq<Assignment>)
    requires |d| <= 1
    ensures ApplyAll(a, s + d) == if d == [] then ApplyAll(a, s) else SetAttr(ApplyAll(a, s), d[0])
  {
    ApplyAllAppend(a, s, d);
    ApplyAllShort(ApplyAll(a, s), d);
  }

  /** At most one assignment: apply it, if any. */
  lemma ApplyAllShort(b: Asset, d: seq<Assignment>)
    requires |d| <= 1
    ensures ApplyAll(b, d) == if d == [] then b else SetAttr(b, d[0])
  {
    if d != [] {
      assert d[..0] == [];
    }
  }

  /**
   * The merge changes exactly the fields the client set: the id, the creation
   * and update stamps and the soft-delete columns never change, an unset field
   * keeps its value, a set field takes the new one.
   */
  lemma MergeChangesOnlySetFields(a: Asset, p: AssetUpdate)
    requires !NullIntoNotNull(p)
    ensures var m := Merge(a, p);
      && m.id == a.id && m.createdAt == a.createdAt && m.updatedAt == a.updatedAt
      && m.isDeleted == a.isDeleted && m.deletedAt == a.deletedAt
      && (p.name.Omitted? ==> m.name == a.name) && (p.name.Given? ==> m.name == p.name.value)
      && (p.category.Omitted? ==> m.category == a.category)
      && (p.category.Given? ==> m.category == CategoryValue(p.category.value))
      && (p.value.Omitted? ==> m.value == a.value) && (p.value.Given? ==> m.value == p.value.value)
      && (p.purchaseDate.Omitted? ==> m.purchaseDate == a.purchaseDate)
      && (p.purchaseDate.Given? ==> m.purchaseDate == p.purchaseDate.value)
      && (p.status.Omitted? ==> m.status == a.status)
      && (p.status.Given? ==> m.status == StatusValue(p.status.value))
      && (p.description.Omitted? ==> m.description == a.description)
      && (p.description.Null? ==> m.description.None?)
      && (p.description.Given? ==> m.description == Some(p.description.value))
  {
  }

  /** Applying the same patch twice is the same as applying it once. */
  lemma MergeIdempotent(a: Asset, p: AssetUpdate)
    requires !NullIntoNotNull(p)
    ensures Merge(Merge(a, p), p) == Merge(a, p)
  {
  }

  lemma MergePreservesWellFormed(a: Asset, p: AssetUpdate)
    requires WellFormed(a) && ValidPatch(p) && !NullIntoNotNull(p)
    ensures WellFormed(Merge(a, p))
  {
  }

  /**
   * The row as committed: `updated_at` is re-stamped by the column's `onupdate`
   * when the merge changed some column, since only then is an UPDATE issued.
   */
  function Touched(before: Asset, after: Asset, now: Timestamp): Asset {
    if after != before then after.(updatedAt := now) else after
  }

  function UpdateResult(rows: seq<Asset>, id: string, p: AssetUpdate, now: Timestamp): UpdateOutcome {
    match Query.VisibleIndex(rows, id)
    case None => NotFound
    case Some(i) =>
      if NullIntoNotNull(p) then NotNullViolation
      else Updated(Touched(rows[i], Merge(rows[i], p), now))
  }

  function AfterUpdate(rows: seq<Asset>, id: string, p: AssetUpdate, now: Timestamp): (r: seq<Asset>)
    ensures |r| == |rows|
  {
    match Query.VisibleIndex(rows, id)
    case None => rows
    case Some(i) =>
      if NullIntoNotNull(p) then rows
      else rows[i := Touched(rows[i], Merge(rows[i], p), now)]
  }

  /**
   * `update` reports not-found exactly when `get_by_id` finds nothing (a missing
   * or soft-deleted id) and then changes nothing; a refused commit changes
   * nothing either; otherwise exactly the found row is replaced by the merged
   * row, whose id and creation stamp are unchanged and whose update stamp is the
   * clock's when something changed, and `get_by_id` then returns it.
   */
  lemma {:induction false} UpdateEffect(rows: seq<Asset>, id: string, p: AssetUpdate, now: Timestamp)
    requires DistinctIds(rows)
    ensures UpdateResult(rows, id, p, now).NotFound? <==> Query.GetById(rows, id).None?
    ensures !UpdateResult(rows, id, p, now).Updated? ==> AfterUpdate(rows, id, p, now) == rows
    ensures UpdateResult(rows, id, p, now).Updated? ==>
      && Query.GetById(rows, id).Some?
      && var old_ := Query.GetById(rows, id).value;
      && var new_ := UpdateResult(rows, id, p, now).asset;
      && new_.id == id && new_.createdAt == old_.createdAt
      && new_.(updatedAt := old_.updatedAt) == Merge(old_, p)
      && new_.updatedAt == (if Merge(old_, p) != old_ then now else old_.updatedAt)
      && Query.GetById(AfterUpdate(rows, id, p, now), id) == Some(new_)
      && forall j :: 0 <= j < |rows| && rows[j].id != id ==> AfterUpdate(rows, id, p, now)[j] == rows[j]
  {
    var idx := Query.VisibleIndex(rows, id);
    if idx.Some? {
      var i := idx.value;
      if !NullIntoNotNull(p) {
        var rows' := AfterUpdate(rows, id, p, now);
        assert Query.VisibleWithId(rows'[i], id);
        forall j | 0 <= j < |rows'| && j != i
          ensures rows'[j].id != id
        {
          assert rows'[j] == rows[j];
        }
        var idx' := Query.VisibleIndex(rows', id);
        assert idx'.Some? && idx'.value == i;
      }
    }
  }

  lemma {:induction false} UpdatePreservesTable(rows: seq<Asset>, id: string, p: AssetUpdate, now: Timestamp)
    requires TableOk(rows) && ValidPatch(p)
    ensures TableOk(AfterUpdate(rows, id, p, now))
  {
    var idx := Query.VisibleIndex(rows, id);
    if idx.Some? && !NullIntoNotNull(p) {
      MergePreservesWellFormed(rows[idx.value], p);
    }
  }

  /** The row as soft-deleted: marker set, deletion and update stamped. */
  function Retired(a: Asset, now: Timestamp): Asset {
    a.(isDeleted := true, deletedAt := Some(now), updatedAt := now)
  }

  function AfterSoftDelete(rows: seq<Asset>, id: string, now: Timestamp): (r: seq<Asset>)
    ensures |r| == |rows|
  {
    match Query.VisibleIndex(rows, id)
    case None => rows
    case Some(i) => rows[i := Retired(rows[i], now)]
  }

  function AfterDelete(rows: seq<Asset>, id: string): (r: seq<Asset>) {
    match Query.VisibleIndex(rows, id)
    case None => rows
    case Some(i) => rows[..i] + rows[i + 1..]
  }

  /**
   * Soft-deleting a visible row keeps it in storage (same position, same
   * columns except the marker and the two stamps) and makes it invisible:
   * `get_by_id` no longer finds it, so a second soft delete or a hard delete
   * reports failure and changes nothing, and no `get_all` page contains it.
   */
  lemma {:induction false} SoftDeleteLifecycle(rows: seq<Asset>, id: string, now: Timestamp, later: Timestamp)
    requires DistinctIds(rows) && Query.GetById(rows, id).Some?
    ensures var i := Query.VisibleIndex(rows, id).value;
      && var rows' := AfterSoftDelete(rows, id, now);
      && rows' == rows[i := rows[i].(isDeleted := true, deletedAt := Some(now), updatedAt := now)]
      && Query.GetById(rows', id).None?
      && AfterSoftDelete(rows', id, later) == rows'
      && AfterDelete(rows', id) == rows'
      && HasId(AfterDelete(rows', id), id)
      && forall f, sortBy, order, skip, limit, a ::
           a in Query.GetAll(rows', f, sortBy, order, skip, limit) ==> a.id != id
  {
    var i := Query.VisibleIndex(rows, id).value;
    var rows' := AfterSoftDelete(rows, id, now);
    forall j | 0 <= j < |rows'|
      ensures !Query.VisibleWithId(rows'[j], id)
    {
      if j != i {
        assert rows'[j] == rows[j];
      }
    }
    assert Query.VisibleIndex(rows', id).None?;
    assert rows'[i].id == id;
    forall f, sortBy, order, skip, limit, a | a in Query.GetAll(rows', f, sortBy, order, skip, limit)
      ensures a.id != id
    {
      QueryFacts.GetAllSound(rows', f, sortBy, order, skip, limit);
    }
  }

  lemma {:induction false} SoftDeletePreservesTable(rows: seq<Asset>, id: string, now: Timestamp)
    requires TableOk(rows)
    ensures TableOk(AfterSoftDelete(rows, id, now))
  {
  }

  /**
   * Hard delete removes exactly the visible row with that id, keeping the other
   * rows in order, after which no row carries the id; it does nothing when
   * `get_by_id` finds nothing, even if a soft-deleted row with that id is stored.
   */
  lemma {:induction false} HardDeleteEffect(rows: seq<Asset>, id: string)
    requires DistinctIds(rows)
    ensures Query.GetById(rows, id).None? ==> AfterDelete(rows, id) == rows
    ensures Query.GetById(rows, id).Some? ==>
      && |AfterDelete(rows, id)| == |rows| - 1
      && !HasId(AfterDelete(rows, id), id)
      && forall a :: a in rows && a.id != id ==> a in AfterDelete(rows, id)
  {
    var idx := Query.VisibleIndex(rows, id);
    if idx.Some? {
      var i := idx.value;
      var rows' := AfterDelete(rows, id);
      forall j | 0 <= j < |rows'|
        ensures rows'[j].id != id
      {
        if j < i {
          assert rows'[j] == rows[j];
        } else {
          assert rows'[j] == rows[j + 1];
        }
      }
      forall a | a in rows && a.id != id
        ensures a in rows'
      {
        var k :| 0 <= k < |rows| && rows[k] == a;
        if k < i {
          assert rows'[k] == a;
        } else {
          assert k != i;
          assert rows'[k - 1] == a;
        }
      }
    }
  }

  lemma {:induction false} DeletePreservesTable(rows: seq<Asset>, id: string)
    requires TableOk(rows)
    ensures TableOk(AfterDelete(rows, id))
  {
    var idx := Query.VisibleIndex(rows, id);
    if idx.Some? {
      var i := idx.value;
      var rows' := AfterDelete(rows, id);
      assert forall j :: 0 <= j < |rows'| ==> rows'[j] == (if j < i then rows[j] else rows[j + 1]);
    }
  }

  /**
   * The assets table as the CRUD operations see it, in storage order. Reads are
   * the functions of `Query` applied to `rows`.
   */
  class AssetStore {
    var rows: seq<Asset>

    ghost predicate Valid()
      reads this
    {
      TableOk(rows)
    }

    constructor ()
      ensures Valid() && rows == []
    {
      rows := [];
    }

    /**
     * `create`: insert a row built from the validated payload under the id the
     * generator supplies, stamped with the clock; a clash with a stored id
     * (live or soft-deleted) is refused and nothing is written.
     */
    method Create(data: AssetCreate, freshId: string, now: Timestamp) returns (r: CreateOutcome)
      requires Valid() && ValidCreate(data)
      modifies this
      ensures Valid()
      ensures HasId(old(rows), freshId) ==> r == DuplicateId && rows == old(rows)
      ensures !HasId(old(rows), freshId) ==> r == Created(NewRow(data, freshId, now)) && rows == old(rows) + [r.asset]
    {
      if HasId(rows, freshId) {
        return DuplicateId;
      }
      var a := NewRow(data, freshId, now);
      CreatePreservesTable(rows, data, freshId, now);
      rows := rows + [a];
      r := Created(a);
    }

    /**
     * `update`: look the row up with `get_by_id`, then set, one field at a
     * time, each field the client set, then commit.
     */
    method Update(id: string, patch: AssetUpdate, now: Timestamp) returns (r: UpdateOutcome)
      requires Valid() && ValidPatch(patch)
      modifies this
      ensures Valid()
      ensures r == UpdateResult(old(rows), id, patch, now)
      ensures rows == AfterUpdate(old(rows), id, patch, now)
    {
      var idx := Query.VisibleIndex(rows, id);
      if idx.None? {
        return NotFound;
      }
      var i := idx.value;
      if NullIntoNotNull(patch) {
        return NotNullViolation;
      }
      var a := SetAttrs(rows[i], Dump(patch));
      UpdateLoopIsMerge(rows[i], patch);
      if a != rows[i] {
        a := a.(updatedAt := now);
      }
      UpdatePreservesTable(rows, id, patch, now);
      rows := rows[i := a];
      r := Updated(a);
    }

    /** `delete`: remove the row `get_by_id` finds; report whether there was one. */
    method Delete(id: string) returns (ok: bool)
      requires Valid()
      modifies this
      ensures Valid()
      ensures ok <==> Query.GetById(old(rows), id).Some?
      ensures rows == AfterDelete(old(rows), id)
    {
      var idx := Query.VisibleIndex(rows, id);
      if idx.None? {
        return false;
      }
      DeletePreservesTable(rows, id);
      var i := idx.value;
      rows := rows[..i] + rows[i + 1..];
      ok := true;
    }

    /** `soft_delete`: mark the row `get_by_id` finds as deleted; report whether there was one. */
    method SoftDelete(id: string, now: Timestamp) returns (ok: bool)
      requires Valid()
      modifies this
      ensures Valid()
      ensures ok <==> Query.GetById(old(rows), id).Some?
      ensures rows == AfterSoftDelete(old(rows), id, now)
    {
      var idx := Query.VisibleIndex(rows, id);
      if idx.None? {
        return false;
      }
      SoftDeletePreservesTable(rows, id, now);
      var i := idx.value;
      rows := rows[i := Retired(rows[i], now)];
      ok := true;
    }
  }
}
