/**
 * The `assets` table: one row per asset, and the closed sets of strings the
 * status and category columns may hold.
 */
module Models {
  import opened Wrappers
  import Text

  /** A calendar date, as a day number. */
  type Date = int

  /** A point in time, as the clock reports it. */
  type Timestamp = int

  const ACTIVE: string := "active"
  const SOLD: string := "sold"
  const DONATED: string := "donated"

  const ELECTRONICS: string := "electronics"
  const FURNITURE: string := "furniture"
  const VEHICLE: string := "vehicle"
  const JEWELRY: string := "jewelry"
  const OTHER: string := "other"

  /** `AssetStatus.all()`: the strings the status column may hold. */
  function StatusAll(): (r: seq<string>)
    ensures |r| == 3 && forall i, j :: 0 <= i < j < |r| ==> r[i] != r[j]
    ensures forall s :: s in r ==> Text.IsLower(s)
  {
    [ACTIVE, SOLD, DONATED]
  }

  /** `AssetCategory.all()`: the strings the category column may hold. */
  function CategoryAll(): (r: seq<string>)
    ensures |r| == 5 && forall i, j :: 0 <= i < j < |r| ==> r[i] != r[j]
    ensures forall s :: s in r ==> Text.IsLower(s)
  {
    [ELECTRONICS, FURNITURE, VEHICLE, JEWELRY, OTHER]
  }

  /**
   * One row. Columns declared `nullable=False` have non-optional types here;
   * `description` and `deleted_at` are the two nullable columns.
   */
  datatype Asset = Asset(
    id: string,
    name: string,
    category: string,
    value: real,
    purchaseDate: Date,
    status: string,
    description: Option<string>,
    createdAt: Timestamp,
    updatedAt: Timestamp,
    isDeleted: bool,
    deletedAt: Option<Timestamp>)

  const NAME_MIN := 1
  const NAME_MAX := 200
  const DESCRIPTION_MAX := 500

  predicate NameOk(name: string) { NAME_MIN <= |name| <= NAME_MAX }

  predicate DescriptionOk(d: Option<string>) { d.Some? ==> |d.value| <= DESCRIPTION_MAX }

  /**
   * What every stored row satisfies, given that every write goes through the
   * validated schemas: name length, positive value, enumerated category and
   * status, bounded description, and the soft-delete marker and its timestamp
   * set together.
   */
  predicate WellFormed(a: Asset) {
    && NameOk(a.name)
    && a.value > 0.0
    && a.category in CategoryAll()
    && a.status in StatusAll()
    && DescriptionOk(a.description)
    && (a.isDeleted <==> a.deletedAt.Some?)
  }

  /** The primary key: no two rows share an id. */
  predicate DistinctIds(rows: seq<Asset>) {
    forall i, j :: 0 <= i < j < |rows| ==> rows[i].id != rows[j].id
  }

  /**
   * A row as inserted: the column defaults give `is_deleted = false`, no
   * `deleted_at`, and `created_at` and `updated_at` both from the clock.
   */
  function Inserted(id: string, name: string, category: string, value: real, purchaseDate: Date,
                    status: string, description: Option<string>, now: Timestamp): Asset
  {
    Asset(id, name, category, value, purchaseDate, status, description, now, now, false, None)
  }
}
