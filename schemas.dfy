/**
 * The request schemas: the status and category enumerations, the create payload
 * with its field constraints and the status default, and the update payload in
 * which every field is optional.
 *
 * A JSON field can be left out, sent as `null`, or sent with a value; `Input`
 * keeps the three apart, because the update merge applies exactly the fields the
 * client set (including those set to `null`).
 */
module Schemas {
  import opened Wrappers
  import opened Models

  datatype Status = Active | Sold | Donated

  datatype Category = Electronics | Furniture | Vehicle | Jewelry | Other

  /** The string an enumeration member stands for (`.value`). */
  function StatusValue(s: Status): (v: string)
    ensures v in StatusAll()
  {
    match s
    case Active => ACTIVE
    case Sold => SOLD
    case Donated => DONATED
  }

  /** Enumeration validation: only the exact member strings are accepted. */
  function ParseStatus(v: string): (r: Option<Status>)
    ensures r.Some? <==> v in StatusAll()
    ensures r.Some? ==> StatusValue(r.value) == v
  {
    if v == ACTIVE then Some(Active)
    else if v == SOLD then Some(Sold)
    else if v == DONATED then Some(Donated)
    else None
  }

  function CategoryValue(c: Category): (v: string)
    ensures v in CategoryAll()
  {
    match c
    case Electronics => ELECTRONICS
    case Furniture => FURNITURE
    case Vehicle => VEHICLE
    case Jewelry => JEWELRY
    case Other => OTHER
  }

  function ParseCategory(v: string): (r: Option<Category>)
    ensures r.Some? <==> v in CategoryAll()
    ensures r.Some? ==> CategoryValue(r.value) == v
  {
    if v == ELECTRONICS then Some(Electronics)
    else if v == FURNITURE then Some(Furniture)
    else if v == VEHICLE then Some(Vehicle)
    else if v == JEWELRY then Some(Jewelry)
    else if v == OTHER then Some(Other)
    else None
  }

  /** Every member's string parses back to that member. */
  lemma {:induction false} EnumRoundTrip(s: Status, c: Category)
    ensures ParseStatus(StatusValue(s)) == Some(s)
    ensures ParseCategory(CategoryValue(c)) == Some(c)
  {
    match s
    case Active =>
    case Sold =>
    case Donated =>
  }

  datatype Input<+T> = Omitted | Null | Given(value: T)

  function MapInput<T, U>(x: Input<T>, f: T -> U): Input<U> {
    match x
    case Omitted => Omitted
    case Null => Null
    case Given(v) => Given(f(v))
  }

  datatype FieldName = NameField | CategoryField | ValueField | PurchaseDateField | StatusField | DescriptionField

  datatype Violation =
    | Missing(field: FieldName)
    | NullNotAllowed(field: FieldName)
    | TooShort(field: FieldName)
    | TooLong(field: FieldName)
    | NotPositive(field: FieldName)
    | NotAnEnumMember(field: FieldName)

  datatype Validated<+T> = Accepted(value: T) | Rejected(violations: set<Violation>)

  /* The constraint on one supplied value, shared by the create and update schemas. */

  function NameCheck(s: string): set<Violation> {
    (if |s| < NAME_MIN then {TooShort(NameField)} else {}) + (if |s| > NAME_MAX then {TooLong(NameField)} else {})
  }

  function CategoryCheck(s: string): set<Violation> {
    if ParseCategory(s).None? then {NotAnEnumMember(CategoryField)} else {}
  }

  function ValueCheck(v: real): set<Violation> {
    if v <= 0.0 then {NotPositive(ValueField)} else {}
  }

  function StatusCheck(s: string): set<Violation> {
    if ParseStatus(s).None? then {NotAnEnumMember(StatusField)} else {}
  }

  function DescriptionCheck(s: string): set<Violation> {
    if |s| > DESCRIPTION_MAX then {TooLong(DescriptionField)} else {}
  }

  /** A required, non-nullable field. */
  function Required<T>(f: FieldName, x: Input<T>, check: T -> set<Violation>): set<Violation> {
    match x
    case Omitted => {Missing(f)}
    case Null => {NullNotAllowed(f)}
    case Given(v) => check(v)
  }

  /** An `Optional[...]` field: absent and `null` both pass. */
  function Optional<T>(x: Input<T>, check: T -> set<Violation>): set<Violation> {
    if x.Given? then check(x.value) else {}
  }

  /** The create payload as received. */
  datatype CreateRequest = CreateRequest(
    name: Input<string>,
    category: Input<string>,
    value: Input<real>,
    purchaseDate: Input<Date>,
    status: Input<string>,
    description: Input<string>)

  /** `AssetCreate` once validated. */
  datatype AssetCreate = AssetCreate(
    name: string,
    category: Category,
    value: real,
    purchaseDate: Date,
    status: Status,
    description: Option<string>)

  /** The field constraints every validated create payload satisfies. */
  predicate ValidCreate(c: AssetCreate) {
    NameOk(c.name) && c.value > 0.0 && DescriptionOk(c.description)
  }

  /**
   * When a create request is acceptable, field by field: name, category, value
   * and purchase date required; status optional but not null; description
   * optional and nullable. No field compares the purchase date with today.
   */
  predicate CreateRequestOk(req: CreateRequest) {
    && req.name.Given? && NameOk(req.name.value)
    && req.category.Given? && req.category.value in CategoryAll()
    && req.value.Given? && req.value.value > 0.0
    && req.purchaseDate.Given?
    && !req.status.Null? && (req.status.Given? ==> req.status.value in StatusAll())
    && (req.description.Given? ==> |req.description.value| <= DESCRIPTION_MAX)
  }

  function CreateViolations(req: CreateRequest): set<Violation> {
    Required(NameField, req.name, NameCheck)
    + Required(CategoryField, req.category, CategoryCheck)
    + Required(ValueField, req.value, ValueCheck)
    + Required(PurchaseDateField, req.purchaseDate, (d: Date) => {})
    + (if req.status.Omitted? then {} else Required(StatusField, req.status, StatusCheck))
    + Optional(req.description, DescriptionCheck)
  }

  lemma CreateViolationsNoneIffOk(req: CreateRequest)
    ensures CreateViolations(req) == {} <==> CreateRequestOk(req)
  {
  }

  lemma CreateViolationsNotPositive(req: CreateRequest)
    ensures NotPositive(ValueField) in CreateViolations(req) <==> req.value.Given? && req.value.value <= 0.0
  {
  }

  lemma CreateViolationsMissing(req: CreateRequest)
    ensures forall f :: Missing(f) in CreateViolations(req) ==> f != StatusField && f != DescriptionField
  {
  }

  /**
   * Validation of a create payload: every violated constraint is reported, and
   * an accepted payload carries the given values, `active` for an omitted status
   * and no description for an omitted or null one.
   */
  function ValidateCreate(req: CreateRequest): (r: Validated<AssetCreate>)
    ensures r.Accepted? <==> CreateRequestOk(req)
    ensures r.Accepted? ==> ValidCreate(r.value)
    ensures r.Accepted? ==>
      && r.value.name == req.name.value
      && CategoryValue(r.value.category) == req.category.value
      && r.value.value == req.value.value
      && r.value.purchaseDate == req.purchaseDate.value
      && (req.status.Omitted? ==> r.value.status == Active)
      && (req.status.Given? ==> StatusValue(r.value.status) == req.status.value)
      && r.value.description == (if req.description.Given? then Some(req.description.value) else None)
    ensures r.Rejected? ==>
      && (NotPositive(ValueField) in r.violations <==> req.value.Given? && req.value.value <= 0.0)
      && (forall f :: Missing(f) in r.violations ==> f != StatusField && f != DescriptionField)
  {
    var errs := CreateViolations(req);
    CreateViolationsNoneIffOk(req);
    CreateViolationsNotPositive(req);
    CreateViolationsMissing(req);
    if errs != {} then Rejected(errs)
    else
      Accepted(AssetCreate(
        req.name.value,
        ParseCategory(req.category.value).value,
        req.value.value,
        req.purchaseDate.value,
        if req.status.Given? then ParseStatus(req.status.value).value else Active,
        if req.description.Given? then Some(req.description.value) else None))
  }

  /**
   * The commented-out future-date validator is not in force: whether a create
   * payload is accepted does not depend on its purchase date.
   */
  lemma FuturePurchaseDateAccepted(req: CreateRequest, today: Date, d: Date)
    requires d > today
    ensures ValidateCreate(req.(purchaseDate := Given(d))).Accepted?
        <==> ValidateCreate(req.(purchaseDate := Given(today))).Accepted?
  {
  }

  /** The update payload as received. */
  datatype UpdateRequest = UpdateRequest(
    name: Input<string>,
    category: Input<string>,
    value: Input<real>,
    purchaseDate: Input<Date>,
    status: Input<string>,
    description: Input<string>)

  /** `AssetUpdate` once validated: a patch, each field unset, null or set. */
  datatype AssetUpdate = AssetUpdate(
    name: Input<string>,
    category: Input<Category>,
    value: Input<real>,
    purchaseDate: Input<Date>,
    status: Input<Status>,
    description: Input<string>)

  /** Every supplied field obeys the constraint it has on create. */
  predicate ValidPatch(p: AssetUpdate) {
    && (p.name.Given? ==> NameOk(p.name.value))
    && (p.value.Given? ==> p.value.value > 0.0)
    && (p.description.Given? ==> |p.description.value| <= DESCRIPTION_MAX)
  }

  predicate UpdateRequestOk(req: UpdateRequest) {
    && (req.name.Given? ==> NameOk(req.name.value))
    && (req.category.Given? ==> req.category.value in CategoryAll())
    && (req.value.Given? ==> req.value.value > 0.0)
    && (req.status.Given? ==> req.status.value in StatusAll())
    && (req.description.Given? ==> |req.description.value| <= DESCRIPTION_MAX)
  }

  function UpdateViolations(req: UpdateRequest): set<Violation> {
    Optional(req.name, NameCheck)
    + Optional(req.category, CategoryCheck)
    + Optional(req.value, ValueCheck)
    + Optional(req.status, StatusCheck)
    + Optional(req.description, DescriptionCheck)
  }

  /**
   * Validation of an update payload: every field may be left out or be null,
   * a supplied value must meet its create constraint, and the patch keeps which
   * fields were set.
   */
  function ValidateUpdate(req: UpdateRequest): (r: Validated<AssetUpdate>)
    ensures r.Accepted? <==> UpdateRequestOk(req)
    ensures r.Accepted? ==> ValidPatch(r.value)
    ensures r.Accepted? ==>
      && r.value.name == req.name
      && r.value.value == req.value
      && r.value.purchaseDate == req.purchaseDate
      && r.value.description == req.description
      && (r.value.category.Omitted? <==> req.category.Omitted?)
      && (r.value.category.Null? <==> req.category.Null?)
      && (r.value.category.Given? ==> CategoryValue(r.value.category.value) == req.category.value)
      && (r.value.status.Omitted? <==> req.status.Omitted?)
      && (r.value.status.Null? <==> req.status.Null?)
      && (r.value.status.Given? ==> StatusValue(r.value.status.value) == req.status.value)
  {
    var errs := UpdateViolations(req);
    if errs != {} then Rejected(errs)
    else
      // With no violations every given category and status string parses, so
      // the `Other` and `Active` fallbacks below are never taken.
      Accepted(AssetUpdate(
        req.name,
        MapInput(req.category, (s: string) => if ParseCategory(s).Some? then ParseCategory(s).value else Other),
        req.value,
        req.purchaseDate,
        MapInput(req.status, (s: string) => if ParseStatus(s).Some? then ParseStatus(s).value else Active),
        req.description))
  }
}
