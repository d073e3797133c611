/** Entities of the equipment lab: items, loan records, borrowers and the
    error outcomes of the handlers. Timestamps and ids are already parsed. */
module LabTypes {

  datatype Option<+T> = None | Some(value: T)

  /** A handler either succeeds with a value or reports one of the errors
      below (the HTTP status and message are not modelled). */
  datatype Result<+T> = Ok(value: T) | Err(error: Error)

  datatype Error =
    | ItemNotFound          // "Item not found" (404)
    | InsufficientQuantity  // "Insufficient quantity available" (400)
    | MissingUserInfo       // "Missing required user information" (400)
    | NoMatchingRecord      // "No matching collection record found" (404)
    | MissingImage          // reading `req.file.filename` without an upload throws (500)
    | NegativeSkip          // the database refuses a negative skip (500)

  /** The hexadecimal id of an item, as it appears in the URL. */
  type ItemId = string

  /** Milliseconds since the epoch. */
  type Time = int

  datatype Status = Collected | Returned

  /** The string the store keeps in a record's `status` field. */
  function StatusName(s: Status): (name: string)
    ensures name == "collected" <==> s == Collected
    ensures name == "returned" <==> s == Returned
  {
    match s
    case Collected => "collected"
    case Returned => "returned"
  }

  /** JavaScript truthiness of an optional string field: present and non-empty. */
  predicate Truthy(o: Option<string>)
  {
    o.Some? && o.value != ""
  }

  /** `s || fallback` on an optional string. */
  function OrElse(o: Option<string>, fallback: string): (r: string)
    ensures Truthy(o) ==> r == o.value
    ensures !Truthy(o) ==> r == fallback
  {
    if Truthy(o) then o.value else fallback
  }

  /** The eight borrower fields a loan record may carry. */
  datatype BorrowerField =
    | UserName | UserEmail | UserPhone | Department | Id | Section | Designation | Role

  const AllFields: set<BorrowerField> :=
    {UserName, UserEmail, UserPhone, Department, Id, Section, Designation, Role}

  /** The borrower fields stored on a record: a field that is not a key was
      omitted; a key mapped to None holds an undefined value. */
  type UserInfo = map<BorrowerField, Option<string>>

  /** True when the record's field `f` holds exactly the string `v`,
      as an equality filter of the store sees it. */
  predicate HasField(info: UserInfo, f: BorrowerField, v: string)
  {
    f in info && info[f] == Some(v)
  }

  /** The borrower part of a collect request body; None when the body lacks it. */
  datatype Borrower = Borrower(
    userName: Option<string>,
    userEmail: Option<string>,
    userPhone: Option<string>,
    department: Option<string>,
    id: Option<string>,
    section: Option<string>,
    designation: Option<string>,
    role: Option<string>)

  datatype Item = Item(
    name: string,
    description: string,
    purpose: string,
    website: string,
    image: string,
    quantity: int,
    createdAt: Time,
    createdBy: string,
    updatedAt: Option<Time>,
    updatedBy: Option<string>)

  datatype LoanRecord = LoanRecord(
    itemId: ItemId,
    itemName: string,
    collectQuantity: int,
    returnDate: Time,
    collectedAt: Time,
    entryAt: Time,
    status: Status,
    returnedAt: Option<Time>,
    userInfo: UserInfo)
}
