/** The state changes of the lab's handlers, as functions from the contents
    of the two stores before a request to their contents after it, with the
    handler's outcome. The class in module Store performs the same changes
    step by step and proves that it ends in the state these functions give.

    The handlers run their reads and writes one after another with no
    transaction; the model is sequential and claims nothing about two
    requests that interleave. */
module Accounting {
  import opened LabTypes
  import opened Borrowers

  /** The item store, keyed by id, and the loan-record store in insertion order. */
  datatype Db = Db(items: map<ItemId, Item>, records: seq<LoanRecord>)

  /** The store after a request, and what the request reported. */
  datatype Outcome<T> = Outcome(db: Db, result: Result<T>)

  /** The body of a collect request (`collectQuantity`, the borrower fields, `returnDate`). */
  datatype CollectRequest = CollectRequest(collectQuantity: int, borrower: Borrower, returnDate: Time)

  /** The body of a return request (`returnQuantity`, `userName`, `userEmail`, `Id`). */
  datatype ReturnRequest = ReturnRequest(
    returnQuantity: int, userName: Option<string>, userEmail: Option<string>, id: Option<string>)

  /** The editable fields of an item sent by the create and update forms;
      `image` is the name of the uploaded file, if one was uploaded. */
  datatype ItemFields = ItemFields(
    name: string, description: string, purpose: string, website: string,
    quantity: int, userEmail: Option<string>, image: Option<string>)

  /** What a return looks a loan up by. */
  datatype LoanKey = LoanKey(itemId: ItemId, userName: string, userEmail: string, regId: string)

  predicate NonNegative(items: map<ItemId, Item>)
  {
    forall j :: j in items ==> items[j].quantity >= 0
  }

  // ---------------------------------------------------------------- collect

  /** The record a successful collect inserts. */
  function NewLoan(id: ItemId, item: Item, req: CollectRequest, now: Time): (r: LoanRecord)
  {
    LoanRecord(id, item.name, req.collectQuantity, req.returnDate, now, now,
               Collected, None, UserInfoFor(req.borrower))
  }

  /** `POST /api/equipment/:id/collect`: check the item's quantity, take
      `collectQuantity` off it and insert one loan record. The quantity is
      not required to be positive. */
  function Collect(db: Db, id: ItemId, req: CollectRequest, now: Time): (o: Outcome<LoanRecord>)
    ensures o.result.Err? <==> id !in db.items || db.items[id].quantity < req.collectQuantity
    ensures id !in db.items ==> o.result == Err(ItemNotFound)
    ensures id in db.items && o.result.Err? ==> o.result == Err(InsufficientQuantity)
    ensures o.result.Err? ==> o.db == db
    ensures o.result.Ok? ==>
      var item := db.items[id];
      var rec := o.result.value;
      && o.db.items == db.items[id := item.(quantity := item.quantity - req.collectQuantity)]
      && o.db.records == db.records + [rec]
      && rec.itemId == id && rec.itemName == item.name
      && rec.collectQuantity == req.collectQuantity && rec.returnDate == req.returnDate
      && rec.status == Collected && rec.returnedAt == None
      && rec.collectedAt == now && rec.entryAt == now
      && rec.userInfo == UserInfoFor(req.borrower)
    ensures NonNegative(db.items) ==> NonNegative(o.db.items)
  {
    if id !in db.items then Outcome(db, Err(ItemNotFound))
    else
      var item := db.items[id];
      if item.quantity < req.collectQuantity then Outcome(db, Err(InsufficientQuantity))
      else
        var rec := NewLoan(id, item, req, now);
        Outcome(Db(db.items[id := item.(quantity := item.quantity - req.collectQuantity)],
                   db.records + [rec]),
                Ok(rec))
  }

  // ----------------------------------------------------------------- return

  /** The filter of the return handler's `updateOne`. */
  predicate IsOpenLoanOf(r: LoanRecord, k: LoanKey)
  {
    && r.itemId == k.itemId
    && HasField(r.userInfo, UserName, k.userName)
    && HasField(r.userInfo, UserEmail, k.userEmail)
    && HasField(r.userInfo, Id, k.regId)
    && r.status == Collected
  }

  /** The index of the first record the filter matches, which is the one
      `updateOne` changes. */
  function FirstOpenLoan(records: seq<LoanRecord>, k: LoanKey): (i: Option<nat>)
    ensures i.Some? ==> i.value < |records| && IsOpenLoanOf(records[i.value], k)
    ensures i.Some? ==> forall j :: 0 <= j < i.value ==> !IsOpenLoanOf(records[j], k)
    ensures i.None? ==> forall j :: 0 <= j < |records| ==> !IsOpenLoanOf(records[j], k)
  {
    if records == [] then None
    else if IsOpenLoanOf(records[0], k) then Some(0)
    else
      match FirstOpenLoan(records[1..], k)
      case None => None
      case Some(j) => Some(j + 1)
  }

  /** `$set: {status: 'returned', returnedAt: now}`. */
  function MarkReturned(r: LoanRecord, now: Time): (m: LoanRecord)
  {
    r.(status := Returned, returnedAt := Some(now))
  }

  /** The return handler's validation: `userEmail`, `userName` and `Id` are all truthy. */
  predicate HasBorrowerIdentity(req: ReturnRequest)
  {
    Truthy(req.userEmail) && Truthy(req.userName) && Truthy(req.id)
  }

  function KeyOf(id: ItemId, req: ReturnRequest): (k: LoanKey)
    requires HasBorrowerIdentity(req)
  {
    LoanKey(id, req.userName.value, req.userEmail.value, req.id.value)
  }

  /** `POST /api/equipment/:id/return`: validate the borrower fields, add
      `returnQuantity` to the item, then close the first matching open
      record. The quantity is added before the record is looked up, so it
      is added even when the handler then reports that no record matches;
      nothing relates `returnQuantity` to the loan's `collectQuantity`. The
      success value is the handler's `updated` flag. */
  function Return(db: Db, id: ItemId, req: ReturnRequest, now: Time): (o: Outcome<bool>)
    ensures !HasBorrowerIdentity(req) ==> o == Outcome(db, Err(MissingUserInfo))
    ensures HasBorrowerIdentity(req) && id !in db.items ==> o == Outcome(db, Err(ItemNotFound))
    ensures HasBorrowerIdentity(req) && id in db.items ==>
      var item := db.items[id];
      var k := FirstOpenLoan(db.records, KeyOf(id, req));
      && o.db.items == db.items[id := item.(quantity := item.quantity + req.returnQuantity)]
      && (o.result.Ok? <==> k.Some?)
      && (k.None? ==> o.result == Err(NoMatchingRecord) && o.db.records == db.records)
      && (k.Some? ==> o.result == Ok(true)
                      && o.db.records == db.records[k.value := MarkReturned(db.records[k.value], now)])
  {
    if !HasBorrowerIdentity(req) then Outcome(db, Err(MissingUserInfo))
    else if id !in db.items then Outcome(db, Err(ItemNotFound))
    else
      var item := db.items[id];
      var items := db.items[id := item.(quantity := item.quantity + req.returnQuantity)];
      match FirstOpenLoan(db.records, KeyOf(id, req))
      case None => Outcome(Db(items, db.records), Err(NoMatchingRecord))
      case Some(k) => Outcome(Db(items, db.records[k := MarkReturned(db.records[k], now)]), Ok(true))
  }

  // ------------------------------------------------------ item maintenance

  /** `POST /api/equipment`: insert a new item under the id the database
      mints. Reading the upload's file name throws when no image was sent,
      before anything is inserted. The quantity is not checked. */
  function CreateItem(db: Db, id: ItemId, f: ItemFields, now: Time): (o: Outcome<Item>)
    requires id !in db.items
    ensures f.image.None? ==> o == Outcome(db, Err(MissingImage))
    ensures f.image.Some? ==>
      && o.result.Ok?
      && o.db == Db(db.items[id := o.result.value], db.records)
      && o.result.value.quantity == f.quantity
      && o.result.value.name == f.name
      && o.result.value.description == f.description
      && o.result.value.purpose == f.purpose
      && o.result.value.website == f.website
      && o.result.value.image == f.image.value
      && o.result.value.createdAt == now
      && o.result.value.createdBy == OrElse(f.userEmail, "Unknown")
      && o.result.value.updatedAt == None
      && o.result.value.updatedBy == None
  {
    match f.image
    case None => Outcome(db, Err(MissingImage))
    case Some(image) =>
      var item := Item(f.name, f.description, f.purpose, f.website, image, f.quantity,
                       now, OrElse(f.userEmail, "Unknown"), None, None);
      Outcome(Db(db.items[id := item], db.records), Ok(item))
  }

  /** `PUT /api/equipment/:id`: overwrite the descriptive fields and the
      quantity with the form's values; the image only when a new one was
      uploaded. The quantity is set, not adjusted, and is not checked. The
      records keep the item name they were collected under. */
  function UpdateItem(db: Db, id: ItemId, f: ItemFields, now: Time): (o: Outcome<Item>)
    ensures id !in db.items ==> o == Outcome(db, Err(ItemNotFound))
    ensures id in db.items ==>
      var old_ := db.items[id];
      && o.result.Ok?
      && o.db == Db(db.items[id := o.result.value], db.records)
      && o.result.value.quantity == f.quantity
      && o.result.value.name == f.name && o.result.value.description == f.description
      && o.result.value.purpose == f.purpose && o.result.value.website == f.website
      && o.result.value.image == (if f.image.Some? then f.image.value else old_.image)
      && o.result.value.createdAt == old_.createdAt && o.result.value.createdBy == old_.createdBy
      && o.result.value.updatedAt == Some(now)
      && o.result.value.updatedBy == Some(OrElse(f.userEmail, "Unknown"))
  {
    if id !in db.items then Outcome(db, Err(ItemNotFound))
    else
      var item := db.items[id];
      var updated := item.(
        name := f.name, description := f.description, quantity := f.quantity,
        purpose := f.purpose, website := f.website,
        image := if f.image.Some? then f.image.value else item.image,
        updatedAt := Some(now), updatedBy := Some(OrElse(f.userEmail, "Unknown")));
      Outcome(Db(db.items[id := updated], db.records), Ok(updated))
  }

  /** `DELETE /api/equipment/:id`: remove the item; its loan records stay,
      open ones included. The success value is the removed item. */
  function DeleteItem(db: Db, id: ItemId): (o: Outcome<Item>)
    ensures id !in db.items ==> o == Outcome(db, Err(ItemNotFound))
    ensures id in db.items ==>
      && o.result == Ok(db.items[id])
      && o.db.items.Keys == db.items.Keys - {id}
      && (forall j :: j in o.db.items ==> o.db.items[j] == db.items[j])
      && o.db.records == db.records
  {
    if id !in db.items then Outcome(db, Err(ItemNotFound))
    else Outcome(Db(db.items - {id}, db.records), Ok(db.items[id]))
  }

  // ---------------------------------------------------- accounting balance

  /** What a record contributes to item `id`'s outstanding quantity. */
  function Contribution(r: LoanRecord, id: ItemId): (n: int)
  {
    if r.itemId == id && r.status == Collected then r.collectQuantity else 0
  }

  /** The summed `collectQuantity` of the open records of item `id`. */
  function Outstanding(records: seq<LoanRecord>, id: ItemId): (n: int)
  {
    if records == [] then 0
    else Outstanding(records[..|records| - 1], id) + Contribution(records[|records| - 1], id)
  }

  /** The item's available quantity, 0 once the item is gone. */
  function Available(items: map<ItemId, Item>, id: ItemId): (n: int)
  {
    if id in items then items[id].quantity else 0
  }

  /** Available plus outstanding: what the lab has provisioned of item `id`. */
  function Provisioned(db: Db, id: ItemId): (n: int)
  {
    Available(db.items, id) + Outstanding(db.records, id)
  }

  lemma {:induction false} OutstandingAppend(records: seq<LoanRecord>, r: LoanRecord, id: ItemId)
    ensures Outstanding(records + [r], id) == Outstanding(records, id) + Contribution(r, id)
  {
    assert (records + [r])[..|records|] == records;
  }

  /** Replacing one record changes the sum by the difference of the two contributions. */
  lemma {:induction false} OutstandingUpdate(records: seq<LoanRecord>, k: nat, r: LoanRecord, id: ItemId)
    requires k < |records|
    ensures Outstanding(records[k := r], id)
         == Outstanding(records, id) - Contribution(records[k], id) + Contribution(r, id)
  {
    var n := |records|;
    var updated := records[k := r];
    if k == n - 1 {
      assert updated[..n - 1] == records[..n - 1];
    } else {
      assert updated[..n - 1] == records[..n - 1][k := r];
      OutstandingUpdate(records[..n - 1], k, r, id);
    }
  }

  /** A collect, whatever its outcome, keeps every item's provisioned
      quantity: what leaves the shelf is exactly what the new record holds. */
  lemma {:induction false} CollectKeepsProvisioned(db: Db, id: ItemId, req: CollectRequest, now: Time, j: ItemId)
    ensures Provisioned(Collect(db, id, req, now).db, j) == Provisioned(db, j)
  {
    var o := Collect(db, id, req, now);
    if o.result.Ok? {
      OutstandingAppend(db.records, o.result.value, j);
    }
  }

  /** A return that passes validation changes item `id`'s provisioned
      quantity by `returnQuantity` less the `collectQuantity` of the record
      it closes (nothing, if none matched); no other item's changes. So the
      balance is kept exactly when the returned quantity equals what the
      closed record lent, and a return that matches no record inflates it. */
  lemma {:induction false} ReturnProvisionedDelta(db: Db, id: ItemId, req: ReturnRequest, now: Time, j: ItemId)
    ensures
      var o := Return(db, id, req, now);
      var lent := if o.result.Ok? then db.records[FirstOpenLoan(db.records, KeyOf(id, req)).value].collectQuantity else 0;
      && (HasBorrowerIdentity(req) && id in db.items && j == id ==>
            Provisioned(o.db, j) == Provisioned(db, j) + req.returnQuantity - lent)
      && (!HasBorrowerIdentity(req) || id !in db.items || j != id ==>
            Provisioned(o.db, j) == Provisioned(db, j))
  {
    var o := Return(db, id, req, now);
    if HasBorrowerIdentity(req) && id in db.items {
      var k := FirstOpenLoan(db.records, KeyOf(id, req));
      if k.Some? {
        var i := k.value;
        OutstandingUpdate(db.records, i, MarkReturned(db.records[i], now), j);
        assert Contribution(MarkReturned(db.records[i], now), j) == 0;
        assert Contribution(db.records[i], j) == if j == id then db.records[i].collectQuantity else 0;
      }
    }
  }

  /** A return changes at most one record: the first open record of the
      borrower for that item. Of that record only `status` (now returned)
      and `returnedAt` change; its quantity, dates and borrower fields stay. */
  lemma {:induction false} ReturnChangesAtMostOne(db: Db, id: ItemId, req: ReturnRequest, now: Time, i: nat)
    requires i < |db.records|
    ensures
      var after := Return(db, id, req, now).db.records;
      && |after| == |db.records|
      && (after[i] != db.records[i] ==>
            && HasBorrowerIdentity(req)
            && IsOpenLoanOf(db.records[i], KeyOf(id, req))
            && (forall j :: 0 <= j < i ==> !IsOpenLoanOf(db.records[j], KeyOf(id, req)))
            && (forall j :: 0 <= j < |after| && j != i ==> after[j] == db.records[j])
            && after[i].status == Returned && after[i].returnedAt == Some(now)
            && after[i] == db.records[i].(status := Returned, returnedAt := Some(now)))
  {
    var o := Return(db, id, req, now);
    if o.db.records[i] != db.records[i] {
      var k := FirstOpenLoan(db.records, KeyOf(id, req));
      assert k.Some? && k.value == i;
    }
  }

  /** The record a collect opens is an open loan under the borrower's
      name, email and id, whatever the role. */
  lemma {:induction false} CollectOpensLoanOf(db: Db, id: ItemId, c: CollectRequest, t0: Time, r: ReturnRequest)
    requires id in db.items && db.items[id].quantity >= c.collectQuantity
    requires HasBorrowerIdentity(r)
    requires c.borrower.userName == r.userName && c.borrower.userEmail == r.userEmail && c.borrower.id == r.id
    ensures Collect(db, id, c, t0).result.Ok?
    ensures IsOpenLoanOf(Collect(db, id, c, t0).result.value, KeyOf(id, r))
  {
    var key := KeyOf(id, r);
    MatchFieldsAlwaysStored(c.borrower, key.userName, key.userEmail, key.regId);
  }

  /** Collecting and then returning the same quantity under the same
      borrower restores the item exactly. The collect's new record is the
      one closed unless the borrower already had an open loan of the item,
      in which case the older loan is closed instead. */
  lemma {:induction false} CollectThenReturn(db: Db, id: ItemId, c: CollectRequest, t0: Time, r: ReturnRequest, t1: Time)
    requires id in db.items && db.items[id].quantity >= c.collectQuantity
    requires HasBorrowerIdentity(r) && r.returnQuantity == c.collectQuantity
    requires c.borrower.userName == r.userName && c.borrower.userEmail == r.userEmail && c.borrower.id == r.id
    ensures
      var collected := Collect(db, id, c, t0);
      var returned := Return(collected.db, id, r, t1);
      && collected.result.Ok?
      && returned.result == Ok(true)
      && returned.db.items == db.items
      && ((forall j :: 0 <= j < |db.records| ==> !IsOpenLoanOf(db.records[j], KeyOf(id, r))) ==>
            returned.db.records == db.records + [MarkReturned(collected.result.value, t1)])
  {
    CollectOpensLoanOf(db, id, c, t0, r);
    var collected := Collect(db, id, c, t0);
    var key := KeyOf(id, r);
    var item := db.items[id];
    var mid := collected.db;
    var rec := collected.result.value;
    assert mid.records[|db.records|] == rec;
    var k := FirstOpenLoan(mid.records, key);
    assert k.Some?;
    var returned := Return(mid, id, r, t1);
    assert returned.db.items == mid.items[id := item];
    if forall j :: 0 <= j < |db.records| ==> !IsOpenLoanOf(db.records[j], key) {
      assert k.value == |db.records|;
      assert mid.records[k.value := MarkReturned(rec, t1)] == db.records + [MarkReturned(rec, t1)];
    }
  }

  predicate AtMostOneOpenLoan(records: seq<LoanRecord>, k: LoanKey)
  {
    forall i, j :: 0 <= i < |records| && 0 <= j < |records| && IsOpenLoanOf(records[i], k) && IsOpenLoanOf(records[j], k) ==> i == j
  }

  /** Returning twice when the borrower has at most one open loan of the
      item: the second return reports NoMatchingRecord, yet both returns
      added `returnQuantity` to the item. */
  lemma {:induction false} SecondReturnStillAdds(db: Db, id: ItemId, req: ReturnRequest, t1: Time, t2: Time)
    requires HasBorrowerIdentity(req) && id in db.items
    requires AtMostOneOpenLoan(db.records, KeyOf(id, req))
    ensures
      var first := Return(db, id, req, t1);
      var second := Return(first.db, id, req, t2);
      && second.result == Err(NoMatchingRecord)
      && id in second.db.items
      && second.db.items[id].quantity == db.items[id].quantity + 2 * req.returnQuantity
  {
    var key := KeyOf(id, req);
    var first := Return(db, id, req, t1);
    var k := FirstOpenLoan(db.records, key);
    if k.Some? {
      var after := first.db.records;
      forall j | 0 <= j < |after| ensures !IsOpenLoanOf(after[j], key) {
        if j != k.value {
          assert after[j] == db.records[j];
        }
      }
    }
    assert FirstOpenLoan(first.db.records, key).None?;
  }

  /** An item edit moves the item's provisioned quantity by the difference
      between the new and the old quantity: the edit bypasses the
      accounting entirely. */
  lemma {:induction false} UpdateItemProvisioned(db: Db, id: ItemId, f: ItemFields, now: Time)
    requires id in db.items
    ensures Provisioned(UpdateItem(db, id, f, now).db, id)
         == Provisioned(db, id) - db.items[id].quantity + f.quantity
  {
  }

  /** Deleting an item leaves its open loans outstanding against an id that
      no longer has an item. */
  lemma {:induction false} DeleteItemOrphansLoans(db: Db, id: ItemId)
    requires id in db.items
    ensures
      var after := DeleteItem(db, id).db;
      && id !in after.items
      && Outstanding(after.records, id) == Outstanding(db.records, id)
      && Provisioned(after, id) == Outstanding(db.records, id)
  {
  }
}
