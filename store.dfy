/** The lab's stores as one object whose handlers update them in place:
    the item collection, the collection-record collection and the user
    collection. Each handler performs the store operations of the source in
    order and is proved to leave the stores as the state functions of
    module Accounting and module Users say. */
module Store {
  import opened LabTypes
  import opened Borrowers
  import opened Accounting
  import opened Users

  class Lab {
    var items: map<ItemId, Item>
    var records: seq<LoanRecord>
    var users: map<UserId, User>

    /** The two stores the accounting handlers work on. */
    function Contents(): Db
      reads this
    {
      Db(items, records)
    }

    ghost predicate Valid()
      reads this
    {
      UniqueEmails(users)
    }

    constructor ()
      ensures Valid()
      ensures items == map[] && records == [] && users == map[]
    {
      items, records, users := map[], [], map[];
    }

    /** Read the item, check its quantity, `$inc` it by `-collectQuantity`,
        then insert the record. */
    method Collect(id: ItemId, req: CollectRequest, now: Time) returns (r: Result<LoanRecord>)
      requires Valid()
      modifies this
      ensures Valid() && users == old(users)
      ensures Outcome(Contents(), r) == Accounting.Collect(old(Contents()), id, req, now)
    {
      if id !in items {
        return Err(ItemNotFound);
      }
      var item := items[id];
      if item.quantity < req.collectQuantity {
        return Err(InsufficientQuantity);
      }
      items := items[id := items[id].(quantity := items[id].quantity - req.collectQuantity)];
      var info := UserInfoFor(req.borrower);
      var rec := LoanRecord(id, item.name, req.collectQuantity, req.returnDate, now, now,
                            Collected, None, info);
      records := records + [rec];
      r := Ok(rec);
    }

    /** Validate, read the item, `$inc` it by `returnQuantity`, then
        `updateOne` the first matching open record. */
    method Return(id: ItemId, req: ReturnRequest, now: Time) returns (r: Result<bool>)
      requires Valid()
      modifies this
      ensures Valid() && users == old(users)
      ensures Outcome(Contents(), r) == Accounting.Return(old(Contents()), id, req, now)
    {
      if !HasBorrowerIdentity(req) {
        return Err(MissingUserInfo);
      }
      if id !in items {
        return Err(ItemNotFound);
      }
      items := items[id := items[id].(quantity := items[id].quantity + req.returnQuantity)];
      var k := FirstOpenLoan(records, KeyOf(id, req));
      if k.None? {
        return Err(NoMatchingRecord);
      }
      records := records[k.value := MarkReturned(records[k.value], now)];
      r := Ok(true);
    }

    /** Insert an item under the fresh id the database mints. */
    method CreateItem(id: ItemId, f: ItemFields, now: Time) returns (r: Result<Item>)
      requires Valid() && id !in items
      modifies this
      ensures Valid() && users == old(users)
      ensures Outcome(Contents(), r) == Accounting.CreateItem(old(Contents()), id, f, now)
    {
      if f.image.None? {
        return Err(MissingImage);
      }
      var item := Item(f.name, f.description, f.purpose, f.website, f.image.value, f.quantity,
                       now, OrElse(f.userEmail, "Unknown"), None, None);
      items := items[id := item];
      r := Ok(item);
    }

    /** Read the item, then `$set` the form's fields over it. */
    method UpdateItem(id: ItemId, f: ItemFields, now: Time) returns (r: Result<Item>)
      requires Valid()
      modifies this
      ensures Valid() && users == old(users)
      ensures Outcome(Contents(), r) == Accounting.UpdateItem(old(Contents()), id, f, now)
    {
      if id !in items {
        return Err(ItemNotFound);
      }
      var item := items[id];
      var updated := item.(name := f.name, description := f.description, quantity := f.quantity,
                           purpose := f.purpose, website := f.website,
                           updatedAt := Some(now), updatedBy := Some(OrElse(f.userEmail, "Unknown")));
      if f.image.Some? {
        updated := updated.(image := f.image.value);
      }
      items := items[id := updated];
      r := Ok(updated);
    }

    /** Read the item, then `deleteOne` it; records are not touched. */
    method DeleteItem(id: ItemId) returns (r: Result<Item>)
      requires Valid()
      modifies this
      ensures Valid() && users == old(users)
      ensures Outcome(Contents(), r) == Accounting.DeleteItem(old(Contents()), id)
    {
      if id !in items {
        return Err(ItemNotFound);
      }
      var item := items[id];
      items := items - {id};
      r := Ok(item);
    }

    /** Look the email up, then insert the user with role "user". */
    method RegisterUser(id: UserId, u: User) returns (insertedId: Option<UserId>)
      requires Valid() && id !in users
      modifies this
      ensures Valid() && items == old(items) && records == old(records)
      ensures Registration(users, insertedId) == Users.Register(old(users), id, u)
    {
      RegisterKeepsInvariants(users, id, u, u.email);
      if EmailTaken(users, u.email) {
        return None;
      }
      users := users[id := u.(role := "user")];
      insertedId := Some(id);
    }

    /** `updateOne` the user's role to "admin"; reports whether one matched. */
    method MakeAdmin(id: UserId) returns (matched: bool)
      requires Valid()
      modifies this
      ensures Valid() && items == old(items) && records == old(records)
      ensures (users, matched) == Users.MakeAdmin(old(users), id)
    {
      if id in users {
        MakeAdminGrants(users, id);
        users := users[id := users[id].(role := "admin")];
        matched := true;
      } else {
        matched := false;
      }
    }
  }

  /** An oscilloscope with five units: lend two, refuse four more, take the
      two back. Only the handlers' contracts are used. */
  method OscilloscopeScenario(b: Borrower, t0: Time, due: Time, t1: Time, t2: Time)
    requires b.userName == Some("Ada") && b.userEmail == Some("ada@lab") && b.id == Some("17")
  {
    var lab := new Lab();
    var id: ItemId := "scope";
    var made := lab.CreateItem(id, ItemFields("Oscilloscope", "", "", "", 5, None, Some("scope.png")), t0);
    assert made.Ok? && lab.items[id].quantity == 5;
    var first := lab.Collect(id, CollectRequest(2, b, due), t0);
    assert first.Ok? && lab.items[id].quantity == 3 && |lab.records| == 1;
    var second := lab.Collect(id, CollectRequest(4, b, due), t1);
    assert second == Err(InsufficientQuantity) && lab.items[id].quantity == 3;
    MatchFieldsAlwaysStored(b, "Ada", "ada@lab", "17");
    var back := lab.Return(id, ReturnRequest(2, Some("Ada"), Some("ada@lab"), Some("17")), t2);
    assert back == Ok(true) && lab.items[id].quantity == 5;
    assert |lab.records| == 1 && lab.records[0].status == Returned && lab.records[0].returnedAt == Some(t2);
  }
}
