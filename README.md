# Equipment lab loan accounting, modelled in Dafny

The lab server keeps a pool of equipment items, each with an available
`quantity`. Borrowers *collect* units of an item, which opens a loan record,
and later *return* them, which closes it. This project models the
accounting logic of the server's HTTP handlers with the database calls
replaced by operations on in-memory stores:

- an **item store**, a map from item id to the item (name, description,
  purpose, website, image name, quantity, creation and update stamps);
- a **loan-record store**, the collection-record documents in insertion
  order. Each record holds the item id, the item's name at collect time,
  `collectQuantity`, `returnDate`, `collectedAt`, `entryAt`, `status`
  (collected or returned), an optional `returnedAt`, and the borrower
  fields the collect kept;
- a **user store**, a map from user id to email, name and role.

Modules, leaves first:

- `LabTypes` (types.dfy) holds the entities and the error outcomes.
- `Sorting` (sorting.dfy) models the store's ordering as a stable sort on
  an integer key.
- `Paging` (paging.dfy) holds the shared pagination arithmetic.
- `Borrowers` (borrowers.dfy) chooses the borrower fields by role.
- `Accounting` (accounting.dfy) gives every state-changing handler as a
  function from the stores before to the stores after, with the handler's
  outcome. It also proves the lemmas about the available-plus-outstanding
  balance.
- `Users` (users.dfy) covers registration and make-admin.
- `Reports` (reports.dfy) covers the read-only handlers: the overdue list,
  the histories, the equipment listing and the dashboard statistics.
- `Store` (store.dfy) has the class `Lab`. It holds the three stores as
  fields, and its methods update them step by step in the handlers'
  order. Each method is proved to end in the state that the matching
  function of `Accounting` or `Users` gives. A client method,
  `OscilloscopeScenario`, walks through a lend, a refused lend and a return
  using only those contracts.

Modelling choices:

- Ids, timestamps and quantities are already-parsed integers and strings.
- A request field that is absent is `None`.
- On a record, a borrower field left out by the role rule is not a key of
  `userInfo`. A field that is kept but was absent from the request maps to
  `None`.
- The handlers for the item's image file, admin activity logging and the
  log output have no counterpart here (see "Left out").

The handlers leave several checks out, and the model keeps them out:

- collect does not check that `collectQuantity >= 1`;
- item creation and item update do not check that the quantity is
  non-negative;
- return adds `returnQuantity` before it looks for the record. It adds it
  even when it then reports "No matching collection record found", and it
  does not compare `returnQuantity` with the loan's `collectQuantity`;
- deleting an item leaves its open loans behind.

Because of the return behaviour, the balance "available + outstanding is
constant" holds for collect but not for return, as long as every store
write succeeds (see "Left out"). `Accounting.ReturnProvisionedDelta`
states how much a return changes it. `Accounting.SecondReturnStillAdds`
shows a second return of the same loan reporting NoMatchingRecord while still
adding the quantity.

## Model

| member | source | states |
|---|---|---|
| `Accounting.Collect` | index.js:299-388 | fails with ItemNotFound or InsufficientQuantity and leaves both stores unchanged exactly when the item is missing or its quantity is below `collectQuantity`. On success only the item's quantity changes, by exactly `-collectQuantity`. One record is appended: status collected, no `returnedAt`, the item's current name, `collectedAt == entryAt == now`, and the role-chosen borrower fields. Non-negative quantities stay non-negative |
| `Accounting.CollectKeepsProvisioned` | index.js:327-378 | whatever its outcome (both store writes succeeding), a collect keeps every item's available quantity plus the summed `collectQuantity` of its open records |
| `Borrowers.UserInfoFor` | index.js:332-365 | role "student" stores every borrower field except `designation`. Role "teacher" stores every field except `section`. Any other role, a missing one included, stores all eight. Each stored field has the request's value |
| `Borrowers.MatchFieldsAlwaysStored` | index.js:332-365 | for every role, the record keeps `userName`, `userEmail` and `Id`, the three fields a return matches on |
| `Accounting.FirstOpenLoan` | index.js:451-458 | returns the index of the first record matching the item id, `userName`, `userEmail`, `Id` and status collected, with no earlier record matching; returns None exactly when no record matches |
| `Accounting.Return` | index.js:428-491 | a missing or empty `userEmail`, `userName` or `Id` gives MissingUserInfo, and a missing item gives ItemNotFound; neither changes anything. Otherwise the item's quantity grows by `returnQuantity` whether or not a record matches. The first matching open record is marked returned with `returnedAt`, giving `Ok(true)`; with no match the records are unchanged and the result is NoMatchingRecord |
| `Accounting.ReturnProvisionedDelta` | index.js:444-465 | a validated return changes the item's available-plus-outstanding total by `returnQuantity` minus the closed record's `collectQuantity` (minus nothing when no record matched). Other items are unaffected, and a rejected return changes nothing |
| `Accounting.ReturnChangesAtMostOne` | index.js:451-465 | a return keeps the number of records. At most one record changes: the first open record of that borrower for that item. Only its `status` (now returned) and `returnedAt` change; `collectQuantity` and all its other fields stay |
| `Accounting.CollectOpensLoanOf` | index.js:333-378 | the record a collect inserts is an open loan matching the borrower's name, email and id, whatever the role |
| `Accounting.CollectThenReturn` | index.js:299-491 | collecting and then returning the same quantity under the same borrower restores the item store exactly and reports success. When the borrower had no earlier open loan of the item, the records end as before plus the new record, marked returned |
| `Accounting.SecondReturnStillAdds` | index.js:444-478 | when the borrower has at most one open loan of the item, a second return reports NoMatchingRecord, yet the quantity has grown by twice `returnQuantity` |
| `Accounting.CreateItem` | index.js:250-280 | a missing upload fails before anything is stored. Otherwise the item is stored under the new id with the given name, description, purpose, website, image name and quantity, unchecked. `createdAt` is now, `createdBy` is `userEmail` or "Unknown", and there is no update stamp. Records are unchanged |
| `Accounting.UpdateItem` | index.js:652-710 | a missing item gives ItemNotFound and no change. Otherwise the quantity is overwritten with the supplied value, and so are name, description, purpose and website. The image changes only when a new one was uploaded. The creation stamps are kept, `updatedAt`/`updatedBy` are set, and records are unchanged |
| `Accounting.UpdateItemProvisioned` | index.js:666-685 | an edit moves the item's available-plus-outstanding total by the new quantity minus the old: edits bypass the loan accounting |
| `Accounting.DeleteItem` | index.js:713-745 | a missing item gives ItemNotFound and no change. Otherwise only that item is removed and the loan records are left untouched |
| `Accounting.DeleteItemOrphansLoans` | index.js:729-729 | after a delete, the item's open loans are still outstanding against an id with no item |
| `Store.Lab.Collect` | index.js:299-388 | the in-place collect ends in the stores `Accounting.Collect` gives and returns its result; users unchanged |
| `Store.Lab.Return` | index.js:428-491 | the in-place return ends in the stores `Accounting.Return` gives and returns its result; users unchanged |
| `Store.Lab.CreateItem` | index.js:250-280 | the in-place insert ends as `Accounting.CreateItem` says |
| `Store.Lab.UpdateItem` | index.js:652-710 | the in-place `$set` ends as `Accounting.UpdateItem` says |
| `Store.Lab.DeleteItem` | index.js:713-745 | the in-place `deleteOne` ends as `Accounting.DeleteItem` says |
| `Store.Lab.RegisterUser` | index.js:103-115 | ends as `Users.Register` says and keeps user emails unique |
| `Store.Lab.MakeAdmin` | index.js:135-146 | ends as `Users.MakeAdmin` says and keeps user emails unique |
| `Store.Lab.constructor` | index.js:31-33 | the three stores start empty |
| `Paging.OrDefault` | index.js:193-194 | `parseInt(x)`-or-default: a missing or unparsable value and 0 give the default; any other value, negative ones included, is kept |
| `Paging.CeilDiv` | index.js:216-216 | `Math.ceil(total / limit)`: for a positive limit, the smallest `q` with `q * limit >= total`; for a negative limit, the ceiling of the negative quotient |
| `Paging.Window` | index.js:209-210 | `.skip(s).limit(n)`: at most `n` entries, entry `i` being entry `s + i` of the ordered result; fewer only when the result runs out |
| `Paging.Paginate` | index.js:193-216 | page defaults to 1 and limit to the handler's default (9 for equipment, 10 for the histories). `skip = (page - 1) * limit`, and a negative skip is the only failure. Otherwise the page is the window at `skip` of abs(limit) entries, `totalItems` is the result size and `totalPages = ceil(total / limit)` |
| `Paging.EveryEntryOnSomePage` | index.js:193-216 | with a positive limit, entry `k` of the result appears as entry `k % limit` of page `k / limit + 1`, and that page is at most `totalPages` |
| `Paging.PageKeepsOrder` | index.js:207-211 | a page of an ordered result is ordered |
| `Reports.OverdueRecords` | index.js:615-626 | the overdue query: each record with status collected and `returnDate < now` appears as often as in the store, no other record appears, and the list is ordered by `returnDate` ascending |
| `Reports.OverdueExactly` | index.js:615-618 | a record is on the overdue list if and only if it is in the store, still collected and past its return date |
| `Reports.EnrichDue` | index.js:628-636 | an overdue entry takes the item's current name and image when the item exists, and otherwise falls back to the record's own name and has no image; the item id is the record's |
| `Reports.DuePage` | index.js:609-648 | the overdue response is one page of the overdue list with each entry enriched; `totalItems` counts the whole overdue list |
| `Reports.DuePageEntries` | index.js:609-648 | every entry on an overdue page comes from an overdue record of the store. The page is ordered by `returnDate` and holds at most `limit` entries. For a deleted item the entry is the record itself |
| `Reports.ReturnLeavesOverdueList` | index.js:451-465 | a return that closes a record removes one copy of that record from the overdue list, if it was overdue; the closed record is not overdue |
| `Reports.HistoryPage` | index.js:494-539 | the history response: the records with the requested status (all records when it is empty), newest `entryAt` first, one page, each with its item's image or none; `currentPage`, `totalPages` and `totalItems` are those of the pagination, and it fails exactly when the pagination does |
| `Reports.HistoryEntries` | index.js:494-539 | every entry on a history page is a store record with the requested status, and the page is newest first |
| `Reports.UserEntry` | index.js:556-563 | a user-history entry carries the record, its item's image and its item's description, and neither when the item has been deleted |
| `Reports.UserHistoryPage` | index.js:542-575 | the user-history response: that email's records, newest first, one page, each enriched as `Reports.UserEntry` says; `currentPage`, `totalPages` and `totalItems` are those of the pagination, and it fails exactly when the pagination does |
| `Reports.UserHistoryEntries` | index.js:542-575 | every entry on a user-history page is one of that user's records, and the page is newest first |
| `Reports.EquipmentPage` | index.js:191-222 | the equipment listing: page defaults to 1 and limit to 9; it fails with NegativeSkip exactly when `(page - 1) * limit < 0`. Otherwise the entries are the window at `(page - 1) * limit` of abs(limit) items of the newest-`createdAt`-first order, so at most `limit` items, ordered and all from the store; `currentPage` is the page, `totalPages = ceil(total / limit)` and `totalItems` counts all items |
| `Reports.StatusCountsAddUp` | index.js:581-582 | collected plus returned records make up all records |
| `Reports.Names` | index.js:584-585 | the item names of the records, each once, and exactly those the records carry |
| `Reports.Groups` | index.js:584-585 | one group per item name occurring in the records, with the number of records of that name, and no name twice |
| `Reports.RankedGroups` | index.js:586-586 | the groups reordered by count, highest first, as a permutation |
| `Reports.RankedCounts` | index.js:584-586 | each ranked group carries the number of records with its item name, at least one |
| `Reports.RankedDistinct` | index.js:584-586 | no two ranked groups name the same item |
| `Reports.MostBorrowed` | index.js:584-588 | `mostBorrowed` has at most 5 entries with non-increasing counts |
| `Reports.MostBorrowedCounts` | index.js:584-588 | each `mostBorrowed` entry names a different item and carries the number of records with that name, at least one |
| `Reports.MostBorrowedIsTop` | index.js:584-588 | an item name that occurs in the records but not in `mostBorrowed` only happens when the list holds 5 entries, and then no listed entry has fewer records than that name |
| `Reports.RecentActivities` | index.js:590-593 | `recentActivities` holds `min(5, #records)` records of the store, newest `entryAt` first |
| `Reports.PrefixIsNewest` | index.js:590-593 | in a newest-first list, an entry beyond the first `n` is no newer than any of the first `n` |
| `Reports.RecentAreNewest` | index.js:590-593 | no record left out of `recentActivities` is newer than a kept one |
| `Reports.DashboardStats` | index.js:578-606 | `activeLoans == totalCollected`, the number of collected records. `totalReturned` is the number of returned records, and the two add up to all records. `totalRecords` is the number of items |
| `Users.Register` | index.js:103-115 | a registration whose email is already taken inserts nothing and reports no id. Otherwise the user is inserted under the new id with role "user", whatever role the body sent |
| `Users.MakeAdmin` | index.js:135-146 | a matching user gets role "admin" and nothing else changes; with no match nothing changes and no match is reported |
| `Users.IsAdmin` | index.js:117-127 | an admin answer means some user has that email; while emails are unique, the answer is exactly whether the user found by that email has role "admin", and no user found gives false |
| `Users.RegisterKeepsInvariants` | index.js:103-115 | registration keeps user emails unique and never changes who is an admin |
| `Users.MakeAdminGrants` | index.js:135-146 | make-admin keeps emails unique and makes the target user an admin |

## Left out

- HTTP plumbing is not modelled: routing, status codes, JSON shaping, CORS and the server bootstrap. Results are `Ok`/`Err` values.
- Authentication is not modelled: token signing and verification, and the admin check middleware. They run in a foreign library.
- MongoDB driver calls are replaced by map and sequence operations. `new ObjectId(id)` throwing on a malformed id is not modelled, because ids are taken as already parsed.
- Number parsing is not modelled. `parseInt` returning NaN for a missing `quantity` or `returnQuantity`, string-versus-number coercion in `item.quantity < collectQuantity`, and fractional quantities fall in this group. Quantities are integers.
- Upload and image-file handling is not modelled: multer storage and the existence checks and deletion of image files. This is file I/O; the model keeps only the image name.
- Admin activity logging and console output are not modelled. They are append-only I/O whose errors are swallowed and which never changes the accounting.
- Free-text search filters are not modelled: the `$regex` case-insensitive search of the equipment, suggestion and history listings, and the suggestion endpoint. The database evaluates user-supplied regular expressions. `Reports.HistoryPage` and `Reports.EquipmentPage` model these listings with an empty search.
- Concurrency is not modelled: the check-then-act race between two collects, and the `Promise.all` enrichment. The model is sequential and claims no atomicity.
- The commented-out earlier return handler is dead code.
- The single-item read, the user listing, user deletion and the admin activity-log listings are not modelled. They are plain lookups, or operations behind the admin check that hold no accounting.
- `Users.IsAdmin` reads "some user with that email is an admin", while the handler reads the first user found. Its contract shows the two agree under the unique-email invariant that registration keeps; with duplicate emails, which the model's registration never creates, they could differ.
- Store write failures are not modelled: every `$inc`, `insertOne` and `updateOne` succeeds. A collect whose `insertOne` throws after the `$inc` leaves the quantity lowered with no record, and a return whose `updateOne` throws after the `$inc` leaves it raised with the record open; the handlers answer 500 and undo nothing. The balance lemmas (`Accounting.CollectKeepsProvisioned`, `Accounting.ReturnProvisionedDelta`) hold only when every write succeeds.
- `Accounting.FirstOpenLoan` fixes which open record `updateOne` closes when several match: the first in insertion order. The database takes the first in its natural or index order, which need not be insertion order.
- A form field missing from an update request is not modelled as such: `$set` then stores null in that field, while `ItemFields` holds plain strings and a quantity. The model takes every text field and the quantity as sent.
- Ties in the store's sorts are not modelled as unspecified. The model fixes one order: a stable sort over the groups in order of first appearance, or over records in insertion order. The lemmas use only "ordered permutation", which every tie order satisfies.
- `Reports.EquipmentPage` takes the item documents as a sequence in store order, because the item store is a map and has no order of its own.
