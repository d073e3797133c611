/** The read-only handlers over the two stores: the overdue list, the
    loan histories, the equipment listing and the dashboard statistics.
    Each one filters, orders, pages and then enriches records with the
    current item, falling back to what the record itself holds. */
module Reports {
  import opened LabTypes
  import opened Sorting
  import opened Paging
  import opened Accounting

  /** The records `p` accepts, in their original order (a `find(query)`). */
  function Filter<T(!new)>(s: seq<T>, p: T -> bool): (r: seq<T>)
    ensures |r| <= |s|
    ensures forall x :: multiset(r)[x] == if p(x) then multiset(s)[x] else 0
  {
    if s == [] then []
    else
      assert s == [s[0]] + s[1..];
      (if p(s[0]) then [s[0]] else []) + Filter(s[1..], p)
  }

  lemma FilterMembers<T(!new)>(s: seq<T>, p: T -> bool, x: T)
    ensures x in Filter(s, p) <==> x in s && p(x)
  {
    assert x in Filter(s, p) <==> multiset(Filter(s, p))[x] > 0;
    assert x in s <==> multiset(s)[x] > 0;
  }

  // --------------------------------------------------------------- overdue

  /** `{status: 'collected', returnDate: {$lt: now}}`. */
  predicate IsOverdue(r: LoanRecord, now: Time)
  {
    r.status == Collected && r.returnDate < now
  }

  /** The overdue records ordered by `returnDate`, most overdue first. */
  function OverdueRecords(records: seq<LoanRecord>, now: Time): (r: seq<LoanRecord>)
    ensures forall x :: multiset(r)[x] == if IsOverdue(x, now) then multiset(records)[x] else 0
    ensures forall i, j :: 0 <= i < j < |r| ==> r[i].returnDate <= r[j].returnDate
  {
    var due := Filter(records, (x: LoanRecord) => IsOverdue(x, now));
    var sorted := SortBy(due, (x: LoanRecord) => x.returnDate);
    assert forall x :: multiset(sorted)[x] == multiset(due)[x];
    sorted
  }

  /** A record is on the overdue list exactly when it is still collected
      and its return date has passed. */
  lemma {:induction false} OverdueExactly(records: seq<LoanRecord>, now: Time, x: LoanRecord)
    ensures x in OverdueRecords(records, now) <==> x in records && IsOverdue(x, now)
  {
    var r := OverdueRecords(records, now);
    assert x in r <==> multiset(r)[x] > 0;
    assert x in records <==> multiset(records)[x] > 0;
  }

  /** An overdue record joined with the current item: the item's name,
      id and image when the item still exists, otherwise the record's own
      name and id and no image. */
  datatype DueEntry = DueEntry(record: LoanRecord, itemImage: Option<string>)

  function EnrichDue(r: LoanRecord, items: map<ItemId, Item>): (e: DueEntry)
    ensures e.record.itemId == r.itemId
    ensures e.record == r.(itemName := e.record.itemName)
    ensures r.itemId in items ==> e.record.itemName == items[r.itemId].name && e.itemImage == Some(items[r.itemId].image)
    ensures r.itemId !in items ==> e.record.itemName == r.itemName && e.itemImage == None
  {
    if r.itemId in items then DueEntry(r.(itemName := items[r.itemId].name), Some(items[r.itemId].image))
    else DueEntry(r, None)
  }

  /** `GET /api/history/due`: one page of the overdue list, enriched. */
  function DuePage(records: seq<LoanRecord>, items: map<ItemId, Item>, now: Time,
                   pageRaw: Option<int>, limitRaw: Option<int>): (r: Result<Page<DueEntry>>)
    ensures
      var due := OverdueRecords(records, now);
      var paged := Paginate(due, pageRaw, limitRaw, HistoryLimit);
      && (r.Err? <==> paged.Err?)
      && (r.Ok? ==>
            && r.value.totalItems == |due| && r.value.currentPage == paged.value.currentPage
            && r.value.totalPages == paged.value.totalPages
            && |r.value.entries| == |paged.value.entries|
            && forall i :: 0 <= i < |r.value.entries| ==>
                 r.value.entries[i] == EnrichDue(paged.value.entries[i], items))
  {
    match Paginate(OverdueRecords(records, now), pageRaw, limitRaw, HistoryLimit)
    case Err(e) => Err(e)
    case Ok(p) =>
      Ok(Page(seq(|p.entries|, i requires 0 <= i < |p.entries| => EnrichDue(p.entries[i], items)),
              p.currentPage, p.totalPages, p.totalItems))
  }

  /** Every entry of an overdue page is an open, overdue record of the store
      (enrichment only renames it), the page is ordered by return date,
      holds at most `limit` entries, and shows the record's own name when
      its item has been deleted. */
  lemma {:induction false} DuePageEntries(records: seq<LoanRecord>, items: map<ItemId, Item>, now: Time,
                                          pageRaw: Option<int>, limitRaw: Option<int>)
    ensures
      var r := DuePage(records, items, now, pageRaw, limitRaw);
      r.Ok? ==>
        && |r.value.entries| <= Abs(OrDefault(limitRaw, HistoryLimit))
        && (forall i :: 0 <= i < |r.value.entries| ==>
              var e := r.value.entries[i];
              && e.record.status == Collected && e.record.returnDate < now
              && (exists x :: x in records && IsOverdue(x, now) && e == EnrichDue(x, items))
              && (e.record.itemId !in items ==> e.record in records))
        && (forall i, j :: 0 <= i < j < |r.value.entries| ==>
              r.value.entries[i].record.returnDate <= r.value.entries[j].record.returnDate)
  {
    var r := DuePage(records, items, now, pageRaw, limitRaw);
    if r.Ok? {
      var due := OverdueRecords(records, now);
      var key := (x: LoanRecord) => x.returnDate;
      PageEntriesFromAll(due, pageRaw, limitRaw, HistoryLimit);
      PageKeepsOrder(due, key, pageRaw, limitRaw, HistoryLimit);
      var p := Paginate(due, pageRaw, limitRaw, HistoryLimit).value;
      forall i | 0 <= i < |r.value.entries|
        ensures var e := r.value.entries[i];
          && e.record.status == Collected && e.record.returnDate < now
          && (exists x :: x in records && IsOverdue(x, now) && e == EnrichDue(x, items))
          && (e.record.itemId !in items ==> e.record in records)
      {
        var x := p.entries[i];
        OverdueExactly(records, now, x);
        assert x in records && IsOverdue(x, now) && r.value.entries[i] == EnrichDue(x, items);
      }
      forall i, j | 0 <= i < j < |r.value.entries|
        ensures r.value.entries[i].record.returnDate <= r.value.entries[j].record.returnDate
      {
        assert key(p.entries[i]) <= key(p.entries[j]);
      }
    }
  }

  /** A return that closes a record takes exactly one copy of it off the
      overdue list (when it was overdue), and the closed record is not
      overdue. */
  lemma {:induction false} ReturnLeavesOverdueList(db: Db, id: ItemId, req: ReturnRequest, t: Time, now: Time)
    requires Accounting.Return(db, id, req, t).result.Ok?
    ensures
      var k := FirstOpenLoan(db.records, KeyOf(id, req)).value;
      var x := db.records[k];
      var after := Accounting.Return(db, id, req, t).db.records;
      && !IsOverdue(after[k], now)
      && multiset(OverdueRecords(after, now))[x] + (if IsOverdue(x, now) then 1 else 0)
         == multiset(OverdueRecords(db.records, now))[x]
  {
    var k := FirstOpenLoan(db.records, KeyOf(id, req)).value;
    var x := db.records[k];
    var y := MarkReturned(x, t);
    var after := Accounting.Return(db, id, req, t).db.records;
    assert after == db.records[k := y];
    assert db.records == db.records[..k] + [x] + db.records[k + 1..];
    assert after == db.records[..k] + [y] + db.records[k + 1..];
    assert y != x;
    assert multiset(after)[x] + 1 == multiset(db.records)[x];
  }

  // --------------------------------------------------------------- history

  /** A history record joined with its item's image, when the item exists. */
  datatype HistoryEntry = HistoryEntry(record: LoanRecord, itemImage: Option<string>)

  /** A user-history record joined with its item's image and description. */
  datatype UserHistoryEntry = UserHistoryEntry(record: LoanRecord, itemImage: Option<string>, itemDescription: Option<string>)

  function ImageOf(items: map<ItemId, Item>, id: ItemId): (img: Option<string>)
    ensures img.Some? <==> id in items
    ensures id in items ==> img.value == items[id].image
  {
    if id in items then Some(items[id].image) else None
  }

  /** The history filter: `?status=` when non-empty (compared with the
      stored string, so an unknown status matches nothing). */
  predicate StatusMatches(r: LoanRecord, status: string)
  {
    status == "" || StatusName(r.status) == status
  }

  /** Records newest first (`.sort({entryAt: -1})`). */
  function NewestFirst(records: seq<LoanRecord>): (r: seq<LoanRecord>)
    ensures multiset(r) == multiset(records)
    ensures forall i, j :: 0 <= i < j < |r| ==> r[i].entryAt >= r[j].entryAt
  {
    SortBy(records, (x: LoanRecord) => -x.entryAt)
  }

  /** `GET /api/history` without a search text: the records with the
      requested status, newest first, one page, each with its item's image. */
  function HistoryPage(records: seq<LoanRecord>, items: map<ItemId, Item>, status: string,
                       pageRaw: Option<int>, limitRaw: Option<int>): (r: Result<Page<HistoryEntry>>)
    ensures
      var chosen := NewestFirst(Filter(records, (x: LoanRecord) => StatusMatches(x, status)));
      var paged := Paginate(chosen, pageRaw, limitRaw, HistoryLimit);
      && (r.Err? <==> paged.Err?)
      && (r.Ok? ==>
            && r.value.totalItems == |chosen| && r.value.currentPage == paged.value.currentPage
            && r.value.totalPages == paged.value.totalPages
            && |r.value.entries| == |paged.value.entries|
            && forall i :: 0 <= i < |r.value.entries| ==>
                 r.value.entries[i] == HistoryEntry(paged.value.entries[i], ImageOf(items, paged.value.entries[i].itemId)))
  {
    var chosen := NewestFirst(Filter(records, (x: LoanRecord) => StatusMatches(x, status)));
    match Paginate(chosen, pageRaw, limitRaw, HistoryLimit)
    case Err(e) => Err(e)
    case Ok(p) =>
      Ok(Page(seq(|p.entries|, i requires 0 <= i < |p.entries| =>
                    HistoryEntry(p.entries[i], ImageOf(items, p.entries[i].itemId))),
              p.currentPage, p.totalPages, p.totalItems))
  }

  /** Every entry of a history page is a store record with the requested
      status (any status when none is requested), and the page is newest
      first. */
  lemma {:induction false} HistoryEntries(records: seq<LoanRecord>, items: map<ItemId, Item>, status: string,
                                          pageRaw: Option<int>, limitRaw: Option<int>)
    ensures
      var r := HistoryPage(records, items, status, pageRaw, limitRaw);
      r.Ok? ==>
        && (forall i :: 0 <= i < |r.value.entries| ==>
              r.value.entries[i].record in records && StatusMatches(r.value.entries[i].record, status))
        && (forall i, j :: 0 <= i < j < |r.value.entries| ==>
              r.value.entries[i].record.entryAt >= r.value.entries[j].record.entryAt)
  {
    var r := HistoryPage(records, items, status, pageRaw, limitRaw);
    if r.Ok? {
      var p := (x: LoanRecord) => StatusMatches(x, status);
      var chosen := NewestFirst(Filter(records, p));
      var key := (x: LoanRecord) => -x.entryAt;
      PageEntriesFromAll(chosen, pageRaw, limitRaw, HistoryLimit);
      PageKeepsOrder(chosen, key, pageRaw, limitRaw, HistoryLimit);
      var pg := Paginate(chosen, pageRaw, limitRaw, HistoryLimit).value;
      forall i | 0 <= i < |r.value.entries|
        ensures r.value.entries[i].record in records && StatusMatches(r.value.entries[i].record, status)
      {
        var x := pg.entries[i];
        assert x in multiset(chosen);
        FilterMembers(records, p, x);
      }
      forall i, j | 0 <= i < j < |r.value.entries|
        ensures r.value.entries[i].record.entryAt >= r.value.entries[j].record.entryAt
      {
        assert key(pg.entries[i]) <= key(pg.entries[j]);
      }
    }
  }

  /** A user-history record with its item's image and description, or
      neither when the item has been deleted. */
  function UserEntry(x: LoanRecord, items: map<ItemId, Item>): (e: UserHistoryEntry)
    ensures e.record == x && e.itemImage == ImageOf(items, x.itemId)
    ensures x.itemId in items <==> e.itemDescription.Some?
    ensures x.itemId in items ==> e.itemDescription.value == items[x.itemId].description
  {
    UserHistoryEntry(x, ImageOf(items, x.itemId),
                     if x.itemId in items then Some(items[x.itemId].description) else None)
  }

  /** `GET /api/history/user/:email`: the records whose `userEmail` is
      `email`, newest first, one page, each with its item's image and
      description. */
  function UserHistoryPage(records: seq<LoanRecord>, items: map<ItemId, Item>, email: string,
                           pageRaw: Option<int>, limitRaw: Option<int>): (r: Result<Page<UserHistoryEntry>>)
    ensures
      var chosen := NewestFirst(Filter(records, (x: LoanRecord) => HasField(x.userInfo, UserEmail, email)));
      var paged := Paginate(chosen, pageRaw, limitRaw, HistoryLimit);
      && (r.Err? <==> paged.Err?)
      && (r.Ok? ==>
            && r.value.totalItems == |chosen| && r.value.currentPage == paged.value.currentPage
            && r.value.totalPages == paged.value.totalPages
            && |r.value.entries| == |paged.value.entries|
            && forall i :: 0 <= i < |r.value.entries| ==>
                 r.value.entries[i] == UserEntry(paged.value.entries[i], items))
  {
    var chosen := NewestFirst(Filter(records, (x: LoanRecord) => HasField(x.userInfo, UserEmail, email)));
    match Paginate(chosen, pageRaw, limitRaw, HistoryLimit)
    case Err(e) => Err(e)
    case Ok(p) =>
      Ok(Page(seq(|p.entries|, i requires 0 <= i < |p.entries| => UserEntry(p.entries[i], items)),
              p.currentPage, p.totalPages, p.totalItems))
  }

  /** Every entry of a user's history page is one of that user's records,
      and the page is newest first. */
  lemma {:induction false} UserHistoryEntries(records: seq<LoanRecord>, items: map<ItemId, Item>, email: string,
                                              pageRaw: Option<int>, limitRaw: Option<int>)
    ensures
      var r := UserHistoryPage(records, items, email, pageRaw, limitRaw);
      r.Ok? ==>
        && (forall i :: 0 <= i < |r.value.entries| ==>
              r.value.entries[i].record in records && HasField(r.value.entries[i].record.userInfo, UserEmail, email))
        && (forall i, j :: 0 <= i < j < |r.value.entries| ==>
              r.value.entries[i].record.entryAt >= r.value.entries[j].record.entryAt)
  {
    var r := UserHistoryPage(records, items, email, pageRaw, limitRaw);
    if r.Ok? {
      var p := (x: LoanRecord) => HasField(x.userInfo, UserEmail, email);
      var chosen := NewestFirst(Filter(records, p));
      var key := (x: LoanRecord) => -x.entryAt;
      PageEntriesFromAll(chosen, pageRaw, limitRaw, HistoryLimit);
      PageKeepsOrder(chosen, key, pageRaw, limitRaw, HistoryLimit);
      var pg := Paginate(chosen, pageRaw, limitRaw, HistoryLimit).value;
      forall i | 0 <= i < |r.value.entries|
        ensures r.value.entries[i].record in records && HasField(r.value.entries[i].record.userInfo, UserEmail, email)
      {
        var x := pg.entries[i];
        assert x in multiset(chosen);
        FilterMembers(records, p, x);
      }
      forall i, j | 0 <= i < j < |r.value.entries|
        ensures r.value.entries[i].record.entryAt >= r.value.entries[j].record.entryAt
      {
        assert key(pg.entries[i]) <= key(pg.entries[j]);
      }
    }
  }

  /** `GET /api/equipment` without a search text: the items newest first
      (`.sort({createdAt: -1})`), one page of the default size 9. The
      argument holds the item documents in store order. */
  function EquipmentPage(items: seq<Item>, pageRaw: Option<int>, limitRaw: Option<int>): (r: Result<Page<Item>>)
    ensures
      var page := OrDefault(pageRaw, 1);
      var limit := OrDefault(limitRaw, EquipmentLimit);
      && (r.Err? <==> (page - 1) * limit < 0)
      && (r.Err? ==> r.error == NegativeSkip)
      && (r.Ok? ==>
            && r.value.currentPage == page
            && r.value.totalPages == CeilDiv(|items|, limit)
            && r.value.entries == Window(SortBy(items, (x: Item) => -x.createdAt), (page - 1) * limit, Abs(limit)))
    ensures r.Ok? ==> r.value.totalItems == |items|
    ensures r.Ok? ==> |r.value.entries| <= Abs(OrDefault(limitRaw, EquipmentLimit))
    ensures r.Ok? ==> forall i, j :: 0 <= i < j < |r.value.entries| ==>
              r.value.entries[i].createdAt >= r.value.entries[j].createdAt
    ensures r.Ok? ==> forall i :: 0 <= i < |r.value.entries| ==> r.value.entries[i] in items
  {
    var key := (x: Item) => -x.createdAt;
    var sorted := SortBy(items, key);
    PageEntriesFromAll(sorted, pageRaw, limitRaw, EquipmentLimit);
    PageKeepsOrder(sorted, key, pageRaw, limitRaw, EquipmentLimit);
    var r := Paginate(sorted, pageRaw, limitRaw, EquipmentLimit);
    assert r.Ok? ==> forall i :: 0 <= i < |r.value.entries| ==> r.value.entries[i] in multiset(sorted);
    r
  }

  // ------------------------------------------------------------ dashboard

  function CountStatus(records: seq<LoanRecord>, s: Status): (n: nat)
    ensures n <= |records|
  {
    if records == [] then 0
    else CountStatus(records[..|records| - 1], s) + (if records[|records| - 1].status == s then 1 else 0)
  }

  function CountName(records: seq<LoanRecord>, name: string): (n: nat)
    ensures n <= |records|
  {
    if records == [] then 0
    else CountName(records[..|records| - 1], name) + (if records[|records| - 1].itemName == name then 1 else 0)
  }

  lemma {:induction false} CountNamePositive(records: seq<LoanRecord>, k: nat)
    requires k < |records|
    ensures CountName(records, records[k].itemName) >= 1
  {
    if k < |records| - 1 {
      CountNamePositive(records[..|records| - 1], k);
    }
  }

  /** Every record is either collected or returned. */
  lemma {:induction false} StatusCountsAddUp(records: seq<LoanRecord>)
    ensures CountStatus(records, Collected) + CountStatus(records, Returned) == |records|
  {
    if records != [] {
      StatusCountsAddUp(records[..|records| - 1]);
    }
  }

  /** The item names of the records, each once, in order of first appearance
      (the `_id` values of `{$group: {_id: "$itemName"}}`). */
  function Names(records: seq<LoanRecord>): (r: seq<string>)
    ensures forall i, j :: 0 <= i < j < |r| ==> r[i] != r[j]
    ensures forall n :: n in r <==> exists k :: 0 <= k < |records| && records[k].itemName == n
  {
    if records == [] then []
    else
      var init := records[..|records| - 1];
      var prev := Names(init);
      var n := records[|records| - 1].itemName;
      assert forall k :: 0 <= k < |init| ==> init[k] == records[k];
      if n in prev then prev else prev + [n]
  }

  datatype BorrowCount = BorrowCount(itemName: string, count: nat)

  /** One group per item name with its number of records (`count: {$sum: 1}`). */
  function Groups(records: seq<LoanRecord>): (g: seq<BorrowCount>)
    ensures forall i :: 0 <= i < |g| ==> g[i].count == CountName(records, g[i].itemName)
    ensures forall i, j :: 0 <= i < j < |g| ==> g[i].itemName != g[j].itemName
    ensures forall n :: (exists k :: 0 <= k < |records| && records[k].itemName == n) <==>
                        BorrowCount(n, CountName(records, n)) in g
  {
    var names := Names(records);
    var g := seq(|names|, i requires 0 <= i < |names| => BorrowCount(names[i], CountName(records, names[i])));
    assert forall n :: n in names <==> BorrowCount(n, CountName(records, n)) in g by {
      forall n ensures n in names <==> BorrowCount(n, CountName(records, n)) in g {
        if n in names {
          var i :| 0 <= i < |names| && names[i] == n;
          assert g[i] == BorrowCount(n, CountName(records, n));
        }
      }
    }
    g
  }

  /** The group list ordered by count, highest first (`{$sort: {count: -1}}`). */
  function RankedGroups(records: seq<LoanRecord>): (r: seq<BorrowCount>)
    ensures multiset(r) == multiset(Groups(records))
    ensures forall i, j :: 0 <= i < j < |r| ==> r[i].count >= r[j].count
  {
    SortBy(Groups(records), (g: BorrowCount) => -(g.count as int))
  }

  /** `{$limit: 5}` on the ranked groups. */
  function MostBorrowed(records: seq<LoanRecord>): (r: seq<BorrowCount>)
    ensures |r| <= 5
    ensures forall i, j :: 0 <= i < j < |r| ==> r[i].count >= r[j].count
  {
    Take(RankedGroups(records), 5)
  }

  /** A distinct sequence holds each value at most once. */
  lemma {:induction false} DistinctOnce<T>(s: seq<T>, x: T)
    requires forall i, j :: 0 <= i < j < |s| ==> s[i] != s[j]
    ensures multiset(s)[x] <= 1
  {
    if s != [] {
      var t := s[..|s| - 1];
      assert s == t + [s[|s| - 1]];
      assert s[|s| - 1] !in t;
      DistinctOnce(t, x);
    }
  }

  /** A value at two positions is held twice. */
  lemma {:induction false} TwiceHeldTwice<T>(s: seq<T>, i: nat, j: nat)
    requires i < j < |s| && s[i] == s[j]
    ensures multiset(s)[s[i]] >= 2
  {
    var x := s[i];
    assert s == s[..i] + [x] + s[i + 1..j] + [x] + s[j + 1..];
  }

  /** Each ranked group carries the number of records with its item name,
      at least one. */
  lemma {:induction false} RankedCounts(records: seq<LoanRecord>)
    ensures
      var ranked := RankedGroups(records);
      forall i :: 0 <= i < |ranked| ==>
        ranked[i].count == CountName(records, ranked[i].itemName) && ranked[i].count >= 1
  {
    var g := Groups(records);
    var ranked := RankedGroups(records);
    forall i | 0 <= i < |ranked|
      ensures ranked[i].count == CountName(records, ranked[i].itemName) && ranked[i].count >= 1
    {
      assert ranked[i] in multiset(ranked);
      var n := ranked[i].itemName;
      assert BorrowCount(n, ranked[i].count) in g;
      var k :| 0 <= k < |records| && records[k].itemName == n;
      CountNamePositive(records, k);
    }
  }

  /** No two ranked groups name the same item. */
  lemma {:induction false} RankedDistinct(records: seq<LoanRecord>)
    ensures
      var ranked := RankedGroups(records);
      forall i, j :: 0 <= i < j < |ranked| ==> ranked[i].itemName != ranked[j].itemName
  {
    var g := Groups(records);
    var ranked := RankedGroups(records);
    RankedCounts(records);
    forall i, j | 0 <= i < j < |ranked| ensures ranked[i].itemName != ranked[j].itemName {
      if ranked[i].itemName == ranked[j].itemName {
        assert ranked[i] == ranked[j];
        TwiceHeldTwice(ranked, i, j);
        DistinctOnce(g, ranked[i]);
        assert false;
      }
    }
  }

  /** Each entry of `mostBorrowed` names a different item and carries the
      number of records with that item name, at least one. */
  lemma {:induction false} MostBorrowedCounts(records: seq<LoanRecord>)
    ensures
      var r := MostBorrowed(records);
      && (forall i :: 0 <= i < |r| ==> r[i].count == CountName(records, r[i].itemName) && r[i].count >= 1)
      && (forall i, j :: 0 <= i < j < |r| ==> r[i].itemName != r[j].itemName)
  {
    var ranked := RankedGroups(records);
    var r := MostBorrowed(records);
    RankedCounts(records);
    RankedDistinct(records);
    assert forall i :: 0 <= i < |r| ==> r[i] == ranked[i];
  }

  /** `mostBorrowed` really holds the top items: an item name that occurs in
      the records but not in the list only happens when the list is full,
      and then that name has no more records than any listed entry. */
  lemma {:induction false} MostBorrowedIsTop(records: seq<LoanRecord>, k: nat)
    requires k < |records|
    requires forall i :: 0 <= i < |MostBorrowed(records)| ==> MostBorrowed(records)[i].itemName != records[k].itemName
    ensures |MostBorrowed(records)| == 5
    ensures forall i :: 0 <= i < 5 ==> MostBorrowed(records)[i].count >= CountName(records, records[k].itemName)
  {
    var n := records[k].itemName;
    var ranked := RankedGroups(records);
    var r := MostBorrowed(records);
    var grp := BorrowCount(n, CountName(records, n));
    assert grp in Groups(records);
    assert grp in multiset(ranked);
    var p :| 0 <= p < |ranked| && ranked[p] == grp;
    assert p >= |r|;
  }

  /** `recentActivities`: the five newest records (`.sort({entryAt: -1}).limit(5)`). */
  function RecentActivities(records: seq<LoanRecord>): (r: seq<LoanRecord>)
    ensures |r| == if |records| < 5 then |records| else 5
    ensures forall i, j :: 0 <= i < j < |r| ==> r[i].entryAt >= r[j].entryAt
    ensures multiset(r) <= multiset(records)
  {
    var sorted := NewestFirst(records);
    var r := Take(sorted, 5);
    assert sorted == r + sorted[|r|..];
    r
  }

  /** In a newest-first sequence, an occurrence of `x` beyond the first `n`
      entries is no newer than any of those `n`. */
  lemma {:induction false} PrefixIsNewest(s: seq<LoanRecord>, n: nat, x: LoanRecord, i: nat)
    requires i < n <= |s|
    requires forall a, b :: 0 <= a < b < |s| ==> s[a].entryAt >= s[b].entryAt
    requires multiset(s)[x] > multiset(s[..n])[x]
    ensures s[i].entryAt >= x.entryAt
  {
    var rest := s[n..];
    assert s == s[..n] + rest;
    assert multiset(rest)[x] > 0;
    var p :| 0 <= p < |rest| && rest[p] == x;
    assert s[n + p] == x;
  }

  /** No record left out of `recentActivities` is newer than one kept. */
  lemma {:induction false} RecentAreNewest(records: seq<LoanRecord>, x: LoanRecord, i: nat)
    requires multiset(records)[x] > multiset(RecentActivities(records))[x]
    requires i < |RecentActivities(records)|
    ensures RecentActivities(records)[i].entryAt >= x.entryAt
  {
    var sorted := NewestFirst(records);
    var r := RecentActivities(records);
    assert r == sorted[..|r|];
    PrefixIsNewest(sorted, |r|, x, i);
  }

  datatype Stats = Stats(
    totalCollected: nat, totalReturned: nat, totalRecords: nat, activeLoans: nat,
    mostBorrowed: seq<BorrowCount>, recentActivities: seq<LoanRecord>)

  /** `GET /api/history/stats`. `totalRecords` counts items, not loans. */
  function DashboardStats(items: map<ItemId, Item>, records: seq<LoanRecord>): (s: Stats)
    ensures s.activeLoans == s.totalCollected == CountStatus(records, Collected)
    ensures s.totalReturned == CountStatus(records, Returned)
    ensures s.totalCollected + s.totalReturned == |records|
    ensures s.totalRecords == |items|
    ensures s.mostBorrowed == MostBorrowed(records) && s.recentActivities == RecentActivities(records)
  {
    StatusCountsAddUp(records);
    var collected := CountStatus(records, Collected);
    Stats(collected, CountStatus(records, Returned), |items|, collected,
          MostBorrowed(records), RecentActivities(records))
  }
}
