/** The pagination arithmetic shared by the listing handlers:
    `page = parseInt(q.page) || 1`, `limit = parseInt(q.limit) || d`,
    `skip = (page - 1) * limit`, then `.skip(skip).limit(limit)` and
    `totalPages = Math.ceil(total / limit)`. Nothing rejects a negative page
    or limit: the database refuses a negative skip and reads a negative
    limit as its absolute value. */
module Paging {
  import opened LabTypes
  import opened Sorting

  /** The default page size of the equipment listing. */
  const EquipmentLimit: int := 9
  /** The default page size of the history, user history and overdue listings. */
  const HistoryLimit: int := 10

  datatype Page<T> = Page(entries: seq<T>, currentPage: int, totalPages: int, totalItems: nat)

  /** `parseInt(raw) || fallback`: None stands for a missing or unparsable
      value (NaN); it and 0 both give the fallback. */
  function OrDefault(raw: Option<int>, fallback: int): (v: int)
    ensures raw.Some? && raw.value != 0 ==> v == raw.value
    ensures raw.None? || raw.value == 0 ==> v == fallback
  {
    match raw
    case Some(n) => if n != 0 then n else fallback
    case None => fallback
  }

  function Abs(n: int): (a: nat)
    ensures a == n || a == -n
  {
    if n < 0 then -n else n
  }

  /** `Math.ceil(total / limit)` for a nonzero limit. */
  function CeilDiv(total: nat, limit: int): (q: int)
    requires limit != 0
    ensures limit > 0 ==> (q - 1) * limit < total <= q * limit
    ensures limit < 0 ==> q * limit <= total < (q - 1) * limit
  {
    if limit > 0 then (total + limit - 1) / limit else -(total / (-limit))
  }

  /** `.skip(skip).limit(n)` over an already ordered result. */
  function Window<T>(s: seq<T>, skip: nat, n: nat): (r: seq<T>)
    ensures |r| <= n
    ensures skip + |r| <= |s| || r == []
    ensures forall i :: 0 <= i < |r| ==> skip + i < |s| && r[i] == s[skip + i]
    ensures |r| == n || skip + |r| >= |s|
  {
    if skip >= |s| then []
    else if skip + n <= |s| then s[skip..skip + n]
    else s[skip..]
  }

  /** One page of `all` for the raw query values, or NegativeSkip when the
      page and limit give a negative skip. */
  function Paginate<T>(all: seq<T>, pageRaw: Option<int>, limitRaw: Option<int>, defaultLimit: int): (r: Result<Page<T>>)
    requires defaultLimit > 0
    ensures
      var page := OrDefault(pageRaw, 1);
      var limit := OrDefault(limitRaw, defaultLimit);
      && limit != 0
      && (r.Err? <==> (page - 1) * limit < 0)
      && (r.Err? ==> r.error == NegativeSkip)
      && (r.Ok? ==>
            && r.value.currentPage == page
            && r.value.totalItems == |all|
            && r.value.totalPages == CeilDiv(|all|, limit)
            && r.value.entries == Window(all, (page - 1) * limit, Abs(limit)))
  {
    var page := OrDefault(pageRaw, 1);
    var limit := OrDefault(limitRaw, defaultLimit);
    var skip := (page - 1) * limit;
    if skip < 0 then Err(NegativeSkip)
    else Ok(Page(Window(all, skip, Abs(limit)), page, CeilDiv(|all|, limit), |all|))
  }

  /** A page holds at most `limit` entries, all taken from the full result. */
  lemma PageEntriesFromAll<T>(all: seq<T>, pageRaw: Option<int>, limitRaw: Option<int>, defaultLimit: int)
    requires defaultLimit > 0
    ensures
      var r := Paginate(all, pageRaw, limitRaw, defaultLimit);
      r.Ok? ==>
        && |r.value.entries| <= Abs(OrDefault(limitRaw, defaultLimit))
        && forall i :: 0 <= i < |r.value.entries| ==> r.value.entries[i] in all
  {
  }

  /** A page of an ordered result is ordered. */
  lemma PageKeepsOrder<T>(all: seq<T>, key: T -> int, pageRaw: Option<int>, limitRaw: Option<int>, defaultLimit: int)
    requires defaultLimit > 0 && SortedBy(all, key)
    ensures
      var r := Paginate(all, pageRaw, limitRaw, defaultLimit);
      r.Ok? ==> SortedBy(r.value.entries, key)
  {
    var r := Paginate(all, pageRaw, limitRaw, defaultLimit);
    if r.Ok? {
      var skip := (OrDefault(pageRaw, 1) - 1) * OrDefault(limitRaw, defaultLimit);
      var e := r.value.entries;
      forall i, j | 0 <= i < j < |e| ensures key(e[i]) <= key(e[j]) {
        assert e[i] == all[skip + i] && e[j] == all[skip + j];
      }
    }
  }

  /** With a positive limit, entry `k` of the full result is entry
      `k % limit` of page `k / limit + 1`, and that page is within
      `totalPages`: every entry is listed on some page. */
  lemma {:induction false} EveryEntryOnSomePage<T>(all: seq<T>, limit: int, k: nat)
    requires limit > 0 && k < |all|
    ensures
      var page := k / limit + 1;
      var r := Paginate(all, Some(page), Some(limit), 1);
      && r.Ok?
      && 1 <= page <= r.value.totalPages
      && k % limit < |r.value.entries|
      && r.value.entries[k % limit] == all[k]
  {
    var page := k / limit + 1;
    var skip := (page - 1) * limit;
    DivSplit(k, limit);
    var q := CeilDiv(|all|, limit);
    assert skip < q * limit;
    MulLessMonotone(page - 1, q, limit);
  }

  /** Euclidean division of `k` by a positive `limit`: the page start
      `(k / limit) * limit` is at most `k`, and `k` is `k % limit` past it. */
  lemma DivSplit(k: nat, limit: int)
    requires limit > 0
    ensures (k / limit) * limit + k % limit == k
    ensures 0 <= k % limit < limit && 0 <= k / limit
  {
  }

  /** `a * c < b * c` with a positive `c` gives `a < b`. */
  lemma MulLessMonotone(a: int, b: int, c: int)
    requires c > 0 && a * c < b * c
    ensures a < b
  {
  }
}
