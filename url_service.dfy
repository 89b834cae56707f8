/** `UrlService`: creating a short url for the caller, the paged listing of
    a user's urls, the two lookups and the partial update. */
module UrlService {
  import opened Common
  import opened UrlEntity
  import CodeGenerator
  import Database
  import UrlRepository
  import Pagination

  datatype UpdateUrlDto = UpdateUrlDto(
    originalUrl: Option<string>,
    alias: Option<string>,
    urlType: Option<UrlType>,
    expiresAt: Option<Time>)

  predicate Owns(urls: map<Id, Url>, userId: Id, k: Id) {
    k in urls && urls[k].user == Some(userId)
  }

  /** The ids of the rows `userId` owns. */
  function OwnedSet(urls: map<Id, Url>, userId: Id): set<Id> {
    set k | k in urls && Owns(urls, userId, k)
  }

  /** `findOneBy({ id })`: the row with that id, or "URL not found.". */
  function FindByUrlId(urls: map<Id, Url>, urlId: Id): (r: Result<Url>)
    requires forall k :: k in urls ==> urls[k].id == k
    ensures r.Ok? <==> urlId in urls
    ensures r.Ok? ==> r.value in urls.Values && r.value.id == urlId
    ensures r.Err? ==> r.error == NotFound("URL not found.")
  {
    if urlId in urls then Ok(urls[urlId]) else Err(NotFound("URL not found."))
  }

  /** `findByCode`: the row with that code, or a BadRequest "URL not found.".
      Codes are unique, so the row found is the only one with the code. */
  function FindByCode(urls: map<Id, Url>, code: string): (r: Result<Url>)
    requires CodesUnique(urls)
    ensures r.Ok? <==> CodeTakenByOther(urls, code, None)
    ensures r.Ok? ==> r.value.code == code && forall k :: k in urls && urls[k].code == code ==> urls[k] == r.value
    ensures r.Err? ==> r.error == BadRequest("URL not found.")
  {
    if CodeTakenByOther(urls, code, None) then
      var k :| k in urls && urls[k].code == code;
      Ok(urls[k])
    else
      Err(BadRequest("URL not found."))
  }

  /** `createUrl`: load the caller (null when the id names no user) and
      store a url owned by that user. The new row is then found by its code
      and by its id. */
  method CreateUrl(db: Database.Store, dto: UrlRepository.CreateUrlDto, userId: Id,
                   randomBytes: seq<CodeGenerator.byte>, now: Time)
    returns (r: Result<Url>)
    requires db.Valid()
    requires |randomBytes| == CodeGenerator.DefaultLength
    modifies db
    ensures db.Valid()
    ensures r.Ok? <==> !CodeTakenByOther(old(db.urls), GenerateCode(randomBytes), None)
    ensures r.Err? ==> r.error == QueryFailed(Database.UniqueViolation) && unchanged(db)
    ensures r.Ok? ==>
              var owner := if userId in old(db.users) then Some(userId) else None;
              && r.value == UrlEntity.Inserted(old(db.nextId), randomBytes, dto.originalUrl, dto.alias,
                                              dto.urlType, dto.expiresAt, owner, now)
              && db.urls == old(db.urls)[r.value.id := r.value]
              && db.users == old(db.users) && db.teams == old(db.teams)
              && db.nextId == old(db.nextId) + 1
              && FindByCode(db.urls, r.value.code) == Ok(r.value)
              && FindByUrlId(db.urls, r.value.id) == Ok(r.value)
  {
    var user := if userId in db.users then Some(db.users[userId]) else None;
    r := UrlRepository.Store(db, dto, user, randomBytes, now);
    if r.Ok? {
      assert db.urls[r.value.id] == r.value;
    }
  }

  /** The ids in `[from, to)` of the rows `userId` owns, ascending. */
  function OwnedIds(urls: map<Id, Url>, userId: Id, from: nat, to: nat): (ids: seq<Id>)
    decreases to - from
    ensures forall i :: 0 <= i < |ids| ==> from <= ids[i] < to && Owns(urls, userId, ids[i])
    ensures forall i, j :: 0 <= i < j < |ids| ==> ids[i] < ids[j]
    ensures forall k :: from <= k < to && Owns(urls, userId, k) ==> k in ids
  {
    if from >= to then []
    else if Owns(urls, userId, from) then [from] + OwnedIds(urls, userId, from + 1, to)
    else OwnedIds(urls, userId, from + 1, to)
  }

  /** The distinct entries of a sequence. */
  function Elems(ids: seq<Id>): (e: set<Id>)
    ensures forall k :: k in e <==> k in ids
  {
    if ids == [] then {} else {ids[0]} + Elems(ids[1..])
  }

  /** A strictly ascending sequence has as many distinct entries as entries. */
  lemma {:induction false} AscendingCard(ids: seq<Id>)
    requires forall i, j :: 0 <= i < j < |ids| ==> ids[i] < ids[j]
    ensures |Elems(ids)| == |ids|
  {
    if ids != [] {
      AscendingCard(ids[1..]);
      assert ids[0] !in ids[1..];
    }
  }

  lemma OwnedIdsAreOwnedSet(urls: map<Id, Url>, userId: Id, nextId: Id)
    requires KeyedBelow(urls, nextId)
    ensures Elems(OwnedIds(urls, userId, 0, nextId)) == OwnedSet(urls, userId)
  {
    var ids := OwnedIds(urls, userId, 0, nextId);
    forall k | k in OwnedSet(urls, userId) ensures k in Elems(ids) {
      assert k < nextId;
    }
  }

  /** The rows stored under `ids`, in that order. */
  function RowsOf(urls: map<Id, Url>, ids: seq<Id>): (rows: seq<Url>)
    requires forall i :: 0 <= i < |ids| ==> ids[i] in urls
    ensures |rows| == |ids|
    ensures forall i :: 0 <= i < |ids| ==> rows[i] == urls[ids[i]]
  {
    if ids == [] then [] else [urls[ids[0]]] + RowsOf(urls, ids[1..])
  }

  /** Every url `userId` owns, in ascending id order: the row order of the
      listing. */
  function OwnedRows(urls: map<Id, Url>, userId: Id, nextId: Id): (rows: seq<Url>)
    requires KeyedBelow(urls, nextId)
    ensures |rows| == |OwnedSet(urls, userId)|
    ensures forall i :: 0 <= i < |rows| ==> Owns(urls, userId, rows[i].id) && urls[rows[i].id] == rows[i]
    ensures forall i, j :: 0 <= i < j < |rows| ==> rows[i].id < rows[j].id
  {
    var ids := OwnedIds(urls, userId, 0, nextId);
    var rows := RowsOf(urls, ids);
    OwnedIdsAreOwnedSet(urls, userId, nextId);
    AscendingCard(ids);
    forall i, j | 0 <= i < j < |rows| ensures rows[i].id < rows[j].id {
      assert rows[i].id == ids[i] && rows[j].id == ids[j];
    }
    rows
  }

  /** The listing leaves out none of the user's urls. */
  lemma OwnedRowsComplete(urls: map<Id, Url>, userId: Id, nextId: Id, k: Id)
    requires KeyedBelow(urls, nextId)
    requires Owns(urls, userId, k)
    ensures urls[k] in OwnedRows(urls, userId, nextId)
  {
    var ids := OwnedIds(urls, userId, 0, nextId);
    assert k < nextId;
    var i :| 0 <= i < |ids| && ids[i] == k;
    assert OwnedRows(urls, userId, nextId)[i] == urls[k];
  }

  /** The rows before page `page`: `(page - 1) * limit`. */
  function Skip(page: nat, limit: nat): nat
    requires page >= 1
  {
    (page - 1) * limit
  }

  function Min(a: nat, b: nat): nat {
    if a <= b then a else b
  }

  /** `findUrlsByUserId`: the `page`-th window of `limit` rows of the user's
      urls (`skip (page - 1) * limit`, `take limit`) and the number of urls
      the user owns. The controller passes `page` and `limit` as positive
      numbers. */
  function FindUrlsByUserId(urls: map<Id, Url>, nextId: Id, userId: Id, page: nat, limit: nat)
    : (r: (seq<Url>, nat))
    requires KeyedBelow(urls, nextId)
    requires page >= 1 && limit >= 1
    ensures |r.0| <= limit
    ensures forall i :: 0 <= i < |r.0| ==> Owns(urls, userId, r.0[i].id) && urls[r.0[i].id] == r.0[i]
    ensures r.1 == |OwnedSet(urls, userId)|
    ensures var rows := OwnedRows(urls, userId, nextId);
            var skip := Skip(page, limit);
            r.0 == rows[Min(skip, |rows|)..Min(skip + limit, |rows|)]
  {
    var rows := OwnedRows(urls, userId, nextId);
    var skip := Skip(page, limit);
    var lo, hi := Min(skip, |rows|), Min(skip + limit, |rows|);
    var window := rows[lo..hi];
    forall i | 0 <= i < |window|
      ensures Owns(urls, userId, window[i].id) && urls[window[i].id] == window[i]
    {
      assert window[i] == rows[lo + i];
    }
    (window, |rows|)
  }

  /** Row `i` of the listing is on page `i / limit + 1`, and that page is
      within `totalPages`. */
  lemma OwnedRowOnItsPage(urls: map<Id, Url>, nextId: Id, userId: Id, limit: nat, i: nat)
    requires KeyedBelow(urls, nextId)
    requires limit >= 1
    requires i < |OwnedRows(urls, userId, nextId)|
    ensures var page := i / limit + 1;
            var r := FindUrlsByUserId(urls, nextId, userId, page, limit);
            && OwnedRows(urls, userId, nextId)[i] in r.0
            && page <= Pagination.TotalPages(Pagination.PaginatedUrls(r.0, r.1, page, limit))
  {
    var rows := OwnedRows(urls, userId, nextId);
    var q := i / limit;
    var page := q + 1;
    var skip := q * limit;
    assert (page - 1) * limit == skip;
    var r := FindUrlsByUserId(urls, nextId, userId, page, limit);
    var n := Pagination.TotalPages(Pagination.PaginatedUrls(r.0, r.1, page, limit));
    IndexOnPage(i, limit, |rows|, n);
    assert r.0 == rows[skip..Min(skip + limit, |rows|)];
    assert r.0[i - skip] == rows[i];
  }

  /** The window arithmetic: index `i` falls within page `i / limit + 1`,
      whose number does not exceed the page count `n` of `total` rows. */
  lemma IndexOnPage(i: nat, limit: nat, total: nat, n: nat)
    requires limit >= 1 && i < total
    requires n * limit >= total
    ensures var skip := (i / limit) * limit;
            skip <= i < skip + limit && i / limit + 1 <= n
  {
    var q := i / limit;
    assert i == q * limit + i % limit;
    if q + 1 > n {
      Pagination.MultiplyMonotone(q, n, limit);
    }
  }

  /** A page of the listing holds rows exactly when its number is at most
      `totalPages`. */
  lemma PageNonEmptyIffWithinTotalPages(urls: map<Id, Url>, nextId: Id, userId: Id, page: nat, limit: nat)
    requires KeyedBelow(urls, nextId)
    requires page >= 1 && limit >= 1
    ensures var r := FindUrlsByUserId(urls, nextId, userId, page, limit);
            |r.0| > 0 <==> page <= Pagination.TotalPages(Pagination.PaginatedUrls(r.0, r.1, page, limit))
  {
    var r := FindUrlsByUserId(urls, nextId, userId, page, limit);
    var p := Pagination.PaginatedUrls(r.0, r.1, page, limit);
    var n := Pagination.TotalPages(p);
    var skip := (page - 1) * limit;
    if page <= n {
      Pagination.MultiplyMonotone(n - 1, page - 1, limit);
      assert skip < r.1;
    } else {
      Pagination.MultiplyMonotone(page - 1, n, limit);
      assert skip >= r.1;
    }
  }

  /** The url after `updateUrl`'s field assignments: the two strings are
      overwritten when non-empty, the type and expiry when supplied. */
  function PatchedUrl(u: Url, dto: UpdateUrlDto): Url {
    u.(originalUrl := OrKeep(dto.originalUrl, u.originalUrl),
       alias := if Truthy(dto.alias) then dto.alias else u.alias,
       urlType := if dto.urlType.Some? then dto.urlType.value else u.urlType,
       expiresAt := if dto.expiresAt.Some? then dto.expiresAt else u.expiresAt)
  }

  /** `updateUrl`: NotFound for an unknown id; otherwise patch and save the
      row, which stamps `updatedAt`. The code is left alone, so the save
      cannot collide on it and the row stays reachable by that code. */
  method UpdateUrl(db: Database.Store, urlId: Id, dto: UpdateUrlDto, now: Time) returns (r: Result<Url>)
    requires db.Valid()
    modifies db
    ensures db.Valid()
    ensures db.users == old(db.users) && db.teams == old(db.teams) && db.nextId == old(db.nextId)
    ensures urlId !in old(db.urls) ==> r == Err(NotFound("URL not found.")) && unchanged(db)
    ensures urlId in old(db.urls) ==>
              var before := old(db.urls)[urlId];
              && r == Ok(UrlEntity.UpdateTimestamp(PatchedUrl(before, dto), now))
              && db.urls == old(db.urls)[urlId := r.value]
              && r.value.id == urlId && r.value.code == before.code
              && r.value.user == before.user && r.value.team == before.team
              && r.value.isActive == before.isActive && r.value.redirectionCount == before.redirectionCount
              && r.value.createdAt == before.createdAt && r.value.updatedAt == Some(now)
              && r.value.originalUrl == OrKeep(dto.originalUrl, before.originalUrl)
              && r.value.alias == (if Truthy(dto.alias) then dto.alias else before.alias)
              && r.value.urlType == (if dto.urlType.Some? then dto.urlType.value else before.urlType)
              && r.value.expiresAt == (if dto.expiresAt.Some? then dto.expiresAt else before.expiresAt)
              && FindByCode(db.urls, before.code) == r
  {
    var found := FindByUrlId(db.urls, urlId);
    match found {
      case Err(e) =>
        return Err(e);
      case Ok(url) =>
        if Truthy(dto.originalUrl) {
          url := url.(originalUrl := dto.originalUrl.value);
        }
        if Truthy(dto.alias) {
          url := url.(alias := dto.alias);
        }
        if dto.urlType.Some? {
          url := url.(urlType := dto.urlType.value);
        }
        if dto.expiresAt.Some? {
          url := url.(expiresAt := dto.expiresAt);
        }
        r := db.SaveUrl(url, now);
    }
  }
}
