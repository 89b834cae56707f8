/** `UrlRepository.store`: insert a url built from the payload and its owner. */
module UrlRepository {
  import opened Common
  import opened UserEntity
  import opened UrlEntity
  import CodeGenerator
  import Database

  datatype CreateUrlDto = CreateUrlDto(
    originalUrl: string,
    alias: Option<string>,
    urlType: Option<UrlType>,
    expiresAt: Option<Time>)

  /** `user` is the owner as loaded by the caller, possibly null;
      `randomBytes` are the bytes the insert hook's code generator draws. */
  method Store(db: Database.Store, dto: CreateUrlDto, user: Option<User>,
               randomBytes: seq<CodeGenerator.byte>, now: Time)
    returns (r: Result<Url>)
    requires db.Valid()
    requires |randomBytes| == CodeGenerator.DefaultLength
    requires user.Some? ==> user.value.id in db.users
    modifies db
    ensures db.Valid()
    ensures r.Ok? <==> !CodeTakenByOther(old(db.urls), CodeGenerator.GenerateUniqueCode(randomBytes), None)
    ensures r.Err? ==> r.error == QueryFailed(Database.UniqueViolation) && unchanged(db)
    ensures r.Ok? ==>
      var u := r.value;
      && u.id == old(db.nextId) && u.id !in old(db.urls)
      && u.code == CodeGenerator.GenerateUniqueCode(randomBytes)
      && u.originalUrl == dto.originalUrl && u.alias == dto.alias
      && u.urlType == (if dto.urlType.Some? then dto.urlType.value else Permanent)
      && u.expiresAt == dto.expiresAt
      && u.user == (if user.Some? then Some(user.value.id) else None)
      && u.team == None
      && u.isActive && u.redirectionCount == None
      && u.createdAt == now && u.updatedAt == None
      && db.urls == old(db.urls)[u.id := u]
      && db.users == old(db.users) && db.teams == old(db.teams)
      && db.nextId == old(db.nextId) + 1
  {
    var owner := if user.Some? then Some(user.value.id) else None;
    r := db.InsertUrl(randomBytes, dto.originalUrl, dto.alias, dto.urlType, dto.expiresAt, owner, now);
  }
}
