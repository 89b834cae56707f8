/** The `url` table: the row type, the link types, the column defaults, the
    unique `code` and the two hooks. */
module UrlEntity {
  import opened Common
  import CodeGenerator

  datatype UrlType = Permanent | Temporary | OneTime

  /** One row of the `url` table. */
  datatype Url = Url(
    id: Id,
    code: string,                // unique
    originalUrl: string,
    alias: Option<string>,       // default null
    urlType: UrlType,            // default Permanent
    redirectionCount: Option<int>,  // default null
    isActive: bool,              // default true
    createdAt: Time,             // default CURRENT_TIMESTAMP
    updatedAt: Option<Time>,     // default null
    expiresAt: Option<Time>,     // default null
    user: Option<Id>,            // owner; ON DELETE SET NULL
    team: Option<Id>)            // ON DELETE CASCADE

  /** The `@BeforeInsert` hook: the code is always generated, from the six
      random bytes the generator draws. */
  function GenerateCode(randomBytes: seq<CodeGenerator.byte>): (code: string)
    requires |randomBytes| == CodeGenerator.DefaultLength
  {
    CodeGenerator.GenerateUniqueCode(randomBytes)
  }

  /** The row the database holds after inserting the given columns; missing
      ones take their defaults and `code` comes from the insert hook. */
  function Inserted(id: Id, randomBytes: seq<CodeGenerator.byte>, originalUrl: string,
                    alias: Option<string>, urlType: Option<UrlType>, expiresAt: Option<Time>,
                    user: Option<Id>, now: Time): Url
    requires |randomBytes| == CodeGenerator.DefaultLength
  {
    Url(id, GenerateCode(randomBytes), originalUrl, alias,
        if urlType.Some? then urlType.value else Permanent,
        None, true, now, None, expiresAt, user, None)
  }

  /** The `@BeforeUpdate` hook: every update stamps `updatedAt`. */
  function UpdateTimestamp(u: Url, now: Time): Url {
    u.(updatedAt := Some(now))
  }

  /** Every row is stored under its own id, and ids are below `nextId`. */
  predicate KeyedBelow(urls: map<Id, Url>, nextId: Id) {
    forall k :: k in urls ==> urls[k].id == k && k < nextId
  }

  /** The unique index on `code`. */
  predicate CodesUnique(urls: map<Id, Url>) {
    forall i, j :: i in urls && j in urls && urls[i].code == urls[j].code ==> i == j
  }

  /** Some row other than `except` has this code. */
  predicate CodeTakenByOther(urls: map<Id, Url>, code: string, except: Option<Id>) {
    exists i :: i in urls && urls[i].code == code && Some(i) != except
  }
}
