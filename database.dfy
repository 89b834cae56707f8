/** The relational store behind the three repositories: the `user`, `team`
    (with its membership join) and `url` tables, the constraints the schema
    declares, and the row-level operations the repositories use (insert,
    save of a loaded row, delete). */
module Database {
  import opened Common
  import opened UserEntity
  import opened TeamEntity
  import opened UrlEntity
  import CodeGenerator

  /** The message of a unique-index violation. */
  const UniqueViolation := "duplicate key value violates unique constraint"

  /** The message of a foreign-key violation. */
  const ForeignKeyViolation := "update or delete violates foreign key constraint"

  /** Every key is the row's own id, and was handed out before `nextId`. */
  predicate UsersKeyed(users: map<Id, User>, nextId: Id) {
    KeyedById(users) && forall i :: i in users ==> i < nextId
  }

  /** Team rows are keyed and every member exists (both from the schema);
      every team has at least one member, which no constraint enforces but
      every modelled operation keeps, since each team is created with one. */
  predicate TeamsKeyed(teams: map<Id, Team>, users: map<Id, User>, nextId: Id) {
    && TeamsById(teams)
    && forall i :: i in teams ==> i < nextId && teams[i].users != {} && teams[i].users <= users.Keys
  }

  /** Url rows are keyed and their owner and team, when set, exist. */
  predicate UrlsKeyed(urls: map<Id, Url>, users: map<Id, User>, teams: map<Id, Team>, nextId: Id) {
    && KeyedBelow(urls, nextId)
    && forall i :: i in urls ==>
      && (urls[i].user.Some? ==> urls[i].user.value in users)
      && (urls[i].team.Some? ==> urls[i].team.value in teams)
  }

  /** The invariant of a database state: what the schema guarantees, plus
      the non-empty member sets the modelled operations keep. */
  predicate TablesValid(users: map<Id, User>, teams: map<Id, Team>, urls: map<Id, Url>,
                        nextId: Id, teamNameUnique: bool)
  {
    && UsersKeyed(users, nextId)
    && TeamsKeyed(teams, users, nextId)
    && UrlsKeyed(urls, users, teams, nextId)
    && EmailsUnique(users)
    && CodesUnique(urls)
    && (teamNameUnique ==> NamesUnique(teams))
  }

  /** The `url` rows after their owner `id` is deleted (ON DELETE SET NULL). */
  function ClearOwner(urls: map<Id, Url>, id: Id): map<Id, Url> {
    map k | k in urls :: if urls[k].user == Some(id) then urls[k].(user := None) else urls[k]
  }

  /** Deleting a user who is in no team keeps every schema invariant. */
  lemma DeleteUserKeepsValid(users: map<Id, User>, teams: map<Id, Team>, urls: map<Id, Url>,
                             nextId: Id, teamNameUnique: bool, id: Id)
    requires TablesValid(users, teams, urls, nextId, teamNameUnique)
    requires forall t :: t in teams ==> id !in teams[t].users
    ensures TablesValid(users - {id}, teams, ClearOwner(urls, id), nextId, teamNameUnique)
  {
    var cleared := ClearOwner(urls, id);
    assert forall k :: k in cleared ==> cleared[k].code == urls[k].code;
  }

  class Store {
    var users: map<Id, User>
    var teams: map<Id, Team>
    var urls: map<Id, Url>
    /** The id the next inserted row receives. */
    var nextId: Id
    /** Whether the unique index on `team.name` exists. */
    const teamNameUnique: bool

    ghost predicate Valid()
      reads this
    {
      TablesValid(users, teams, urls, nextId, teamNameUnique)
    }

    /** An empty database. */
    constructor (teamNameUnique: bool)
      ensures Valid()
      ensures users == map[] && teams == map[] && urls == map[] && nextId == 0
      ensures this.teamNameUnique == teamNameUnique
    {
      users, teams, urls, nextId := map[], map[], map[], 0;
      this.teamNameUnique := teamNameUnique;
    }

    /** INSERT into `user`; fails on a duplicate email. */
    method InsertUser(firstName: string, lastName: string, email: string,
                      salt: string, passwordHash: string, now: Time) returns (r: Result<User>)
      requires Valid()
      modifies this
      ensures Valid()
      ensures r.Ok? <==> !EmailTaken(old(users), email)
      ensures r.Err? ==> r.error == QueryFailed(UniqueViolation) && unchanged(this)
      ensures r.Ok? ==>
        && r.value == UserEntity.Inserted(old(nextId), firstName, lastName, email, salt, passwordHash, now)
        && users == old(users)[r.value.id := r.value]
        && teams == old(teams) && urls == old(urls) && nextId == old(nextId) + 1
    {
      if EmailTaken(users, email) {
        return Err(QueryFailed(UniqueViolation));
      }
      var u := UserEntity.Inserted(nextId, firstName, lastName, email, salt, passwordHash, now);
      users := users[nextId := u];
      nextId := nextId + 1;
      r := Ok(u);
    }

    /** INSERT into `team` and its membership join; fails on a duplicate
        name when the unique index exists. */
    method InsertTeam(name: string, icon: Option<string>, members: set<Id>, now: Time)
      returns (r: Result<Team>)
      requires Valid()
      requires members != {} && members <= users.Keys
      modifies this
      ensures Valid()
      ensures r.Ok? <==> !(teamNameUnique && NameTaken(old(teams), name))
      ensures r.Err? ==> r.error == QueryFailed(UniqueViolation) && unchanged(this)
      ensures r.Ok? ==>
        && r.value == TeamEntity.Inserted(old(nextId), name, icon, members, now)
        && teams == old(teams)[r.value.id := r.value]
        && users == old(users) && urls == old(urls) && nextId == old(nextId) + 1
    {
      if teamNameUnique && NameTaken(teams, name) {
        return Err(QueryFailed(UniqueViolation));
      }
      var t := TeamEntity.Inserted(nextId, name, icon, members, now);
      teams := teams[nextId := t];
      nextId := nextId + 1;
      r := Ok(t);
    }

    /** INSERT into `url`, running the code-generating hook first; fails when
        the generated code is already in use. */
    method InsertUrl(randomBytes: seq<CodeGenerator.byte>, originalUrl: string, alias: Option<string>,
                     urlType: Option<UrlType>, expiresAt: Option<Time>, user: Option<Id>, now: Time)
      returns (r: Result<Url>)
      requires Valid()
      requires |randomBytes| == CodeGenerator.DefaultLength
      requires user.Some? ==> user.value in users
      modifies this
      ensures Valid()
      ensures r.Ok? <==> !CodeTakenByOther(old(urls), GenerateCode(randomBytes), None)
      ensures r.Err? ==> r.error == QueryFailed(UniqueViolation) && unchanged(this)
      ensures r.Ok? ==>
        && r.value == UrlEntity.Inserted(old(nextId), randomBytes, originalUrl, alias, urlType, expiresAt, user, now)
        && urls == old(urls)[r.value.id := r.value]
        && users == old(users) && teams == old(teams) && nextId == old(nextId) + 1
    {
      var u := UrlEntity.Inserted(nextId, randomBytes, originalUrl, alias, urlType, expiresAt, user, now);
      if CodeTakenByOther(urls, u.code, None) {
        return Err(QueryFailed(UniqueViolation));
      }
      urls := urls[nextId := u];
      nextId := nextId + 1;
      r := Ok(u);
    }

    /** `save` of a loaded user: the update hook stamps `updatedAt`, then the
        row is written back; fails when another user has the email. */
    method SaveUser(u: User, now: Time) returns (r: Result<User>)
      requires Valid()
      requires u.id in users
      modifies this`users
      ensures Valid()
      ensures r.Ok? <==> !EmailTakenByOther(old(users), u.email, Some(u.id))
      ensures r.Err? ==> r.error == QueryFailed(UniqueViolation) && users == old(users)
      ensures r.Ok? ==> r.value == UserEntity.UpdateTimestamp(u, now) && users == old(users)[u.id := r.value]
    {
      if EmailTakenByOther(users, u.email, Some(u.id)) {
        return Err(QueryFailed(UniqueViolation));
      }
      var saved := UserEntity.UpdateTimestamp(u, now);
      users := users[u.id := saved];
      r := Ok(saved);
    }

    /** `save` of a loaded team whose membership is as loaded; fails on a
        name another team has when the unique index exists. */
    method SaveTeam(t: Team, now: Time) returns (r: Result<Team>)
      requires Valid()
      requires t.id in teams && t.users == teams[t.id].users
      modifies this`teams
      ensures Valid()
      ensures r.Ok? <==> !(teamNameUnique && NameTakenByOther(old(teams), t.name, Some(t.id)))
      ensures r.Err? ==> r.error == QueryFailed(UniqueViolation) && teams == old(teams)
      ensures r.Ok? ==> r.value == TeamEntity.UpdateTimestamp(t, now) && teams == old(teams)[t.id := r.value]
    {
      if teamNameUnique && NameTakenByOther(teams, t.name, Some(t.id)) {
        return Err(QueryFailed(UniqueViolation));
      }
      var saved := TeamEntity.UpdateTimestamp(t, now);
      teams := teams[t.id := saved];
      r := Ok(saved);
    }

    /** `save` of a loaded url whose owner and team are as loaded; fails when
        another row has the code. */
    method SaveUrl(u: Url, now: Time) returns (r: Result<Url>)
      requires Valid()
      requires u.id in urls && u.user == urls[u.id].user && u.team == urls[u.id].team
      modifies this`urls
      ensures Valid()
      ensures r.Ok? <==> !CodeTakenByOther(old(urls), u.code, Some(u.id))
      ensures r.Err? ==> r.error == QueryFailed(UniqueViolation) && urls == old(urls)
      ensures r.Ok? ==> r.value == UrlEntity.UpdateTimestamp(u, now) && urls == old(urls)[u.id := r.value]
    {
      if CodeTakenByOther(urls, u.code, Some(u.id)) {
        return Err(QueryFailed(UniqueViolation));
      }
      var saved := UrlEntity.UpdateTimestamp(u, now);
      urls := urls[u.id := saved];
      r := Ok(saved);
    }

    /** DELETE from `user`. The membership join's key on `userId` refuses it
        (ON DELETE NO ACTION, migration 1723453074443) while the user is in a team; otherwise the user's urls lose their owner
        (SET NULL). */
    method DeleteUser(id: Id) returns (r: Result<()>)
      requires Valid()
      modifies this`users, this`urls
      ensures Valid()
      ensures r.Ok? <==> !(exists t :: t in old(teams) && id in old(teams)[t].users)
      ensures r.Err? ==> r.error == QueryFailed(ForeignKeyViolation) && unchanged(this)
      ensures r.Ok? ==> users == old(users) - {id}
      ensures r.Ok? ==> urls.Keys == old(urls).Keys
      ensures r.Ok? ==> forall k :: k in urls ==>
                urls[k] == if old(urls)[k].user == Some(id) then old(urls)[k].(user := None) else old(urls)[k]
    {
      if exists t :: t in teams && id in teams[t].users {
        return Err(QueryFailed(ForeignKeyViolation));
      }
      var cleared := ClearOwner(urls, id);
      DeleteUserKeepsValid(users, teams, urls, nextId, teamNameUnique, id);
      users := users - {id};
      urls := cleared;
      r := Ok(());
    }

    /** DELETE from `team`: its membership rows go with it and its urls are
        deleted (CASCADE). */
    method DeleteTeam(id: Id)
      requires Valid()
      modifies this`teams, this`urls
      ensures Valid()
      ensures teams == old(teams) - {id}
      ensures urls == map k | k in old(urls) && old(urls)[k].team != Some(id) :: old(urls)[k]
    {
      teams := teams - {id};
      urls := map k | k in urls && urls[k].team != Some(id) :: urls[k];
    }
  }
}
