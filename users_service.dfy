/** `UsersService`: registration with its automatic "Home" team, lookup by
    email, lookup by id, and the partial profile update. */
module UsersService {
  import opened Common
  import opened UserEntity
  import opened TeamEntity
  import Database
  import UsersRepository
  import TeamRepository

  /** The name of the team every registration creates. */
  const HomeTeamName := "Home"

  datatype UpdateUserDto = UpdateUserDto(firstName: Option<string>, lastName: Option<string>, avatar: Option<string>)

  function DuplicateEmailMessage(email: string): string {
    "User with email " + email + " already exists"
  }

  /** `create`: refuse a taken email; otherwise store the user, then a "Home"
      team whose only member is that user. The two inserts are not one
      transaction: when the second fails the user stays stored and the
      error is rethrown with its message. */
  method Create(db: Database.Store, dto: UsersRepository.CreateUserDto, salt: string, hash: Hasher, now: Time)
    returns (r: Result<User>)
    requires db.Valid()
    modifies db
    ensures db.Valid()
    ensures EmailTaken(old(db.users), dto.email) ==>
              r == Err(BadRequest(DuplicateEmailMessage(dto.email))) && unchanged(db)
    ensures !EmailTaken(old(db.users), dto.email) ==>
              var uid := old(db.nextId);
              var user := UserEntity.Inserted(uid, dto.firstName, dto.lastName, dto.email, salt, hash(dto.password, salt), now);
              && uid !in old(db.users)
              && db.users == old(db.users)[uid := user]
              && db.urls == old(db.urls)
              && if db.teamNameUnique && NameTaken(old(db.teams), HomeTeamName) then
                   r == Err(Failed(Database.UniqueViolation)) && db.teams == old(db.teams) && db.nextId == uid + 1
                 else
                   && r == Ok(user)
                   && uid + 1 !in old(db.teams) && db.nextId == uid + 2
                   && db.teams == old(db.teams)[uid + 1 := TeamEntity.Inserted(uid + 1, HomeTeamName, None, {uid}, now)]
  {
    if EmailTaken(db.users, dto.email) {
      return Err(BadRequest(DuplicateEmailMessage(dto.email)));
    }
    var createdUser := UsersRepository.Store(db, dto, salt, hash, now);
    match createdUser {
      case Err(e) =>
        return Err(Failed(e.message));
      case Ok(user) =>
        var team := TeamRepository.CreateTeam(db, TeamRepository.CreateTeamDto(HomeTeamName, None), user, now);
        match team {
          case Err(e) => return Err(Failed(e.message));
          case Ok(_) => return Ok(user);
        }
    }
  }

  /** `findUserByEmail`: the user with that email, or "User not found.". */
  function FindUserByEmail(users: map<Id, User>, email: string): (r: Result<User>)
    requires EmailsUnique(users)
    ensures r.Ok? <==> EmailTaken(users, email)
    ensures r.Ok? ==> r.value in users.Values && r.value.email == email
    ensures r.Err? ==> r.error == Failed("User not found.")
  {
    if EmailTaken(users, email) then
      var i :| i in users && users[i].email == email;
      Ok(users[i])
    else
      Err(Failed("User not found."))
  }

  /** `getUserInfo`, through the repository lookup by id: the row, or null. */
  function GetUserInfo(users: map<Id, User>, userId: Id): (r: Option<User>)
    requires KeyedById(users)
    ensures r.Some? <==> userId in users
    ensures r.Some? ==> r.value in users.Values && r.value.id == userId
  {
    if userId in users then Some(users[userId]) else None
  }

  /** The profile after `update`: each of the three fields is overwritten
      when the patch supplies a non-empty value. */
  function Patched(u: User, dto: UpdateUserDto): User {
    u.(firstName := OrKeep(dto.firstName, u.firstName),
       lastName := OrKeep(dto.lastName, u.lastName),
       avatar := if Truthy(dto.avatar) then dto.avatar else u.avatar)
  }

  /** `update`: NotFound for an unknown id; otherwise patch the loaded row
      and save it, which stamps `updatedAt`. */
  method Update(db: Database.Store, userId: Id, dto: UpdateUserDto, now: Time) returns (r: Result<User>)
    requires db.Valid()
    modifies db
    ensures db.Valid()
    ensures db.teams == old(db.teams) && db.urls == old(db.urls) && db.nextId == old(db.nextId)
    ensures userId !in old(db.users) ==> r == Err(NotFound("User not found")) && unchanged(db)
    ensures userId in old(db.users) ==>
              var before := old(db.users)[userId];
              && r == Ok(UserEntity.UpdateTimestamp(Patched(before, dto), now))
              && db.users == old(db.users)[userId := r.value]
              && r.value.id == before.id && r.value.email == before.email
              && r.value.passwordHash == before.passwordHash && r.value.salt == before.salt
              && r.value.role == before.role
              && r.value.firstName == OrKeep(dto.firstName, before.firstName)
              && r.value.lastName == OrKeep(dto.lastName, before.lastName)
              && r.value.avatar == (if Truthy(dto.avatar) then dto.avatar else before.avatar)
              && r.value.updatedAt == Some(now)
  {
    if userId !in db.users {
      return Err(NotFound("User not found"));
    }
    var foundedUser := db.users[userId];
    if Truthy(dto.firstName) {
      foundedUser := foundedUser.(firstName := dto.firstName.value);
    }
    if Truthy(dto.lastName) {
      foundedUser := foundedUser.(lastName := dto.lastName.value);
    }
    if Truthy(dto.avatar) {
      foundedUser := foundedUser.(avatar := dto.avatar);
    }
    r := db.SaveUser(foundedUser, now);
  }

  /** `updatePassword`, which the sources call but do not define: the
      store write of a new digest and salt and nothing else. */
  method UpdatePassword(db: Database.Store, userId: Id, passwordHash: string, salt: string)
    requires db.Valid()
    requires userId in db.users
    modifies db`users
    ensures db.Valid()
    ensures db.users == old(db.users)[userId := old(db.users)[userId].(passwordHash := passwordHash, salt := salt)]
  {
    db.users := db.users[userId := db.users[userId].(passwordHash := passwordHash, salt := salt)];
  }

  /** Two registrations with distinct emails on the schema as declared (a
      unique index on `team.name`): the second user is stored, then its
      "Home" team collides with the first one's, so registration fails and
      leaves that user in no team. */
  method SecondRegistrationAsWritten(first: UsersRepository.CreateUserDto, second: UsersRepository.CreateUserDto,
                                     salt: string, hash: Hasher, now: Time)
    returns (r1: Result<User>, r2: Result<User>, orphaned: bool)
    requires first.email != second.email
    ensures r1.Ok? && r2 == Err(Failed(Database.UniqueViolation))
    ensures orphaned
  {
    var db := new Database.Store(true);
    r1 := Create(db, first, salt, hash, now);
    assert db.teams[1].name == HomeTeamName;
    assert !EmailTaken(db.users, second.email);
    r2 := Create(db, second, salt, hash, now);
    assert db.users[2].email == second.email;
    orphaned := exists i :: i in db.users && db.users[i].email == second.email &&
                              forall t :: t in db.teams ==> i !in db.teams[t].users;
    assert db.teams.Keys == {1};
  }

  /** The same two registrations without the unique index on `team.name`
      (the schema the migrations leave): both succeed and each user is the
      only member of a "Home" team. */
  method SecondRegistrationCorrected(first: UsersRepository.CreateUserDto, second: UsersRepository.CreateUserDto,
                                     salt: string, hash: Hasher, now: Time)
    returns (r1: Result<User>, r2: Result<User>, allHomed: bool)
    requires first.email != second.email
    ensures r1.Ok? && r2.Ok?
    ensures allHomed
  {
    var db := new Database.Store(false);
    r1 := Create(db, first, salt, hash, now);
    assert db.users.Keys == {0} && db.nextId == 2;
    assert !EmailTaken(db.users, second.email);
    r2 := Create(db, second, salt, hash, now);
    allHomed := forall i :: i in db.users ==>
                  exists t :: t in db.teams && db.teams[t].name == HomeTeamName && db.teams[t].users == {i};
    assert db.users.Keys == {0, 2};
    assert db.teams[1].users == {0} && db.teams[3].users == {2};
  }
}
