/** `AuthService`: registration, sign-in by email and password, and the
    password change. The password digest (`bcrypt.hash`) is the parameter
    `hash`, the fresh salt of a change (`bcrypt.genSalt`) the parameter
    `salt`, and the signed token is modelled by its claims. */
module AuthService {
  import opened Common
  import opened UserEntity
  import TeamEntity
  import Database
  import UsersRepository
  import UsersService

  /** The claims of the token `signIn` issues. */
  datatype AccessToken = AccessToken(sub: Id, email: string, expiresIn: string)

  /** The lifetime every token is signed with. */
  const TokenLifetime := "1d"

  const IncorrectCredentials := "Incorrect email or password"

  const IncorrectOldPassword := "Incorrect old password"

  /** What reading `salt` off the null `getUserInfo` returns for an unknown
      id raises; it is not a BadRequest, so it is rethrown as it is. */
  const NullUserMessage := "Cannot read properties of null (reading 'salt')"

  /** Some stored user has this email and `pass` hashes, under that user's
      salt, to the stored digest. */
  predicate PasswordMatches(users: map<Id, User>, hash: Hasher, email: string, pass: string) {
    exists i :: i in users && users[i].email == email && users[i].passwordHash == hash(pass, users[i].salt)
  }

  /** `signUp`: registration exactly as `UsersService.create`; a successful
      registration can then sign in with the email and password it gave. */
  method SignUp(db: Database.Store, dto: UsersRepository.CreateUserDto, salt: string, hash: Hasher, now: Time)
    returns (r: Result<User>)
    requires db.Valid()
    modifies db
    ensures db.Valid()
    ensures EmailTaken(old(db.users), dto.email) ==>
              r == Err(BadRequest(UsersService.DuplicateEmailMessage(dto.email))) && unchanged(db)
    ensures !EmailTaken(old(db.users), dto.email) ==>
              var uid := old(db.nextId);
              var user := UserEntity.Inserted(uid, dto.firstName, dto.lastName, dto.email, salt, hash(dto.password, salt), now);
              && uid !in old(db.users)
              && db.users == old(db.users)[uid := user]
              && db.urls == old(db.urls)
              && if db.teamNameUnique && TeamEntity.NameTaken(old(db.teams), UsersService.HomeTeamName) then
                   r == Err(Failed(Database.UniqueViolation)) && db.teams == old(db.teams) && db.nextId == uid + 1
                 else
                   && r == Ok(user)
                   && uid + 1 !in old(db.teams) && db.nextId == uid + 2
                   && db.teams == old(db.teams)[uid + 1 := TeamEntity.Inserted(uid + 1, UsersService.HomeTeamName, None, {uid}, now)]
    ensures r.Ok? && dto.email != "" && dto.password != "" ==>
              SignIn(db.users, hash, dto.email, dto.password) == Ok(AccessToken(r.value.id, dto.email, TokenLifetime))
  {
    r := UsersService.Create(db, dto, salt, hash, now);
    if r.Ok? {
      assert db.users[r.value.id] == r.value;
    }
  }

  /** `signIn`: a BadRequest when either field is empty; otherwise a token
      for the user with that email when the password matches, and the one
      Unauthorized answer for an unknown email and a wrong password alike. */
  function SignIn(users: map<Id, User>, hash: Hasher, email: string, pass: string): (r: Result<AccessToken>)
    requires KeyedById(users) && EmailsUnique(users)
    ensures r.Ok? <==> email != "" && pass != "" && PasswordMatches(users, hash, email, pass)
    ensures email == "" || pass == "" ==> r == Err(BadRequest("Bad Request"))
    ensures email != "" && pass != "" && r.Err? ==> r == Err(Unauthorized(IncorrectCredentials))
    ensures r.Ok? ==> && r.value.sub in users && users[r.value.sub].email == email
                      && r.value.email == email && r.value.expiresIn == TokenLifetime
  {
    if email == "" || pass == "" then
      Err(BadRequest("Bad Request"))
    else
      match UsersService.FindUserByEmail(users, email)
      case Err(_) => Err(Unauthorized(IncorrectCredentials))
      case Ok(user) =>
        if user.passwordHash != hash(pass, user.salt) then
          Err(Unauthorized(IncorrectCredentials))
        else
          Ok(AccessToken(user.id, user.email, TokenLifetime))
  }

  /** A stored user signs in with the password whose digest is stored. */
  lemma StoredUserSignsIn(users: map<Id, User>, hash: Hasher, id: Id, pass: string)
    requires KeyedById(users) && EmailsUnique(users)
    requires id in users && users[id].email != "" && pass != ""
    requires users[id].passwordHash == hash(pass, users[id].salt)
    ensures SignIn(users, hash, users[id].email, pass) == Ok(AccessToken(id, users[id].email, TokenLifetime))
  {
    var r := SignIn(users, hash, users[id].email, pass);
    assert users[r.value.sub].email == users[id].email;
  }

  /** `changePassword`: an unknown id fails on the null user; a wrong old
      password is a BadRequest; otherwise the digest of the new password
      under a fresh salt replaces the stored digest and salt. Afterwards the
      new password signs in, and the old one only when it hashes to the same
      digest under the new salt. */
  method ChangePassword(db: Database.Store, userId: Id, oldPassword: string, newPassword: string,
                        salt: string, hash: Hasher)
    returns (r: Result<()>)
    requires db.Valid()
    modifies db`users
    ensures db.Valid()
    ensures userId !in old(db.users) ==> r == Err(Failed(NullUserMessage)) && db.users == old(db.users)
    ensures userId in old(db.users) ==>
              var before := old(db.users)[userId];
              if before.passwordHash != hash(oldPassword, before.salt) then
                r == Err(BadRequest(IncorrectOldPassword)) && db.users == old(db.users)
              else
                && r == Ok(())
                && db.users == old(db.users)[userId := before.(passwordHash := hash(newPassword, salt), salt := salt)]
    ensures r.Ok? ==>
              var email := db.users[userId].email;
              && (email != "" && newPassword != "" ==>
                    SignIn(db.users, hash, email, newPassword) == Ok(AccessToken(userId, email, TokenLifetime)))
              && (SignIn(db.users, hash, email, oldPassword).Ok? <==>
                    email != "" && oldPassword != "" && hash(oldPassword, salt) == hash(newPassword, salt))
  {
    var user := UsersService.GetUserInfo(db.users, userId);
    if user.None? {
      return Err(Failed(NullUserMessage));
    }
    if user.value.passwordHash != hash(oldPassword, user.value.salt) {
      return Err(BadRequest(IncorrectOldPassword));
    }
    var newPasswordHash := hash(newPassword, salt);
    UsersService.UpdatePassword(db, userId, newPasswordHash, salt);
    r := Ok(());
    var email := db.users[userId].email;
    if email != "" && newPassword != "" {
      StoredUserSignsIn(db.users, hash, userId, newPassword);
    }
    if SignIn(db.users, hash, email, oldPassword).Ok? {
      var i :| i in db.users && db.users[i].email == email && db.users[i].passwordHash == hash(oldPassword, db.users[i].salt);
      assert i == userId;
    } else if email != "" && oldPassword != "" && hash(oldPassword, salt) == hash(newPassword, salt) {
      assert db.users[userId].passwordHash == hash(oldPassword, db.users[userId].salt);
    }
  }
}
