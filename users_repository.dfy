/** `UsersRepository.store`: salt and hash the password, then insert the user. */
module UsersRepository {
  import opened Common
  import opened UserEntity
  import Database

  /** The registration payload. */
  datatype CreateUserDto = CreateUserDto(firstName: string, lastName: string, email: string, password: string)

  /** `salt` is the value `genSalt()` returns and `hash` is bcrypt's hash. The
      stored row keeps the salt and the digest, never the password. */
  method Store(db: Database.Store, dto: CreateUserDto, salt: string, hash: Hasher, now: Time)
    returns (r: Result<User>)
    requires db.Valid()
    modifies db
    ensures db.Valid()
    ensures r.Ok? <==> !EmailTaken(old(db.users), dto.email)
    ensures r.Err? ==> r.error == QueryFailed(Database.UniqueViolation) && unchanged(db)
    ensures r.Ok? ==>
      var u := r.value;
      && u.id == old(db.nextId) && u.id !in old(db.users)
      && u.firstName == dto.firstName && u.lastName == dto.lastName && u.email == dto.email
      && u.salt == salt && u.passwordHash == hash(dto.password, salt)
      && !u.emailConfirmed && u.emailConfirmToken == None && u.avatar == None
      && u.role == UserRole.User && u.isActive
      && u.createdAt == now && u.updatedAt == None
      && db.users == old(db.users)[u.id := u]
      && db.teams == old(db.teams) && db.urls == old(db.urls)
      && db.nextId == old(db.nextId) + 1
  {
    var passwordHash := hash(dto.password, salt);
    r := db.InsertUser(dto.firstName, dto.lastName, dto.email, salt, passwordHash, now);
  }
}
