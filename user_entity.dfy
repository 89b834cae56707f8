/** The `user` table: the row type, its column defaults and the uniqueness of
    `email`. */
module UserEntity {
  import opened Common

  datatype UserRole = Admin | User

  /** One row of the `user` table. The `urls` and `teams` relations are held
      on the other side (`Url.user`, `Team.users`). */
  datatype User = User(
    id: Id,
    firstName: string,
    lastName: string,
    email: string,                      // unique
    emailConfirmed: bool,               // default false
    emailConfirmToken: Option<string>,  // default null
    passwordHash: string,
    salt: string,
    role: UserRole,                     // default User
    isActive: bool,                     // default true
    avatar: Option<string>,             // default null
    createdAt: Time,                    // default CURRENT_TIMESTAMP
    updatedAt: Option<Time>)            // default null

  /** The row the database holds after inserting the given columns: every
      column not supplied takes its declared default. */
  function Inserted(id: Id, firstName: string, lastName: string, email: string,
                    salt: string, passwordHash: string, now: Time): User
  {
    User.User(id, firstName, lastName, email, false, None, passwordHash, salt,
         UserRole.User, true, None, now, None)
  }

  /** The `@BeforeUpdate` hook: every update stamps `updatedAt`. */
  function UpdateTimestamp(u: User, now: Time): User {
    u.(updatedAt := Some(now))
  }

  /** Every row is stored under its own id. */
  predicate KeyedById(users: map<Id, User>) {
    forall i :: i in users ==> users[i].id == i
  }

  /** The unique index on `email`. */
  predicate EmailsUnique(users: map<Id, User>) {
    forall i, j :: i in users && j in users && users[i].email == users[j].email ==> i == j
  }

  /** Some user other than `except` has this email. */
  predicate EmailTakenByOther(users: map<Id, User>, email: string, except: Option<Id>) {
    exists i :: i in users && users[i].email == email && Some(i) != except
  }

  predicate EmailTaken(users: map<Id, User>, email: string) {
    EmailTakenByOther(users, email, None)
  }
}
