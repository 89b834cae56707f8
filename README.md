# URL shortener with teams: service layer

This project models the service layer of a NestJS/TypeORM URL shortener.
Users register and sign in. Every registration also creates a "Home" team
for the new user. Teams have a set of members. Short URLs carry a
generated hex `code`.

The relational database appears as one class, `Database.Store`. It holds
three tables as maps from row id to row: `users`, `teams` (each team
carries its member set, the `team_users_user` join) and `urls`. It also
holds the id counter and whether the unique index on `team.name` exists.
`Store.Valid()` collects what the schema guarantees:

- rows are keyed by their own id;
- emails are unique and codes are unique;
- team names are unique when that index exists;
- a team's members exist, and a url's owner and team, when set, exist.

`Store.Valid()` also requires every team to have at least one member. No
constraint on the membership join enforces that. It is an invariant of the
modelled operations: each of them creates a team with exactly one member,
and none removes members.

Each row-level operation preserves `Valid()` and states the whole new state:

- insert, with the column defaults and the `@BeforeInsert` code hook;
- `save` of a loaded row, with the `@BeforeUpdate` hook that stamps `updatedAt`;
- delete, with the foreign-key rules.

On top of the store sit:

- the three repositories, which insert one row each;
- the four services, each a method that checks and changes the store, or a
  function for the pure lookups.

`generateUniqueCode` and the `totalPages` getter are pure functions.

**Foreign pieces.**

- bcrypt's `hash` is a parameter `hash: Hasher`. It is deterministic and
  otherwise unknown.
- The salt from `genSalt`, the bytes from `randomBytes` and the clock
  reading `now` are parameters of the operations that consume them.
- A signed JWT is modelled by its claims, `AuthService.AccessToken`.
- UUIDs are natural numbers handed out by `Store.nextId`.

`getTeamByIdAndUserId`, `getUserInfo` and `updatePassword` are called
but not defined in `team.repository.ts`, `users.repository.ts` or
`users.service.ts`. They are modelled as the callers use them:

- `getTeamByIdAndUserId`: the team with that id, if the caller is a member;
- `getUserInfo`: the user with that id, or null;
- `updatePassword`: overwrites the digest and the salt.

**Behaviour of the code worth noting:**

- `changePassword` on an unknown id fails with the `TypeError` from
  reading `salt` off `null`. That error is rethrown unchanged.
- A wrong old password is thrown as "Old password is incorrect" and then
  rethrown as the BadRequest "Incorrect old password".
- `createUrl` takes no team and stores the url with no team.
- `updateTeam` checks no duplicate name. A rename collides only through the
  unique index, when that index exists.

## Model

| member | source | states |
|---|---|---|
| CodeGenerator.HexDigit | src/utils/codeGenerator.ts:9 | the digit of a nibble is a lower-case hex digit: `'0'+n` below 10, `'a'+(n-10)` from 10 |
| CodeGenerator.HexEncode | src/utils/codeGenerator.ts:9 | `toString('hex')` writes exactly two characters per byte, all lower-case hex digits |
| CodeGenerator.HexEncodeAt | src/utils/codeGenerator.ts:9 | byte `i` is written at positions `2i` (high nibble) and `2i+1` (low nibble) |
| CodeGenerator.DecodeEncode | src/utils/codeGenerator.ts:9 | hex encoding loses nothing: decoding it gives back the bytes |
| CodeGenerator.GenerateUniqueCode | src/utils/codeGenerator.ts:8-10 | the code has exactly `length` characters (6 by default), all lower-case hex. Character `i` is the high nibble of random byte `i/2` when `i` is even and its low nibble when `i` is odd |
| CodeGenerator.CodeDecodesToRandomPrefix | src/utils/codeGenerator.ts:9 | the code is a prefix of the hex encoding of the random bytes: its even-length prefix decodes to the first `length/2` bytes |
| Database.DeleteUserKeepsValid | src/url/url.entity.ts:52-54 | removing a user who is in no team, and clearing that user from the owner column of its urls, keeps every conjunct of the store invariant |
| Database.Store.InsertUser | src/users/user.entity.ts:17-57 | the insert fails with a unique violation, writing nothing, exactly when the email is taken. Otherwise it adds exactly one row with the given columns and the declared defaults: not confirmed, no token, role User, active, no avatar, `updatedAt` null |
| Database.Store.InsertTeam | src/team/team.entity.ts:14-37 | with the unique index the insert fails, writing nothing, exactly when the name is taken. Otherwise it adds exactly one team with the given name, icon and members, and `updatedAt` null |
| Database.Store.InsertUrl | src/url/url.entity.ts:21-63 | the `@BeforeInsert` hook sets the code from the generator, whatever else is supplied. The insert fails exactly when that code is in use. Otherwise the row gets type Permanent by default, is active, and has no redirection count, no `updatedAt` and no team |
| Database.Store.SaveUser | src/users/user.entity.ts:65-68 | the saved user is the given one with `updatedAt` set to now. Only that row changes, and the save fails exactly when another user has the email |
| Database.Store.SaveTeam | src/team/team.entity.ts:39-42 | the saved team is stamped with `updatedAt`. Only that row changes, and with the unique index the save fails exactly when another team has the name |
| Database.Store.SaveUrl | src/url/url.entity.ts:65-68 | the saved url is stamped with `updatedAt`. Only that row changes, and the save fails exactly when another url has the code |
| Database.Store.DeleteUser | src/url/url.entity.ts:52-54 | the membership join's `ON DELETE NO ACTION` key on `userId` (src/migrations/1723453074443-migration.ts:27) refuses to delete a user who is in a team, changing nothing. Otherwise the user goes and its urls keep their rows with the owner set to null |
| Database.Store.DeleteTeam | src/url/url.entity.ts:56-58 | deleting a team deletes exactly the urls of that team (cascade) and leaves every other url as it was |
| UsersRepository.Store | src/users/users.repository.ts:13-20 | the stored digest is `hash(password, salt)` and the stored salt is `salt`. Names and email are copied; the defaults hold. Exactly one user is added and returned; a taken email fails and writes nothing |
| TeamRepository.CreateTeam | src/team/team.repository.ts:17-22 | the new team's members are exactly `{user}`, and its name and icon come from the DTO. Exactly one team is added and returned; no existing team changes |
| UrlRepository.Store | src/url/url.repository.ts:17-21 | the stored url's `originalUrl`, alias and expiry are the DTO's. Its type is the DTO's when given, otherwise Permanent. Its owner is the given user, or null; it has no team. Exactly one url is added and returned |
| UsersService.Create | src/users/users.service.ts:22-40 | a taken email fails with "User with email X already exists" and writes nothing. Otherwise it stores the user. Then it either adds the "Home" team whose only member is that user and returns the user, or rethrows, with the same message, the error the team insert raised; the user stays stored |
| UsersService.FindUserByEmail | src/users/users.service.ts:42-53 | it returns a stored user with that email exactly when one exists; otherwise it fails with "User not found." |
| UsersService.GetUserInfo | src/users/users.service.ts:55-64 | it returns the stored user with that id exactly when one exists; otherwise null |
| UsersService.Update | src/users/users.service.ts:66-82 | an unknown id fails with NotFound "User not found" and writes nothing. Otherwise first name, last name and avatar are overwritten only when supplied non-empty, and `updatedAt` is stamped. id, email, digest, salt and role are unchanged |
| UsersService.UpdatePassword | src/auth/auth.service.ts:60 | only that user's digest and salt change |
| UsersService.SecondRegistrationAsWritten | src/team/team.entity.ts:18-21 | with the unique index on `team.name`, two registrations with distinct emails leave the second one failing with the unique violation, and its user stored in no team |
| UsersService.SecondRegistrationCorrected | src/migrations/1723797573145-migration.ts:6-10 | without that index, both registrations succeed, and every user is the only member of a "Home" team |
| TeamService.CreateTeam | src/team/team.service.ts:22-40 | a taken name fails with "Team with name X already exists" and writes nothing. Otherwise exactly one team is added, with the requested name and icon and the caller as its only member |
| TeamService.GetTeamByIdAndUserId | src/team/team.service.ts:47 | on a table whose rows are keyed by their id, it finds a team exactly when some stored team has that id and the caller among its members; the team it returns is a stored row with that id whose members include the caller |
| TeamService.UpdateTeam | src/team/team.service.ts:42-63 | NotFound "Team not found" (nothing written) unless the caller is a member. With neither field supplied non-empty it returns the team and writes nothing. Otherwise only the supplied name and icon change and `updatedAt` is stamped; id and members never change |
| UrlService.CreateUrl | src/url/url.service.ts:20-23 | the url is stored with the caller as owner, or no owner when the id names no user. Afterwards it is the one url found by its code and by its id |
| UrlService.OwnedRows | src/url/url.service.ts:30-34 | the rows the listing pages through are exactly the caller's urls, as many as there are, in ascending id order |
| UrlService.OwnedRowsComplete | src/url/url.service.ts:31 | no url of the user is missing from those rows |
| UrlService.FindUrlsByUserId | src/url/url.service.ts:25-36 | at most `limit` urls, all owned by the user, and they are the rows after the first `(page-1)*limit`. The total counts every url the user owns, whatever the page |
| UrlService.OwnedRowOnItsPage | src/url/url.service.ts:32-33 | row `i` of the listing is returned on page `i/limit + 1`, and that page is within `totalPages` |
| UrlService.PageNonEmptyIffWithinTotalPages | src/url/interceptors/paginated-urls.ts:26-28 | a page of the listing holds rows exactly when its number is at most `totalPages` |
| UrlService.FindByUrlId | src/url/url.service.ts:38-44 | it returns the url with that id exactly when one exists; otherwise it fails with NotFound "URL not found." |
| UrlService.FindByCode | src/url/url.service.ts:46-52 | it returns the url with that code, the only one, exactly when one exists; otherwise it fails with BadRequest "URL not found." |
| UrlService.UpdateUrl | src/url/url.service.ts:54-70 | an unknown id fails exactly like `findByUrlId` and writes nothing. Otherwise `originalUrl` and alias are overwritten when non-empty, and type and expiry when supplied; `updatedAt` is stamped. Code, id, owner, team and `isActive` are unchanged, and the url is still found by its code |
| Pagination.TotalPages | src/url/interceptors/paginated-urls.ts:26-28 | `totalPages * limit >= totalURLs`, `(totalPages - 1) * limit < totalURLs` when there are urls, and 0 pages for 0 urls |
| Pagination.TotalPagesIsLeast | src/url/interceptors/paginated-urls.ts:26-28 | no page count smaller than `totalPages` covers all urls, so `totalPages` is the ceiling of `totalURLs / limit` |
| AuthService.SignUp | src/auth/auth.service.ts:19-21 | the full outcome of `UsersService.create`. A taken email is a BadRequest and writes nothing. Otherwise the user is stored, and then either the "Home" team with that user as its only member is added and the user returned, or the unique violation of that insert is rethrown. After a successful registration with a non-empty email and password, `signIn` with them returns a token for the new user |
| AuthService.SignIn | src/auth/auth.service.ts:23-45 | an empty email or password is a BadRequest. Otherwise it returns a token exactly when a user with that email has the digest `hash(pass, salt)`. The token's claims are that user's id and email and a 1-day expiry. Every other failure is the single Unauthorized "Incorrect email or password" |
| AuthService.StoredUserSignsIn | src/auth/auth.service.ts:30-31 | a stored user signs in with the password whose digest under the stored salt is stored |
| AuthService.ChangePassword | src/auth/auth.service.ts:47-67 | an unknown id rethrows the null-dereference error. A wrong old password is a BadRequest "Incorrect old password" and writes nothing. Otherwise `hash(newPassword, salt)` and the fresh salt are stored. Afterwards the new password signs in, and the old one only when it hashes to the same digest under the new salt |

## Left out

- Controllers, guards, `ParseUUIDPipe` and the redirect are HTTP transport.
- DTO validation (e-mail, URL and password rules) is left out. Any input
  stands for one that passed validation.
- Serializers other than `PaginatedUrls` are left out. They only select fields.
- bcrypt, `randomBytes`, the clock and JWT signing are parameters or
  values. Token verification and token expiry are not modelled.
- The `logger.log` calls in the catch blocks of `UsersService` and
  `TeamService` only write a log line. They are not modelled.
- `async` and concurrency are not modelled. Each operation is one
  sequential step with no interleaving. There are no transactions, so
  `UsersService.Create` keeps the user when its second insert fails.
- `Date` values are an abstract clock. Each operation reads it once.
- UUIDs are a counter shared by the three tables. Ids are fresh, and they
  also fix the row order of the url listing, as the next line says; a UUID
  carries no such order.
- `deleteTeam`, `addMembers`, `removeMembers` and `UsersService.delete`
  are called by the controllers but not defined in the services.
  They are not modelled. The store's delete rules are modelled with the
  entities' foreign-key declarations.
- TypeORM's query machinery is not modelled. Each lookup the services
  make (`findOne`, `findOneBy`, `findAndCount` and the undefined
  `getTeamByIdAndUserId` and `getUserInfo`) is a read of the table maps.
- `TeamService.CreateTeam`: requires that the caller's id names a stored
  user. The source would pass a null user into the join.
- `findAndCount` has no `order`, so the database promises no row order,
  and none that stays the same from one page query to the next.
  UrlService.FindUrlsByUserId, UrlService.OwnedRows and
  UrlService.OwnedRowOnItsPage fix that order as ascending id, that is,
  insertion order. What OwnedRowOnItsPage states holds only while that
  order is stable.
- Database.Store.SaveUser, SaveTeam, SaveUrl:
  - every `save` of a loaded row stamps `updatedAt`;
  - TypeORM skips the UPDATE, and so the hook, when no column changed;
    that case is not modelled.
- UsersService.Update: stamps `updatedAt` even when the patch changes no
  column, through `SaveUser`; TypeORM would skip the update and the hook.
- TeamService.UpdateTeam: stamps `updatedAt` even when the supplied fields
  equal the stored ones, through `SaveTeam`; TypeORM would skip the hook.
- UrlService.UpdateUrl: stamps `updatedAt` even when the patch changes no
  column, through `SaveUrl`; TypeORM would skip the update and the hook.
- `Math.ceil` acts on a floating-point quotient. Pagination.TotalPages
  computes the same value with integer division, for `limit >= 1`.
- Page and limit arrive from the query string and may be strings. The
  model assumes `page >= 1` and `limit >= 1`.
- The controller passes a `teamId` to `createUrl`, and `signInDto.username`
  to `signIn`. Neither matches the service signatures, and the model does
  not reconcile them.

## Findings

| source | as written | input that shows it | evidently intended | confidence | as-written member | corrected member |
|---|---|---|---|---|---|---|
| src/team/team.entity.ts:18-21 | `team.name` is declared unique and the schema is synchronized from the entities. Every registration inserts a team called "Home", so only the first registration can succeed (src/users/users.service.ts:31-39). | register two users with distinct emails: the second user is stored, the "Home" insert fails on the unique index, and registration fails with that user in no team (test/team.e2e-spec.ts:230-233 expects the second registration to succeed) | team names not unique in the database, which migration 1723797573145 brings about by dropping the index, and every registration succeeds with its own "Home" team | not executed | UsersService.SecondRegistrationAsWritten | UsersService.SecondRegistrationCorrected |
