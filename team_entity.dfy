/** The `team` table: the row type, its defaults, the membership join and the
    unique `name` column. */
module TeamEntity {
  import opened Common

  /** One row of the `team` table together with its rows of the
      `team_users_user` join: `users` is the set of member ids. */
  datatype Team = Team(
    id: Id,
    name: string,          // declared unique
    icon: Option<string>,  // default null
    createdAt: Time,       // default CURRENT_TIMESTAMP
    updatedAt: Option<Time>,  // default null
    users: set<Id>)

  /** The row the database holds after inserting the given columns. */
  function Inserted(id: Id, name: string, icon: Option<string>, users: set<Id>, now: Time): Team {
    Team(id, name, icon, now, None, users)
  }

  /** The `@BeforeUpdate` hook: every update stamps `updatedAt`. */
  function UpdateTimestamp(t: Team, now: Time): Team {
    t.(updatedAt := Some(now))
  }

  /** Every row is stored under its own id. */
  predicate TeamsById(teams: map<Id, Team>) {
    forall i :: i in teams ==> teams[i].id == i
  }

  /** The unique index on `name`. */
  predicate NamesUnique(teams: map<Id, Team>) {
    forall i, j :: i in teams && j in teams && teams[i].name == teams[j].name ==> i == j
  }

  /** Some team other than `except` is called `name`. */
  predicate NameTakenByOther(teams: map<Id, Team>, name: string, except: Option<Id>) {
    exists i :: i in teams && teams[i].name == name && Some(i) != except
  }

  predicate NameTaken(teams: map<Id, Team>, name: string) {
    NameTakenByOther(teams, name, None)
  }
}
