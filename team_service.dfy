/** `TeamService`: team creation with a duplicate-name check, and the
    membership-gated partial update. */
module TeamService {
  import opened Common
  import opened UserEntity
  import opened TeamEntity
  import Database
  import TeamRepository

  datatype UpdateTeamDto = UpdateTeamDto(name: Option<string>, icon: Option<string>)

  function DuplicateNameMessage(name: string): string {
    "Team with name " + name + " already exists"
  }

  /** `createTeam`: refuse a name some team already has; otherwise insert
      a team whose only member is the caller. The caller's id comes from a
      verified token and names a stored user. */
  method CreateTeam(db: Database.Store, dto: TeamRepository.CreateTeamDto, userId: Id, now: Time)
    returns (r: Result<Team>)
    requires db.Valid()
    requires userId in db.users
    modifies db
    ensures db.Valid()
    ensures db.users == old(db.users) && db.urls == old(db.urls)
    ensures NameTaken(old(db.teams), dto.name) ==>
              r == Err(BadRequest(DuplicateNameMessage(dto.name))) && unchanged(db)
    ensures !NameTaken(old(db.teams), dto.name) ==>
              && r.Ok?
              && r.value.id == old(db.nextId) && r.value.id !in old(db.teams)
              && r.value.name == dto.name && r.value.icon == dto.icon
              && r.value.users == {userId}
              && r.value.updatedAt == None
              && db.teams == old(db.teams)[r.value.id := r.value]
              && db.nextId == old(db.nextId) + 1
  {
    if NameTaken(db.teams, dto.name) {
      return Err(BadRequest(DuplicateNameMessage(dto.name)));
    }
    var user := db.users[userId];
    assert user.id == userId;
    r := TeamRepository.CreateTeam(db, dto, user, now);
  }

  /** The caller is one of the team's members. */
  predicate IsMember(teams: map<Id, Team>, teamId: Id, userId: Id) {
    teamId in teams && userId in teams[teamId].users
  }

  /** The membership-scoped lookup `getTeamByIdAndUserId`, which
      `team.service.ts` calls and `team.repository.ts` does not define: the
      stored team with that id, provided the caller is one of its members. */
  function GetTeamByIdAndUserId(teams: map<Id, Team>, teamId: Id, userId: Id): (r: Option<Team>)
    requires TeamsById(teams)
    ensures r.Some? <==> exists k :: k in teams && teams[k].id == teamId && userId in teams[k].users
    ensures r.Some? ==> r.value in teams.Values && r.value.id == teamId && userId in r.value.users
  {
    if IsMember(teams, teamId, userId) then Some(teams[teamId]) else None
  }

  /** The team after `updateTeam`'s field assignments: name and icon are
      overwritten when supplied non-empty. */
  function PatchedTeam(t: Team, dto: UpdateTeamDto): Team {
    t.(name := OrKeep(dto.name, t.name),
       icon := if Truthy(dto.icon) then Some(dto.icon.value) else t.icon)
  }


  /** `updateTeam`: NotFound unless the caller is a member; with nothing to
      change the loaded team is returned and nothing is written; otherwise
      the patched team is saved, which stamps `updatedAt` and fails when
      the new name is another team's under the unique index. */
  method UpdateTeam(db: Database.Store, userId: Id, teamId: Id, dto: UpdateTeamDto, now: Time)
    returns (r: Result<Team>)
    requires db.Valid()
    modifies db
    ensures db.Valid()
    ensures db.users == old(db.users) && db.urls == old(db.urls) && db.nextId == old(db.nextId)
    ensures !IsMember(old(db.teams), teamId, userId) ==>
              r == Err(NotFound("Team not found")) && unchanged(db)
    ensures IsMember(old(db.teams), teamId, userId) && !Truthy(dto.name) && !Truthy(dto.icon) ==>
              r == Ok(old(db.teams)[teamId]) && unchanged(db)
    ensures IsMember(old(db.teams), teamId, userId) && (Truthy(dto.name) || Truthy(dto.icon)) ==>
              var before := old(db.teams)[teamId];
              var after := PatchedTeam(before, dto);
              if db.teamNameUnique && NameTakenByOther(old(db.teams), after.name, Some(teamId)) then
                r == Err(QueryFailed(Database.UniqueViolation)) && unchanged(db)
              else
                && r == Ok(TeamEntity.UpdateTimestamp(after, now))
                && db.teams == old(db.teams)[teamId := r.value]
                && r.value.id == teamId && r.value.users == before.users
                && r.value.createdAt == before.createdAt
                && r.value.updatedAt == Some(now)
  {
    var found := GetTeamByIdAndUserId(db.teams, teamId, userId);
    if found.None? {
      return Err(NotFound("Team not found"));
    }
    var team := found.value;
    if Truthy(dto.name) || Truthy(dto.icon) {
      if Truthy(dto.name) {
        team := team.(name := dto.name.value);
      }
      if Truthy(dto.icon) {
        team := team.(icon := Some(dto.icon.value));
      }
      r := db.SaveTeam(team, now);
      return;
    }
    r := Ok(team);
  }
}
