/** `TeamRepository.createTeam`: insert a team whose only member is the given user. */
module TeamRepository {
  import opened Common
  import opened UserEntity
  import opened TeamEntity
  import Database

  datatype CreateTeamDto = CreateTeamDto(name: string, icon: Option<string>)

  method CreateTeam(db: Database.Store, dto: CreateTeamDto, user: User, now: Time)
    returns (r: Result<Team>)
    requires db.Valid()
    requires user.id in db.users
    modifies db
    ensures db.Valid()
    ensures r.Ok? <==> !(db.teamNameUnique && NameTaken(old(db.teams), dto.name))
    ensures r.Err? ==> r.error == QueryFailed(Database.UniqueViolation) && unchanged(db)
    ensures r.Ok? ==>
      var t := r.value;
      && t.id == old(db.nextId) && t.id !in old(db.teams)
      && t.name == dto.name && t.icon == dto.icon && t.users == {user.id}
      && t.createdAt == now && t.updatedAt == None
      && db.teams == old(db.teams)[t.id := t]
      && db.users == old(db.users) && db.urls == old(db.urls)
      && db.nextId == old(db.nextId) + 1
  {
    r := db.InsertTeam(dto.name, dto.icon, {user.id}, now);
  }
}
