/** The SQLite-backed store (database/AegisPasswordDatabase.java): five tables composed into
    users, teams and entries. Every public call runs its helper as one transaction: the state
    of all five tables is remembered first and put back when a step fails. */
module AegisPasswordDatabase {
  import opened Wrappers
  import opened Sets
  import opened Sqlite
  import opened Model
  import opened UserTable
  import opened TeamTable
  import opened EntryTable
  import opened TeamEntryTable
  import opened TeamUserTable
  import PasswordDatabase

  type Store = PasswordDatabase.Store

  class AegisPasswordDatabase {
    const userTable: UserTable
    const teamTable: TeamTable
    const entryTable: EntryTable
    const teamEntryTable: TeamEntryTable
    const teamUserTable: TeamUserTable

    /** The contents of the five tables. */
    ghost function State(): Store
      reads this, userTable, teamTable, entryTable, teamEntryTable, teamUserTable
    {
      PasswordDatabase.Store(userTable.rows, teamTable.rows, entryTable.rows, teamEntryTable.rows, teamUserTable.rows)
    }

    ghost predicate Valid()
      reads this, userTable, teamTable, entryTable, teamEntryTable, teamUserTable
    {
      PasswordDatabase.Valid(State())
    }

    /** Opens the database file: the five tables are wrapped with the rows the file holds, which
        the schema's unique constraints keep valid. Nothing is created or emptied. */
    constructor(stored: Store)
      requires PasswordDatabase.Valid(stored)
      ensures Valid() && State() == stored
      ensures fresh(userTable) && fresh(teamTable) && fresh(entryTable) && fresh(teamEntryTable) && fresh(teamUserTable)
    {
      userTable := new UserTable(stored.users);
      teamTable := new TeamTable(stored.teams);
      entryTable := new EntryTable(stored.entries);
      teamEntryTable := new TeamEntryTable(stored.teamEntries);
      teamUserTable := new TeamUserTable(stored.teamUsers);
    }

    /** Drops and recreates every table; not run as a transaction. */
    method Reset()
      modifies userTable, teamTable, entryTable, teamEntryTable, teamUserTable
      ensures Valid() && State() == PasswordDatabase.Empty()
    {
      userTable.rows := map[];
      teamTable.rows := map[];
      entryTable.rows := map[];
      teamEntryTable.rows := [];
      teamUserTable.rows := map[];
    }

    // ------------------------------------------------------------ transactions

    /** Start of a transaction: the state a rollback returns to. */
    method Begin() returns (saved: Store)
      ensures saved == State()
    {
      saved := PasswordDatabase.Store(userTable.rows, teamTable.rows, entryTable.rows, teamEntryTable.rows, teamUserTable.rows);
    }

    /** `con.rollback()`: every write since the transaction began is undone. */
    method Rollback(saved: Store)
      modifies userTable, teamTable, entryTable, teamEntryTable, teamUserTable
      ensures State() == saved
    {
      userTable.rows := saved.users;
      teamTable.rows := saved.teams;
      entryTable.rows := saved.entries;
      teamEntryTable.rows := saved.teamEntries;
      teamUserTable.rows := saved.teamUsers;
    }

    // ------------------------------------------------------------ join-row loops

    /** One TeamUser row (uid, tid, teams[tid]) per team of the map. */
    method AddUserToTeams(uid: int, teams: map<int, TeamUserInfo>)
      modifies teamUserTable
      ensures teamUserTable.rows == AddUserTeams(old(teamUserTable.rows), uid, teams)
    {
      var todo := teams.Keys;
      while todo != {}
        invariant todo <= teams.Keys
        invariant forall k :: k in teamUserTable.rows <==>
          k in old(teamUserTable.rows) || (k.0 == uid && k.1 in teams && k.1 !in todo)
        invariant forall k :: k in teamUserTable.rows ==>
          teamUserTable.rows[k] == (if k.0 == uid && k.1 in teams && k.1 !in todo then teams[k.1] else old(teamUserTable.rows)[k])
        decreases |todo|
      {
        ghost var member := NonEmptyHasMember(todo);
        var tid :| tid in todo;
        teamUserTable.AddTeamAndUser(tid, uid, teams[tid]);
        todo := todo - {tid};
      }
      assert teamUserTable.rows.Keys == AddUserTeams(old(teamUserTable.rows), uid, teams).Keys;
    }

    /** One TeamUser row (users[uid], tid) per member of the map. */
    method AddUsersToTeam(tid: int, users: map<int, TeamUserInfo>)
      modifies teamUserTable
      ensures teamUserTable.rows == AddTeamUsers(old(teamUserTable.rows), tid, users)
    {
      var todo := users.Keys;
      while todo != {}
        invariant todo <= users.Keys
        invariant forall k :: k in teamUserTable.rows <==>
          k in old(teamUserTable.rows) || (k.1 == tid && k.0 in users && k.0 !in todo)
        invariant forall k :: k in teamUserTable.rows ==>
          teamUserTable.rows[k] == (if k.1 == tid && k.0 in users && k.0 !in todo then users[k.0] else old(teamUserTable.rows)[k])
        decreases |todo|
      {
        ghost var member := NonEmptyHasMember(todo);
        var uid :| uid in todo;
        teamUserTable.AddTeamAndUser(tid, uid, users[uid]);
        todo := todo - {uid};
      }
      assert teamUserTable.rows.Keys == AddTeamUsers(old(teamUserTable.rows), tid, users).Keys;
    }

    /** One TeamEntry row (eid, tid) per listed entry, in list order. */
    method AddEntriesToTeam(tid: int, entries: seq<int>)
      requires teamEntryTable.Valid()
      modifies teamEntryTable
      ensures teamEntryTable.Valid()
      ensures teamEntryTable.rows == AddTeamEntries(old(teamEntryTable.rows), tid, entries)
    {
      for i := 0 to |entries|
        invariant teamEntryTable.Valid()
        invariant teamEntryTable.rows == AddTeamEntries(old(teamEntryTable.rows), tid, entries[..i])
      {
        assert entries[..i + 1][..i] == entries[..i];
        teamEntryTable.AddTeamAndEntry(tid, entries[i]);
      }
      assert entries[..|entries|] == entries;
    }

    // ------------------------------------------------------------ creates

    method CreateUserHelper(user: NoIDAegisUser) returns (r: Result<int, SQLException>)
      requires Valid()
      modifies userTable, teamUserTable
      ensures r.Ok? <==> PasswordDatabase.CreateUser(old(State()), user).1.Some?
      ensures r.Ok? ==> (r.value == PasswordDatabase.CreateUser(old(State()), user).1.value
                       && State() == PasswordDatabase.InsertUser(old(State()), user, r.value))
    {
      var added := userTable.AddUser(user);
      if added.Err? {
        return Err(added.error);
      }
      AddUserToTeams(added.value, user.teams);
      r := Ok(added.value);
    }

    /** createUser: the new user's id, or nothing with every write undone. */
    method CreateUser(user: NoIDAegisUser) returns (r: Option<int>)
      requires Valid()
      modifies userTable, teamTable, entryTable, teamEntryTable, teamUserTable
      ensures Valid()
      ensures (State(), r) == PasswordDatabase.CreateUser(old(State()), user)
    {
      PasswordDatabase.CreatesPreserveValid(State(), user, NoIDAegisTeam(TeamInfo(""), [], map[]),
                                            NoIDAegisEntry(EntryInfo("", "", "", ""), 0));
      var saved := Begin();
      var result := CreateUserHelper(user);
      if result.Ok? {
        r := Some(result.value);
      } else {
        Rollback(saved);
        r := None;
      }
    }

    method CreateEntryHelper(entry: NoIDAegisEntry) returns (r: Result<int, SQLException>)
      requires Valid()
      modifies entryTable, teamEntryTable
      ensures r.Ok? <==> PasswordDatabase.CreateEntry(old(State()), entry).1.Some?
      ensures r.Ok? ==> (r.value == PasswordDatabase.CreateEntry(old(State()), entry).1.value
                       && State() == PasswordDatabase.InsertEntry(old(State()), entry, r.value))
    {
      var added := entryTable.AddEntry(entry);
      if added.Err? {
        return Err(added.error);
      }
      teamEntryTable.AddTeamAndEntry(entry.team, added.value);
      r := Ok(added.value);
    }

    /** createEntry: the new entry's id, or nothing with every write undone. */
    method CreateEntry(entry: NoIDAegisEntry) returns (r: Option<int>)
      requires Valid()
      modifies userTable, teamTable, entryTable, teamEntryTable, teamUserTable
      ensures Valid()
      ensures (State(), r) == PasswordDatabase.CreateEntry(old(State()), entry)
    {
      PasswordDatabase.CreatesPreserveValid(State(), NoIDAegisUser(UserInfo("", "", "", "", "", "", "", "", "", ""), "", map[]),
                                            NoIDAegisTeam(TeamInfo(""), [], map[]), entry);
      var saved := Begin();
      var result := CreateEntryHelper(entry);
      if result.Ok? {
        r := Some(result.value);
      } else {
        Rollback(saved);
        r := None;
      }
    }

    method CreateTeamHelper(team: NoIDAegisTeam) returns (r: Result<int, SQLException>)
      requires Valid()
      modifies teamTable, teamUserTable, teamEntryTable
      ensures r.Ok? <==> PasswordDatabase.CreateTeam(old(State()), team).1.Some?
      ensures r.Ok? ==> (r.value == PasswordDatabase.CreateTeam(old(State()), team).1.value
                       && State() == PasswordDatabase.InsertTeam(old(State()), team, r.value))
    {
      var added := teamTable.AddTeam(team);
      if added.Err? {
        return Err(added.error);
      }
      AddUsersToTeam(added.value, team.users);
      AddEntriesToTeam(added.value, team.entries);
      r := Ok(added.value);
    }

    /** createTeam: the new team's id, or nothing with every write undone. */
    method CreateTeam(team: NoIDAegisTeam) returns (r: Option<int>)
      requires Valid()
      modifies userTable, teamTable, entryTable, teamEntryTable, teamUserTable
      ensures Valid()
      ensures (State(), r) == PasswordDatabase.CreateTeam(old(State()), team)
    {
      PasswordDatabase.CreatesPreserveValid(State(), NoIDAegisUser(UserInfo("", "", "", "", "", "", "", "", "", ""), "", map[]),
                                            team, NoIDAegisEntry(EntryInfo("", "", "", ""), 0));
      var saved := Begin();
      var result := CreateTeamHelper(team);
      if result.Ok? {
        r := Some(result.value);
      } else {
        Rollback(saved);
        r := None;
      }
    }

    // ------------------------------------------------------------ reads

    /** readUser(id): the User row completed with the user's memberships. */
    method ReadUser(uid: int) returns (r: Option<AegisUser>)
      ensures r == PasswordDatabase.ReadUser(State(), uid)
    {
      var temp := userTable.ReadUser(uid);
      if temp.Err? {
        return None;
      }
      var teams := teamUserTable.GetUserPermissions(uid);
      r := Some(AegisUser(temp.value.userInfo, temp.value.email, teams, temp.value.id));
    }

    /** readUser(email): the id of the row holding the email, then readUser(id). */
    method ReadUserByEmail(email: string) returns (r: Option<AegisUser>)
      requires Valid()
      ensures r == PasswordDatabase.ReadUserByEmail(State(), email)
    {
      var uid := userTable.GetID(email);
      if uid.Err? {
        return None;
      }
      r := ReadUser(uid.value);
    }

    /** readEntry(id): the Entry row completed with the team its TeamEntry row names. */
    method ReadEntry(eid: int) returns (r: Option<AegisEntry>)
      requires Valid()
      ensures r == PasswordDatabase.ReadEntry(State(), eid)
    {
      var info := entryTable.ReadEntry(eid);
      if info.Err? {
        return None;
      }
      var team := teamEntryTable.GetTeam(eid);
      if team.Err? {
        return None;
      }
      UniqueTeam(teamEntryTable.rows, eid, team.value, TeamOf(teamEntryTable.rows, eid).value);
      r := Some(AegisEntry(info.value, team.value, eid));
    }

    /** readTeam(id): the Team row completed with its entries and members. */
    method ReadTeam(tid: int) returns (r: Option<AegisTeam>)
      ensures r == PasswordDatabase.ReadTeam(State(), tid)
    {
      var info := teamTable.ReadTeam(tid);
      if info.Err? {
        return None;
      }
      var entries := teamEntryTable.GetEntries(tid);
      var users := teamUserTable.GetTeamPermissions(tid);
      r := Some(AegisTeam(info.value, entries, users, tid));
    }

    // ------------------------------------------------------------ updates

    method UpdateUserHelper(user: AegisUser) returns (r: Outcome<SQLException>)
      requires Valid()
      modifies userTable, teamUserTable
      ensures r.Pass? <==> PasswordDatabase.UpdateUser(old(State()), user).1
      ensures r.Pass? ==> State() == PasswordDatabase.UpdateUser(old(State()), user).0
    {
      var exists_ := userTable.ReadUser(user.id);
      if exists_.Err? {
        return Fail(exists_.error);
      }
      var updated := userTable.UpdateUser(user);
      if updated.Fail? {
        return updated;
      }
      teamUserTable.DeleteUser(user.id);
      AddUserToTeams(user.id, user.teams);
      r := Pass;
    }

    /** updateUser: true with the user's rows replaced, or false with every write undone. */
    method UpdateUser(user: AegisUser) returns (b: bool)
      requires Valid()
      modifies userTable, teamTable, entryTable, teamEntryTable, teamUserTable
      ensures Valid()
      ensures (State(), b) == PasswordDatabase.UpdateUser(old(State()), user)
    {
      PasswordDatabase.UpdateUserPreservesValid(State(), user);
      var saved := Begin();
      var result := UpdateUserHelper(user);
      if result.Pass? {
        b := true;
      } else {
        Rollback(saved);
        b := false;
      }
    }

    method UpdateTeamHelper(team: AegisTeam) returns (r: Outcome<SQLException>)
      requires Valid()
      modifies teamTable, teamUserTable, teamEntryTable
      ensures r.Pass? <==> PasswordDatabase.UpdateTeam(old(State()), team).1
      ensures r.Pass? ==> State() == PasswordDatabase.UpdateTeam(old(State()), team).0
    {
      var exists_ := teamTable.ReadTeam(team.id);
      if exists_.Err? {
        return Fail(exists_.error);
      }
      teamTable.UpdateTeam(team);
      teamUserTable.DeleteTeam(team.id);
      teamEntryTable.DeleteTeam(team.id);
      AddUsersToTeam(team.id, team.users);
      AddEntriesToTeam(team.id, team.entries);
      r := Pass;
    }

    /** updateTeam: true with the team's rows replaced, or false with every write undone. */
    method UpdateTeam(team: AegisTeam) returns (b: bool)
      requires Valid()
      modifies userTable, teamTable, entryTable, teamEntryTable, teamUserTable
      ensures Valid()
      ensures (State(), b) == PasswordDatabase.UpdateTeam(old(State()), team)
    {
      PasswordDatabase.UpdatesPreserveValid(State(), team, AegisEntry(EntryInfo("", "", "", ""), 0, 0));
      var saved := Begin();
      var result := UpdateTeamHelper(team);
      if result.Pass? {
        b := true;
      } else {
        Rollback(saved);
        b := false;
      }
    }

    method UpdateEntryHelper(entry: AegisEntry) returns (r: Outcome<SQLException>)
      requires Valid()
      modifies entryTable, teamEntryTable
      ensures r.Pass? <==> PasswordDatabase.UpdateEntry(old(State()), entry).1
      ensures r.Pass? ==> State() == PasswordDatabase.UpdateEntry(old(State()), entry).0
    {
      var exists_ := entryTable.ReadEntry(entry.id);
      if exists_.Err? {
        return Fail(exists_.error);
      }
      entryTable.UpdateEntry(entry);
      teamEntryTable.AddTeamAndEntry(entry.team, entry.id);
      r := Pass;
    }

    /** updateEntry: true with the entry's rows replaced, or false with every write undone. */
    method UpdateEntry(entry: AegisEntry) returns (b: bool)
      requires Valid()
      modifies userTable, teamTable, entryTable, teamEntryTable, teamUserTable
      ensures Valid()
      ensures (State(), b) == PasswordDatabase.UpdateEntry(old(State()), entry)
    {
      PasswordDatabase.UpdatesPreserveValid(State(), AegisTeam(TeamInfo(""), [], map[], 0), entry);
      var saved := Begin();
      var result := UpdateEntryHelper(entry);
      if result.Pass? {
        b := true;
      } else {
        Rollback(saved);
        b := false;
      }
    }

    // ------------------------------------------------------------ deletes
    // The delete helpers have no failing step, so their transactions always commit.

    /** deleteUser: the User row and the user's TeamUser rows; always true. */
    method DeleteUser(uid: int) returns (b: bool)
      requires Valid()
      modifies userTable, teamUserTable
      ensures Valid()
      ensures b && State() == PasswordDatabase.DeleteUser(old(State()), uid)
    {
      userTable.DeleteUser(uid);
      teamUserTable.DeleteUser(uid);
      b := true;
    }

    /** deleteTeam: the Team row and the team's TeamUser and TeamEntry rows; always true. */
    method DeleteTeam(tid: int) returns (b: bool)
      requires Valid()
      modifies teamTable, teamUserTable, teamEntryTable
      ensures Valid()
      ensures b && State() == PasswordDatabase.DeleteTeam(old(State()), tid)
    {
      teamTable.DeleteTeam(tid);
      teamUserTable.DeleteTeam(tid);
      teamEntryTable.DeleteTeam(tid);
      b := true;
    }

    /** deleteEntry: the Entry row and the entry's TeamEntry row; always true. */
    method DeleteEntry(eid: int) returns (b: bool)
      requires Valid()
      modifies entryTable, teamEntryTable
      ensures Valid()
      ensures b && State() == PasswordDatabase.DeleteEntry(old(State()), eid)
    {
      entryTable.DeleteEntry(eid);
      teamEntryTable.DeleteEntry(eid);
      b := true;
    }
  }
}
