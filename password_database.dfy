/** The contracts of the password database (database/PasswordDatabase.java), stated over
    the contents of its five tables. Each operation is a function from the store before the
    call to the store after it and the call's result; a failed call leaves the store as it
    was, because the implementation runs every call as one transaction. */
module PasswordDatabase {
  import opened Wrappers
  import opened Sqlite
  import opened Model
  import opened UserTable
  import opened TeamEntryTable
  import opened TeamUserTable

  /** The rows of the User, Team, Entry, TeamEntry and TeamUser tables. */
  datatype Store = Store(
    users: map<int, UserRow>,
    teams: map<int, TeamInfo>,
    entries: map<int, EntryInfo>,
    teamEntries: seq<TeamEntryRow>,
    teamUsers: map<(int, int), TeamUserInfo>)

  /** The constraints of the schema: unique emails and one TeamEntry row per entry. */
  predicate Valid(s: Store)
  {
    UniqueEmails(s.users) && UniqueEntries(s.teamEntries)
  }

  /** Every TeamUser row names a stored user. */
  predicate NoDanglingUsers(s: Store)
  {
    forall k :: k in s.teamUsers ==> k.0 in s.users
  }

  /** Every TeamUser and TeamEntry row names a stored team. */
  predicate NoDanglingTeams(s: Store)
  {
    (forall k :: k in s.teamUsers ==> k.1 in s.teams)
    && (forall row :: row in s.teamEntries ==> row.tid in s.teams)
  }

  /** The store right after `reset`: every table recreated empty. */
  function Empty(): (s: Store)
    ensures Valid(s)
  {
    Store(map[], map[], map[], [], map[])
  }

  // ---------------------------------------------------------------- reads

  /** readUser(id): the User row with the user's memberships, or nothing. */
  function ReadUser(s: Store, uid: int): (r: Option<AegisUser>)
    ensures r.Some? <==> uid in s.users
    ensures r.Some? ==> r.value.id == uid
  {
    if uid in s.users then Some(AegisUser(s.users[uid].info, s.users[uid].email, ByUser(s.teamUsers, uid), uid))
    else None
  }

  /** readUser(email): the user whose row holds the email, or nothing. */
  ghost function ReadUserByEmail(s: Store, email: string): (r: Option<AegisUser>)
    ensures r.Some? <==> EmailTaken(s.users, email)
    ensures r.Some? ==> r.value.email == email
  {
    if EmailTaken(s.users, email) then
      var uid :| uid in s.users && s.users[uid].email == email;
      ReadUser(s, uid)
    else None
  }

  /** readEntry(id): needs both the Entry row and the TeamEntry row naming its team. */
  function ReadEntry(s: Store, eid: int): (r: Option<AegisEntry>)
    ensures r.Some? <==> eid in s.entries && TeamOf(s.teamEntries, eid).Some?
    ensures r.Some? ==> r.value.id == eid
  {
    if eid in s.entries && TeamOf(s.teamEntries, eid).Some? then
      Some(AegisEntry(s.entries[eid], TeamOf(s.teamEntries, eid).value, eid))
    else None
  }

  /** readTeam(id): the Team row with its entries in row order and its members. */
  function ReadTeam(s: Store, tid: int): (r: Option<AegisTeam>)
    ensures r.Some? <==> tid in s.teams
    ensures r.Some? ==> r.value.id == tid
  {
    if tid in s.teams then
      Some(AegisTeam(s.teams[tid], EntriesOf(s.teamEntries, tid), ByTeam(s.teamUsers, tid), tid))
    else None
  }

  // ---------------------------------------------------------------- creates

  /** createUser: the User row under the next rowid plus one TeamUser row per team of the user.
      Fails, changing nothing, when the email is stored or the rowid exceeds Java's int range. */
  function CreateUser(s: Store, user: NoIDAegisUser): (r: (Store, Option<int>))
    ensures r.1.None? <==> EmailTaken(s.users, user.email) || !FitsInInt(NextRowid(s.users.Keys))
    ensures r.1.None? ==> r.0 == s
    ensures r.1.Some? ==> r.1.value !in s.users && r.0.users.Keys == s.users.Keys + {r.1.value}
  {
    if EmailTaken(s.users, user.email) then (s, None)
    else
      var uid := NextRowid(s.users.Keys);
      if !FitsInInt(uid) then (s, None) else (InsertUser(s, user, uid), Some(uid))
  }

  /** The rows createUser writes when the new user receives id uid. */
  function InsertUser(s: Store, user: NoIDAegisUser, uid: int): (r: Store)
    ensures r.teams == s.teams && r.entries == s.entries && r.teamEntries == s.teamEntries
    ensures r.users.Keys == s.users.Keys + {uid} && r.users[uid] == UserRow(user.email, user.userInfo)
    ensures forall k :: k in s.users && k != uid ==> r.users[k] == s.users[k]
    ensures ByUser(r.teamUsers, uid) == ByUser(s.teamUsers, uid) + user.teams
    ensures forall k: (int, int) :: k.0 != uid ==> (k in r.teamUsers <==> k in s.teamUsers)
    ensures forall k :: k in r.teamUsers && k.0 != uid ==> r.teamUsers[k] == s.teamUsers[k]
  {
    ByUserAfterAdd(s.teamUsers, uid, user.teams);
    s.(users := s.users[uid := UserRow(user.email, user.userInfo)],
       teamUsers := AddUserTeams(s.teamUsers, uid, user.teams))
  }

  /** createEntry: the Entry row under the next rowid plus the TeamEntry row naming its team.
      Fails, changing nothing, when the rowid exceeds Java's int range. */
  function CreateEntry(s: Store, entry: NoIDAegisEntry): (r: (Store, Option<int>))
    ensures r.1.None? <==> !FitsInInt(NextRowid(s.entries.Keys))
    ensures r.1.None? ==> r.0 == s
    ensures r.1.Some? ==> r.1.value !in s.entries && r.0.entries.Keys == s.entries.Keys + {r.1.value}
  {
    var eid := NextRowid(s.entries.Keys);
    if !FitsInInt(eid) then (s, None) else (InsertEntry(s, entry, eid), Some(eid))
  }

  /** The rows createEntry writes when the new entry receives id eid. */
  function InsertEntry(s: Store, entry: NoIDAegisEntry, eid: int): (r: Store)
    ensures r.users == s.users && r.teams == s.teams && r.teamUsers == s.teamUsers
    ensures r.entries.Keys == s.entries.Keys + {eid} && r.entries[eid] == entry.entryInfo
    ensures forall k :: k in s.entries && k != eid ==> r.entries[k] == s.entries[k]
    ensures TeamOf(r.teamEntries, eid) == Some(entry.team)
    ensures UniqueEntries(s.teamEntries) ==> UniqueEntries(r.teamEntries)
  {
    TeamOfReplaced(s.teamEntries, eid, entry.team);
    var rows := WithoutEntry(s.teamEntries, eid) + [TeamEntryRow(eid, entry.team)];
    assert UniqueEntries(s.teamEntries) ==> UniqueEntries(rows) by {
      if UniqueEntries(s.teamEntries) { ReplaceUnique(s.teamEntries, eid, entry.team); }
    }
    s.(entries := s.entries[eid := entry.entryInfo], teamEntries := rows)
  }

  /** createTeam: the Team row under the next rowid, one TeamUser row per member and one
      TeamEntry row per listed entry. Fails, changing nothing, when the rowid exceeds Java's int range. */
  function CreateTeam(s: Store, team: NoIDAegisTeam): (r: (Store, Option<int>))
    ensures r.1.None? <==> !FitsInInt(NextRowid(s.teams.Keys))
    ensures r.1.None? ==> r.0 == s
    ensures r.1.Some? ==> r.1.value !in s.teams && r.0.teams.Keys == s.teams.Keys + {r.1.value}
  {
    var tid := NextRowid(s.teams.Keys);
    if !FitsInInt(tid) then (s, None) else (InsertTeam(s, team, tid), Some(tid))
  }

  /** The rows createTeam writes when the new team receives id tid. */
  function InsertTeam(s: Store, team: NoIDAegisTeam, tid: int): (r: Store)
    ensures r.users == s.users && r.entries == s.entries
    ensures r.teams.Keys == s.teams.Keys + {tid} && r.teams[tid] == team.teamInfo
    ensures forall k :: k in s.teams && k != tid ==> r.teams[k] == s.teams[k]
    ensures ByTeam(r.teamUsers, tid) == ByTeam(s.teamUsers, tid) + team.users
    ensures forall eid :: eid in team.entries ==> TeamOf(r.teamEntries, eid) == Some(tid)
    ensures UniqueEntries(s.teamEntries) ==> UniqueEntries(r.teamEntries)
  {
    ByTeamAfterAdd(s.teamUsers, tid, team.users);
    AddedEntriesBelongToTeam(s.teamEntries, tid, team.entries);
    var rows := AddTeamEntries(s.teamEntries, tid, team.entries);
    assert UniqueEntries(s.teamEntries) ==> UniqueEntries(rows) by {
      if UniqueEntries(s.teamEntries) { AddTeamEntriesUnique(s.teamEntries, tid, team.entries); }
    }
    s.(teams := s.teams[tid := team.teamInfo],
       teamUsers := AddTeamUsers(s.teamUsers, tid, team.users),
       teamEntries := rows)
  }

  // ---------------------------------------------------------------- updates

  /** updateUser: replaces the User row of user.id and all of its TeamUser rows. Fails,
      changing nothing, when there is no such user or another user holds the email.
      No id is created or removed. */
  function UpdateUser(s: Store, user: AegisUser): (r: (Store, bool))
    ensures r.1 <==> user.id in s.users && !EmailTaken(s.users - {user.id}, user.email)
    ensures !r.1 ==> r.0 == s
    ensures r.0.users.Keys == s.users.Keys && r.0.teams == s.teams && r.0.entries == s.entries
    ensures r.0.teamEntries == s.teamEntries
    ensures forall k :: k in s.users && k != user.id ==> r.0.users[k] == s.users[k]
    ensures forall k: (int, int) :: k.0 != user.id ==> (k in r.0.teamUsers <==> k in s.teamUsers)
    ensures forall k :: k in r.0.teamUsers && k.0 != user.id ==> r.0.teamUsers[k] == s.teamUsers[k]
  {
    if user.id !in s.users || EmailTaken(s.users - {user.id}, user.email) then (s, false)
    else
      (s.(users := s.users[user.id := UserRow(user.email, user.userInfo)],
          teamUsers := AddUserTeams(MembershipsWithoutUser(s.teamUsers, user.id), user.id, user.teams)),
       true)
  }

  /** updateTeam: replaces the Team row of team.id and all of its TeamUser and TeamEntry rows.
      Fails, changing nothing, when there is no such team. No id is created or removed. */
  function UpdateTeam(s: Store, team: AegisTeam): (r: (Store, bool))
    ensures r.1 <==> team.id in s.teams
    ensures !r.1 ==> r.0 == s
    ensures r.0.teams.Keys == s.teams.Keys && r.0.users == s.users && r.0.entries == s.entries
    ensures forall k :: k in s.teams && k != team.id ==> r.0.teams[k] == s.teams[k]
    ensures forall k: (int, int) :: k.1 != team.id ==> (k in r.0.teamUsers <==> k in s.teamUsers)
    ensures forall k :: k in r.0.teamUsers && k.1 != team.id ==> r.0.teamUsers[k] == s.teamUsers[k]
    ensures r.1 ==> forall x :: x in r.0.teamEntries <==>
      (x in s.teamEntries && x.tid != team.id && x.eid !in team.entries) || (x.tid == team.id && x.eid in team.entries)
  {
    if team.id !in s.teams then (s, false)
    else
      (s.(teams := s.teams[team.id := team.teamInfo],
          teamUsers := AddTeamUsers(MembershipsWithoutTeam(s.teamUsers, team.id), team.id, team.users),
          teamEntries := AddTeamEntries(WithoutTeam(s.teamEntries, team.id), team.id, team.entries)),
       true)
  }

  /** updateEntry: replaces the Entry row of entry.id and its TeamEntry row. Fails, changing
      nothing, when there is no such entry. No id is created or removed. */
  function UpdateEntry(s: Store, entry: AegisEntry): (r: (Store, bool))
    ensures r.1 <==> entry.id in s.entries
    ensures !r.1 ==> r.0 == s
    ensures r.0.entries.Keys == s.entries.Keys && r.0.users == s.users && r.0.teams == s.teams
    ensures r.0.teamUsers == s.teamUsers
    ensures forall k :: k in s.entries && k != entry.id ==> r.0.entries[k] == s.entries[k]
    ensures r.1 ==> forall x :: x in r.0.teamEntries <==>
      (x in s.teamEntries && x.eid != entry.id) || x == TeamEntryRow(entry.id, entry.team)
  {
    if entry.id !in s.entries then (s, false)
    else
      (s.(entries := s.entries[entry.id := entry.entryInfo],
          teamEntries := WithoutEntry(s.teamEntries, entry.id) + [TeamEntryRow(entry.id, entry.team)]),
       true)
  }

  // ---------------------------------------------------------------- deletes

  /** deleteUser: the User row and the user's TeamUser rows go; an absent id is no error. */
  function DeleteUser(s: Store, uid: int): (r: Store)
    ensures r.users.Keys == s.users.Keys - {uid} && r.teams == s.teams && r.entries == s.entries
    ensures r.teamEntries == s.teamEntries
    ensures forall k :: k in r.users ==> r.users[k] == s.users[k]
    ensures forall k :: k in r.teamUsers <==> k in s.teamUsers && k.0 != uid
    ensures forall k :: k in r.teamUsers ==> r.teamUsers[k] == s.teamUsers[k]
  {
    s.(users := s.users - {uid}, teamUsers := MembershipsWithoutUser(s.teamUsers, uid))
  }

  /** deleteTeam: the Team row and the team's TeamUser and TeamEntry rows go; the entries'
      own rows stay. An absent id is no error. */
  function DeleteTeam(s: Store, tid: int): (r: Store)
    ensures r.teams.Keys == s.teams.Keys - {tid} && r.users == s.users && r.entries == s.entries
    ensures forall k :: k in r.teams ==> r.teams[k] == s.teams[k]
    ensures forall k :: k in r.teamUsers <==> k in s.teamUsers && k.1 != tid
    ensures forall k :: k in r.teamUsers ==> r.teamUsers[k] == s.teamUsers[k]
    ensures forall x :: x in r.teamEntries <==> x in s.teamEntries && x.tid != tid
  {
    s.(teams := s.teams - {tid},
       teamUsers := MembershipsWithoutTeam(s.teamUsers, tid),
       teamEntries := WithoutTeam(s.teamEntries, tid))
  }

  /** deleteEntry: the Entry row and the entry's TeamEntry row go; an absent id is no error. */
  function DeleteEntry(s: Store, eid: int): (r: Store)
    ensures r.entries.Keys == s.entries.Keys - {eid} && r.users == s.users && r.teams == s.teams
    ensures r.teamUsers == s.teamUsers
    ensures forall k :: k in r.entries ==> r.entries[k] == s.entries[k]
    ensures forall x :: x in r.teamEntries <==> x in s.teamEntries && x.eid != eid
  {
    s.(entries := s.entries - {eid}, teamEntries := WithoutEntry(s.teamEntries, eid))
  }

  // ---------------------------------------------------------------- properties

  /** After reset nothing can be read. */
  lemma EmptyHoldsNothing(id: int, email: string)
    ensures ReadUser(Empty(), id).None? && ReadTeam(Empty(), id).None? && ReadEntry(Empty(), id).None?
    ensures ReadUserByEmail(Empty(), email).None?
  {
  }

  lemma CreatesPreserveValid(s: Store, user: NoIDAegisUser, team: NoIDAegisTeam, entry: NoIDAegisEntry)
    requires Valid(s)
    ensures Valid(CreateUser(s, user).0) && Valid(CreateTeam(s, team).0) && Valid(CreateEntry(s, entry).0)
  {
    ReplaceUnique(s.teamEntries, NextRowid(s.entries.Keys), entry.team);
    AddTeamEntriesUnique(s.teamEntries, NextRowid(s.teams.Keys), team.entries);
  }

  lemma {:induction false} UpdateUserPreservesValid(s: Store, user: AegisUser)
    requires Valid(s)
    ensures Valid(UpdateUser(s, user).0)
  {
    if UpdateUser(s, user).1 {
      forall b | b in s.users && b != user.id ensures s.users[b].email != user.email {
        assert b in s.users - {user.id};
      }
      var rows := s.users[user.id := UserRow(user.email, user.userInfo)];
      forall a, b | a in rows && b in rows && rows[a].email == rows[b].email ensures a == b {
        if a != user.id && b != user.id {
          assert s.users[a].email == s.users[b].email;
        }
      }
    }
  }

  lemma UpdatesPreserveValid(s: Store, team: AegisTeam, entry: AegisEntry)
    requires Valid(s)
    ensures Valid(UpdateTeam(s, team).0) && Valid(UpdateEntry(s, entry).0)
  {
    WithoutTeamUnique(s.teamEntries, team.id);
    AddTeamEntriesUnique(WithoutTeam(s.teamEntries, team.id), team.id, team.entries);
    ReplaceUnique(s.teamEntries, entry.id, entry.team);
  }

  lemma DeletesPreserveValid(s: Store, id: int)
    requires Valid(s)
    ensures Valid(DeleteUser(s, id)) && Valid(DeleteTeam(s, id)) && Valid(DeleteEntry(s, id))
  {
    WithoutTeamUnique(s.teamEntries, id);
    WithoutEntryUnique(s.teamEntries, id);
  }

  /** Reading a just-created user gives the input under the new id, with the memberships the
      TeamUser table already held for that id added to the user's own. */
  lemma CreateUserReadsBack(s: Store, user: NoIDAegisUser)
    requires CreateUser(s, user).1.Some?
    ensures var uid := CreateUser(s, user).1.value;
      ReadUser(CreateUser(s, user).0, uid)
        == Some(AegisUser(user.userInfo, user.email, ByUser(s.teamUsers, uid) + user.teams, uid))
  {
    var uid := CreateUser(s, user).1.value;
    assert CreateUser(s, user).0 == InsertUser(s, user, uid);
    ByUserAfterAdd(s.teamUsers, uid, user.teams);
  }

  /** When no TeamUser row names a missing user, a created user reads back as the input with the new id. */
  lemma CreateUserRoundTrip(s: Store, user: NoIDAegisUser)
    requires NoDanglingUsers(s)
    requires CreateUser(s, user).1.Some?
    ensures var uid := CreateUser(s, user).1.value;
      ReadUser(CreateUser(s, user).0, uid) == Some(AegisUser(user.userInfo, user.email, user.teams, uid))
  {
    var uid := CreateUser(s, user).1.value;
    assert CreateUser(s, user).0 == InsertUser(s, user, uid);
    NoRowsNoTeams(s.teamUsers, uid);
    InsertFreshUserReadsBack(s, user, uid);
  }

  /** A user inserted under an id without memberships reads back exactly as given. */
  lemma InsertFreshUserReadsBack(s: Store, user: NoIDAegisUser, uid: int)
    requires ByUser(s.teamUsers, uid) == map[]
    ensures ReadUser(InsertUser(s, user, uid), uid) == Some(AegisUser(user.userInfo, user.email, user.teams, uid))
  {
    var after := InsertUser(s, user, uid);
    var teams := ByUser(after.teamUsers, uid);
    var row := after.users[uid];
    assert teams == user.teams by {
      assert map[] + user.teams == user.teams;
    }
    assert row == UserRow(user.email, user.userInfo);
    assert ReadUser(after, uid) == Some(AegisUser(row.info, row.email, teams, uid));
  }

  /** A created entry reads back as the input with the new id. */
  lemma CreateEntryRoundTrip(s: Store, entry: NoIDAegisEntry)
    requires CreateEntry(s, entry).1.Some?
    ensures var eid := CreateEntry(s, entry).1.value;
      ReadEntry(CreateEntry(s, entry).0, eid) == Some(AegisEntry(entry.entryInfo, entry.team, eid))
  {
    var eid := CreateEntry(s, entry).1.value;
    assert CreateEntry(s, entry).0 == InsertEntry(s, entry, eid);
    TeamOfReplaced(s.teamEntries, eid, entry.team);
  }

  /** When no join row names a missing team and the entry list has no repeats, a created team
      reads back as the input with the new id. */
  lemma CreateTeamRoundTrip(s: Store, team: NoIDAegisTeam)
    requires NoDanglingTeams(s)
    requires Distinct(team.entries)
    requires CreateTeam(s, team).1.Some?
    ensures var tid := CreateTeam(s, team).1.value;
      ReadTeam(CreateTeam(s, team).0, tid) == Some(AegisTeam(team.teamInfo, team.entries, team.users, tid))
  {
    var tid := CreateTeam(s, team).1.value;
    assert CreateTeam(s, team).0 == InsertTeam(s, team, tid);
    NoRowsNoUsers(s.teamUsers, tid);
    WithoutTeamIdentity(s.teamEntries, tid);
    WithoutTeamHasNoEntries(s.teamEntries, tid);
    InsertFreshTeamReadsBack(s, team, tid);
  }

  lemma InsertFreshTeamReadsBack(s: Store, team: NoIDAegisTeam, tid: int)
    requires tid !in s.teams
    requires ByTeam(s.teamUsers, tid) == map[]
    requires EntriesOf(s.teamEntries, tid) == []
    requires Distinct(team.entries)
    ensures ReadTeam(InsertTeam(s, team, tid), tid) == Some(AegisTeam(team.teamInfo, team.entries, team.users, tid))
  {
    ByTeamAfterAdd(s.teamUsers, tid, team.users);
    assert map[] + team.users == team.users;
    EntriesAfterAdd(s.teamEntries, tid, team.entries);
  }

  /** Deleting the rows of a team that has none changes nothing. */
  lemma {:induction false} WithoutTeamIdentity(rows: seq<TeamEntryRow>, tid: int)
    requires forall row :: row in rows ==> row.tid != tid
    ensures WithoutTeam(rows, tid) == rows
  {
    if rows != [] {
      var init := rows[..|rows| - 1];
      assert rows == init + [rows[|rows| - 1]];
      WithoutTeamIdentity(init, tid);
    }
  }

  /** Reading by email and reading by id give the same user. */
  lemma ReadByEmailAgrees(s: Store, uid: int)
    requires Valid(s)
    requires uid in s.users
    ensures ReadUserByEmail(s, s.users[uid].email) == ReadUser(s, uid)
  {
  }

  /** A successful updateUser reads back exactly the user passed in: memberships that were
      dropped are gone. */
  lemma UpdateUserRoundTrip(s: Store, user: AegisUser)
    requires UpdateUser(s, user).1
    ensures ReadUser(UpdateUser(s, user).0, user.id) == Some(user)
  {
    var rest := MembershipsWithoutUser(s.teamUsers, user.id);
    NoRowsNoTeams(rest, user.id);
    ByUserAfterAdd(rest, user.id, user.teams);
    assert map[] + user.teams == user.teams;
    var after := UpdateUser(s, user).0;
    assert after.users[user.id] == UserRow(user.email, user.userInfo);
    assert after.teamUsers == AddUserTeams(rest, user.id, user.teams);
  }

  /** A successful updateTeam with a repeat-free entry list reads back exactly the team passed in:
      dropped members and entries are gone. */
  lemma UpdateTeamRoundTrip(s: Store, team: AegisTeam)
    requires Distinct(team.entries)
    requires UpdateTeam(s, team).1
    ensures ReadTeam(UpdateTeam(s, team).0, team.id) == Some(team)
  {
    var users := MembershipsWithoutTeam(s.teamUsers, team.id);
    NoRowsNoUsers(users, team.id);
    ByTeamAfterAdd(users, team.id, team.users);
    assert map[] + team.users == team.users;
    var after := UpdateTeam(s, team).0;
    assert after.teams[team.id] == team.teamInfo;
    assert after.teamUsers == AddTeamUsers(users, team.id, team.users);
    WithoutTeamHasNoEntries(s.teamEntries, team.id);
    EntriesAfterAdd(WithoutTeam(s.teamEntries, team.id), team.id, team.entries);
  }

  /** A successful updateEntry reads back exactly the entry passed in. */
  lemma UpdateEntryRoundTrip(s: Store, entry: AegisEntry)
    requires UpdateEntry(s, entry).1
    ensures ReadEntry(UpdateEntry(s, entry).0, entry.id) == Some(entry)
  {
    TeamOfReplaced(s.teamEntries, entry.id, entry.team);
  }

  /** updateUser changes nothing but the user's own read and that user's place among the
      members of each team. */
  lemma UpdateUserFrame(s: Store, user: AegisUser, uid: int, tid: int, eid: int)
    ensures uid != user.id ==> ReadUser(UpdateUser(s, user).0, uid) == ReadUser(s, uid)
    ensures ReadEntry(UpdateUser(s, user).0, eid) == ReadEntry(s, eid)
    ensures ReadTeam(UpdateUser(s, user).0, tid)
         == if UpdateUser(s, user).1 && tid in s.teams then
              var team := ReadTeam(s, tid).value;
              var others := team.users - {user.id};
              Some(team.WithUsers(if tid in user.teams then others[user.id := user.teams[tid]] else others))
            else ReadTeam(s, tid)
  {
    if UpdateUser(s, user).1 {
      var after := UpdateUser(s, user).0;
      assert after == s.(users := s.users[user.id := UserRow(user.email, user.userInfo)],
                         teamUsers := AddUserTeams(MembershipsWithoutUser(s.teamUsers, user.id), user.id, user.teams));
      assert ReadEntry(after, eid) == ReadEntry(s, eid);
      if uid != user.id {
        ByUserAfterRewriteOther(s.teamUsers, user.id, user.teams, uid);
        assert ReadUser(after, uid) == ReadUser(s, uid);
      }
      ByTeamAfterUserRewrite(s.teamUsers, user.id, user.teams, tid);
    }
  }

  /** updateTeam changes nothing but the team's own read and the team's place among each
      user's memberships, except that the entries it lists leave every other team's list. */
  lemma UpdateTeamFrame(s: Store, team: AegisTeam, tid: int, uid: int)
    ensures tid != team.id ==> (ReadTeam(UpdateTeam(s, team).0, tid)
         == if UpdateTeam(s, team).1 && tid in s.teams then
              var other := ReadTeam(s, tid).value;
              Some(other.(entries := Unlisted(other.entries, team.entries)))
            else ReadTeam(s, tid))
    ensures ReadUser(UpdateTeam(s, team).0, uid)
         == if UpdateTeam(s, team).1 && uid in s.users then
              var u := ReadUser(s, uid).value;
              var others := u.teams - {team.id};
              Some(u.(teams := if uid in team.users then others[team.id := team.users[uid]] else others))
            else ReadUser(s, uid)
  {
    if UpdateTeam(s, team).1 {
      var rest := WithoutTeam(s.teamEntries, team.id);
      var after := UpdateTeam(s, team).0;
      assert after == s.(teams := s.teams[team.id := team.teamInfo],
                         teamUsers := AddTeamUsers(MembershipsWithoutTeam(s.teamUsers, team.id), team.id, team.users),
                         teamEntries := AddTeamEntries(rest, team.id, team.entries));
      if tid != team.id {
        ByTeamAfterRewriteOther(s.teamUsers, team.id, team.users, tid);
        EntriesOfWithoutTeamOther(s.teamEntries, team.id, tid);
        EntriesOfAfterAddOther(rest, team.id, team.entries, tid);
      }
      ByUserAfterTeamRewrite(s.teamUsers, team.id, team.users, uid);
    }
  }

  /** What updateTeam does to the entries: a listed entry now belongs to the team, an entry the
      team held but no longer lists loses its team, and every other entry reads as before. */
  lemma UpdateTeamMovesEntries(s: Store, team: AegisTeam, eid: int)
    requires Valid(s)
    ensures ReadEntry(UpdateTeam(s, team).0, eid)
         == if !UpdateTeam(s, team).1 then ReadEntry(s, eid)
            else if eid in team.entries then
              (if eid in s.entries then Some(AegisEntry(s.entries[eid], team.id, eid)) else None)
            else if TeamOf(s.teamEntries, eid) == Some(team.id) then None
            else ReadEntry(s, eid)
  {
    if UpdateTeam(s, team).1 {
      var rest := WithoutTeam(s.teamEntries, team.id);
      var rows := AddTeamEntries(rest, team.id, team.entries);
      var after := UpdateTeam(s, team).0;
      assert after.entries == s.entries && after.teamEntries == rows;
      if eid in team.entries {
        AddedEntriesBelongToTeam(rest, team.id, team.entries);
        assert TeamOf(rows, eid) == Some(team.id);
      } else {
        TeamOfAfterAddUnlisted(rest, team.id, team.entries, eid);
        if TeamOf(s.teamEntries, eid) == Some(team.id) {
          OrphanedEntry(s.teamEntries, team.id, eid);
          assert TeamOf(rows, eid) == None;
        } else {
          TeamOfWithoutTeam(s.teamEntries, team.id, eid);
          assert TeamOf(rows, eid) == TeamOf(s.teamEntries, eid);
        }
      }
    }
  }

  /** updateEntry changes nothing but the entry's own read and its place in the team lists:
      it leaves every list and is appended to the list of its new team. */
  lemma UpdateEntryFrame(s: Store, entry: AegisEntry, eid: int, tid: int, uid: int)
    ensures eid != entry.id ==> ReadEntry(UpdateEntry(s, entry).0, eid) == ReadEntry(s, eid)
    ensures ReadUser(UpdateEntry(s, entry).0, uid) == ReadUser(s, uid)
    ensures ReadTeam(UpdateEntry(s, entry).0, tid)
         == if UpdateEntry(s, entry).1 && tid in s.teams then
              var team := ReadTeam(s, tid).value;
              Some(team.(entries := Unlisted(team.entries, [entry.id]) + (if tid == entry.team then [entry.id] else [])))
            else ReadTeam(s, tid)
  {
    if UpdateEntry(s, entry).1 {
      var w := WithoutEntry(s.teamEntries, entry.id);
      var after := UpdateEntry(s, entry).0;
      assert after == s.(entries := s.entries[entry.id := entry.entryInfo],
                         teamEntries := w + [TeamEntryRow(entry.id, entry.team)]);
      if eid != entry.id {
        TeamOfWithoutEntry(s.teamEntries, entry.id, eid);
        assert (w + [TeamEntryRow(entry.id, entry.team)])[..|w|] == w;
      }
      EntriesOfWithoutEntry(s.teamEntries, entry.id, tid);
      EntriesOfSnoc(w, TeamEntryRow(entry.id, entry.team), tid);
    }
  }

  /** deleteUser changes nothing but the user's own read and that user's place among the
      members of each team. */
  lemma DeleteUserFrame(s: Store, deleted: int, uid: int, tid: int, eid: int)
    ensures uid != deleted ==> ReadUser(DeleteUser(s, deleted), uid) == ReadUser(s, uid)
    ensures ReadEntry(DeleteUser(s, deleted), eid) == ReadEntry(s, eid)
    ensures ReadTeam(DeleteUser(s, deleted), tid)
         == if tid in s.teams then Some(ReadTeam(s, tid).value.WithUsers(ReadTeam(s, tid).value.users - {deleted}))
            else ReadTeam(s, tid)
  {
    var after := DeleteUser(s, deleted);
    assert after == s.(users := s.users - {deleted}, teamUsers := MembershipsWithoutUser(s.teamUsers, deleted));
    assert ReadEntry(after, eid) == ReadEntry(s, eid);
    if uid != deleted {
      ByUserWithoutOther(s.teamUsers, deleted, uid);
      assert ReadUser(after, uid) == ReadUser(s, uid);
    }
    ByTeamWithoutUser(s.teamUsers, deleted, tid);
    if tid in s.teams {
      var team := ReadTeam(s, tid).value;
      assert ReadTeam(after, tid) == Some(AegisTeam(team.teamInfo, team.entries, team.users - {deleted}, tid));
    }
  }

  /** deleteTeam changes nothing but the team's own read, the team's place among each user's
      memberships, and the entries that belonged to it. */
  lemma DeleteTeamFrame(s: Store, deleted: int, tid: int, uid: int, eid: int)
    ensures tid != deleted ==> ReadTeam(DeleteTeam(s, deleted), tid) == ReadTeam(s, tid)
    ensures ReadUser(DeleteTeam(s, deleted), uid)
         == if uid in s.users then Some(ReadUser(s, uid).value.(teams := ReadUser(s, uid).value.teams - {deleted}))
            else ReadUser(s, uid)
    ensures TeamOf(s.teamEntries, eid) != Some(deleted) ==> ReadEntry(DeleteTeam(s, deleted), eid) == ReadEntry(s, eid)
  {
    var after := DeleteTeam(s, deleted);
    assert tid != deleted ==> ReadTeam(after, tid) == ReadTeam(s, tid) by {
      if tid != deleted {
        ByTeamWithoutOther(s.teamUsers, deleted, tid);
        EntriesOfWithoutTeamOther(s.teamEntries, deleted, tid);
      }
    }
    assert ReadUser(after, uid).Some? ==> ReadUser(after, uid).value.teams == ReadUser(s, uid).value.teams - {deleted} by {
      ByUserWithoutTeam(s.teamUsers, deleted, uid);
    }
    assert TeamOf(s.teamEntries, eid) != Some(deleted) ==> ReadEntry(after, eid) == ReadEntry(s, eid) by {
      if TeamOf(s.teamEntries, eid) != Some(deleted) {
        TeamOfWithoutTeam(s.teamEntries, deleted, eid);
      }
    }
  }

  /** deleteEntry changes nothing but the entry's own read and takes it out of the team lists. */
  lemma DeleteEntryFrame(s: Store, deleted: int, eid: int, tid: int, uid: int)
    ensures eid != deleted ==> ReadEntry(DeleteEntry(s, deleted), eid) == ReadEntry(s, eid)
    ensures ReadUser(DeleteEntry(s, deleted), uid) == ReadUser(s, uid)
    ensures ReadTeam(DeleteEntry(s, deleted), tid)
         == if tid in s.teams then
              Some(ReadTeam(s, tid).value.(entries := Unlisted(ReadTeam(s, tid).value.entries, [deleted])))
            else ReadTeam(s, tid)
  {
    var after := DeleteEntry(s, deleted);
    assert after == s.(entries := s.entries - {deleted}, teamEntries := WithoutEntry(s.teamEntries, deleted));
    if eid != deleted {
      TeamOfWithoutEntry(s.teamEntries, deleted, eid);
      assert ReadEntry(after, eid) == ReadEntry(s, eid);
    }
    EntriesOfWithoutEntry(s.teamEntries, deleted, tid);
  }

  /** After a delete the record cannot be read. */
  lemma DeleteThenReadIsEmpty(s: Store, id: int)
    ensures ReadUser(DeleteUser(s, id), id).None?
    ensures ReadTeam(DeleteTeam(s, id), id).None?
    ensures ReadEntry(DeleteEntry(s, id), id).None?
  {
  }

  /** Deleting a team keeps the Entry rows of its entries but makes them unreadable. */
  lemma DeleteTeamOrphansEntries(s: Store, tid: int, eid: int)
    requires Valid(s)
    requires eid in s.entries && TeamOf(s.teamEntries, eid) == Some(tid)
    ensures eid in DeleteTeam(s, tid).entries
    ensures ReadEntry(DeleteTeam(s, tid), eid).None?
  {
    OrphanedEntry(s.teamEntries, tid, eid);
  }

  /** A team appears among a user's memberships with some info exactly when the user appears
      among that team's members with the same info. */
  lemma MembershipSymmetric(s: Store, uid: int, tid: int, info: TeamUserInfo)
    requires uid in s.users && tid in s.teams
    ensures (tid in ReadUser(s, uid).value.teams && ReadUser(s, uid).value.teams[tid] == info)
        <==> (uid in ReadTeam(s, tid).value.users && ReadTeam(s, tid).value.users[uid] == info)
  {
    ByUserByTeamSymmetric(s.teamUsers, uid, tid, info);
  }

  /** A created user whose id collides with an orphan TeamUser row inherits that membership,
      for any team the user did not list itself. */
  lemma OrphanMembershipIsInherited(s: Store, user: NoIDAegisUser, tid: int)
    requires CreateUser(s, user).1.Some?
    requires (CreateUser(s, user).1.value, tid) in s.teamUsers && tid !in user.teams
    ensures var uid := CreateUser(s, user).1.value;
      var teams := ReadUser(CreateUser(s, user).0, uid).value.teams;
      tid in teams && teams[tid] == s.teamUsers[(uid, tid)]
  {
    CreateUserReadsBack(s, user);
  }

}
