/** The TeamUser join table (database/table/TeamUserTable.java): rows (uid, tid, info) with
    `unique (uid, tid) ON CONFLICT REPLACE`. Since at most one row exists per pair, the rows are
    a map from the pair (uid, tid) to the info. */
module TeamUserTable {
  import opened Model

  /** The memberships of uid: each team id that has a row for uid, mapped to that row's info. */
  function ByUser(rows: map<(int, int), TeamUserInfo>, uid: int): (m: map<int, TeamUserInfo>)
    ensures forall tid :: tid in m <==> (uid, tid) in rows
    ensures forall tid :: tid in m ==> m[tid] == rows[(uid, tid)]
  {
    map k | k in rows && k.0 == uid :: k.1 := rows[k]
  }

  /** The members of tid: each user id that has a row for tid, mapped to that row's info. */
  function ByTeam(rows: map<(int, int), TeamUserInfo>, tid: int): (m: map<int, TeamUserInfo>)
    ensures forall uid :: uid in m <==> (uid, tid) in rows
    ensures forall uid :: uid in m ==> m[uid] == rows[(uid, tid)]
  {
    map k | k in rows && k.1 == tid :: k.0 := rows[k]
  }

  /** The rows left after deleting every row of uid. */
  function MembershipsWithoutUser(rows: map<(int, int), TeamUserInfo>, uid: int): (r: map<(int, int), TeamUserInfo>)
    ensures forall k :: k in r <==> k in rows && k.0 != uid
    ensures forall k :: k in r ==> r[k] == rows[k]
  {
    map k | k in rows && k.0 != uid :: rows[k]
  }

  /** The rows left after deleting every row of tid. */
  function MembershipsWithoutTeam(rows: map<(int, int), TeamUserInfo>, tid: int): (r: map<(int, int), TeamUserInfo>)
    ensures forall k :: k in r <==> k in rows && k.1 != tid
    ensures forall k :: k in r ==> r[k] == rows[k]
  {
    map k | k in rows && k.1 != tid :: rows[k]
  }

  /** The rows after inserting (uid, tid, teams[tid]) for every tid of teams, each replacing
      whatever row that pair had. */
  function AddUserTeams(rows: map<(int, int), TeamUserInfo>, uid: int, teams: map<int, TeamUserInfo>)
    : (r: map<(int, int), TeamUserInfo>)
    ensures forall k :: k in r <==> k in rows || (k.0 == uid && k.1 in teams)
    ensures forall k :: k in r ==> r[k] == (if k.0 == uid && k.1 in teams then teams[k.1] else rows[k])
  {
    rows + map tid | tid in teams :: (uid, tid) := teams[tid]
  }

  /** The rows after inserting (uid, tid, users[uid]) for every uid of users. */
  function AddTeamUsers(rows: map<(int, int), TeamUserInfo>, tid: int, users: map<int, TeamUserInfo>)
    : (r: map<(int, int), TeamUserInfo>)
    ensures forall k :: k in r <==> k in rows || (k.1 == tid && k.0 in users)
    ensures forall k :: k in r ==> r[k] == (if k.1 == tid && k.0 in users then users[k.0] else rows[k])
  {
    rows + map uid | uid in users :: (uid, tid) := users[uid]
  }

  /** A user without rows has no memberships. */
  lemma NoRowsNoTeams(rows: map<(int, int), TeamUserInfo>, uid: int)
    requires forall k :: k in rows ==> k.0 != uid
    ensures ByUser(rows, uid) == map[]
  {
    assert ByUser(rows, uid).Keys == {};
  }

  /** A team without rows has no members. */
  lemma NoRowsNoUsers(rows: map<(int, int), TeamUserInfo>, tid: int)
    requires forall k :: k in rows ==> k.1 != tid
    ensures ByTeam(rows, tid) == map[]
  {
    assert ByTeam(rows, tid).Keys == {};
  }

  /** A row describes the same membership seen from either side. */
  lemma ByUserByTeamSymmetric(rows: map<(int, int), TeamUserInfo>, uid: int, tid: int, info: TeamUserInfo)
    ensures (tid in ByUser(rows, uid) && ByUser(rows, uid)[tid] == info)
        <==> (uid in ByTeam(rows, tid) && ByTeam(rows, tid)[uid] == info)
  {
  }

  /** Adding a user's memberships gives back the old memberships of that user overridden by them. */
  lemma {:induction false} ByUserAfterAdd(rows: map<(int, int), TeamUserInfo>, uid: int, teams: map<int, TeamUserInfo>)
    ensures ByUser(AddUserTeams(rows, uid, teams), uid) == ByUser(rows, uid) + teams
  {
    var after := ByUser(AddUserTeams(rows, uid, teams), uid);
    var expected := ByUser(rows, uid) + teams;
    assert after.Keys == expected.Keys;
    forall tid | tid in after ensures after[tid] == expected[tid] {
      assert (uid, tid) in AddUserTeams(rows, uid, teams);
    }
  }

  /** Adding a team's members gives back the old members of that team overridden by them. */
  lemma {:induction false} ByTeamAfterAdd(rows: map<(int, int), TeamUserInfo>, tid: int, users: map<int, TeamUserInfo>)
    ensures ByTeam(AddTeamUsers(rows, tid, users), tid) == ByTeam(rows, tid) + users
  {
    var after := ByTeam(AddTeamUsers(rows, tid, users), tid);
    var expected := ByTeam(rows, tid) + users;
    assert after.Keys == expected.Keys;
    forall uid | uid in after ensures after[uid] == expected[uid] {
      assert (uid, tid) in AddTeamUsers(rows, tid, users);
    }
  }

  /** Deleting a user's rows leaves every other user's memberships. */
  lemma ByUserWithoutOther(rows: map<(int, int), TeamUserInfo>, uid: int, other: int)
    requires other != uid
    ensures ByUser(MembershipsWithoutUser(rows, uid), other) == ByUser(rows, other)
  {
    assert ByUser(MembershipsWithoutUser(rows, uid), other).Keys == ByUser(rows, other).Keys;
  }

  /** Deleting a user's rows removes that user, and only that user, from every team. */
  lemma ByTeamWithoutUser(rows: map<(int, int), TeamUserInfo>, uid: int, tid: int)
    ensures ByTeam(MembershipsWithoutUser(rows, uid), tid) == ByTeam(rows, tid) - {uid}
  {
    assert ByTeam(MembershipsWithoutUser(rows, uid), tid).Keys == ByTeam(rows, tid).Keys - {uid};
  }

  /** Deleting a team's rows leaves every other team's members. */
  lemma ByTeamWithoutOther(rows: map<(int, int), TeamUserInfo>, tid: int, other: int)
    requires other != tid
    ensures ByTeam(MembershipsWithoutTeam(rows, tid), other) == ByTeam(rows, other)
  {
    assert ByTeam(MembershipsWithoutTeam(rows, tid), other).Keys == ByTeam(rows, other).Keys;
  }

  /** Deleting a team's rows removes that team, and only that team, from every user. */
  lemma ByUserWithoutTeam(rows: map<(int, int), TeamUserInfo>, tid: int, uid: int)
    ensures ByUser(MembershipsWithoutTeam(rows, tid), uid) == ByUser(rows, uid) - {tid}
  {
    assert ByUser(MembershipsWithoutTeam(rows, tid), uid).Keys == ByUser(rows, uid).Keys - {tid};
  }

  /** Rewriting a user's rows leaves every other user's memberships. */
  lemma ByUserAfterRewriteOther(rows: map<(int, int), TeamUserInfo>, uid: int, teams: map<int, TeamUserInfo>, other: int)
    requires other != uid
    ensures ByUser(AddUserTeams(MembershipsWithoutUser(rows, uid), uid, teams), other) == ByUser(rows, other)
  {
    assert ByUser(AddUserTeams(MembershipsWithoutUser(rows, uid), uid, teams), other).Keys == ByUser(rows, other).Keys;
  }

  /** Adding a user's memberships sets that user's entry in the members of each listed team. */
  lemma {:induction false} ByTeamAfterAddUser(rows: map<(int, int), TeamUserInfo>, uid: int, teams: map<int, TeamUserInfo>, tid: int)
    ensures ByTeam(AddUserTeams(rows, uid, teams), tid)
         == if tid in teams then ByTeam(rows, tid)[uid := teams[tid]] else ByTeam(rows, tid)
  {
    var r := AddUserTeams(rows, uid, teams);
    var after := ByTeam(r, tid);
    var before := ByTeam(rows, tid);
    if tid in teams {
      assert after.Keys == before.Keys + {uid};
      forall u | u in after ensures after[u] == before[uid := teams[tid]][u] {
        assert after[u] == r[(u, tid)];
      }
    } else {
      assert after.Keys == before.Keys;
      forall u | u in after ensures after[u] == before[u] {
        assert after[u] == r[(u, tid)];
      }
    }
  }

  /** Rewriting a user's rows changes that user's entry, and only that one, in every team's members. */
  lemma ByTeamAfterUserRewrite(rows: map<(int, int), TeamUserInfo>, uid: int, teams: map<int, TeamUserInfo>, tid: int)
    ensures ByTeam(AddUserTeams(MembershipsWithoutUser(rows, uid), uid, teams), tid)
         == if tid in teams then (ByTeam(rows, tid) - {uid})[uid := teams[tid]] else ByTeam(rows, tid) - {uid}
  {
    ByTeamWithoutUser(rows, uid, tid);
    ByTeamAfterAddUser(MembershipsWithoutUser(rows, uid), uid, teams, tid);
  }

  /** Rewriting a team's rows leaves every other team's members. */
  lemma ByTeamAfterRewriteOther(rows: map<(int, int), TeamUserInfo>, tid: int, users: map<int, TeamUserInfo>, other: int)
    requires other != tid
    ensures ByTeam(AddTeamUsers(MembershipsWithoutTeam(rows, tid), tid, users), other) == ByTeam(rows, other)
  {
    assert ByTeam(AddTeamUsers(MembershipsWithoutTeam(rows, tid), tid, users), other).Keys == ByTeam(rows, other).Keys;
  }

  /** Adding a team's members sets that team's entry in the memberships of each listed user. */
  lemma {:induction false} ByUserAfterAddTeam(rows: map<(int, int), TeamUserInfo>, tid: int, users: map<int, TeamUserInfo>, uid: int)
    ensures ByUser(AddTeamUsers(rows, tid, users), uid)
         == if uid in users then ByUser(rows, uid)[tid := users[uid]] else ByUser(rows, uid)
  {
    var r := AddTeamUsers(rows, tid, users);
    var after := ByUser(r, uid);
    var before := ByUser(rows, uid);
    if uid in users {
      assert after.Keys == before.Keys + {tid};
      forall t | t in after ensures after[t] == before[tid := users[uid]][t] {
        assert after[t] == r[(uid, t)];
      }
    } else {
      assert after.Keys == before.Keys;
      forall t | t in after ensures after[t] == before[t] {
        assert after[t] == r[(uid, t)];
      }
    }
  }

  /** Rewriting a team's rows changes that team's entry, and only that one, in every user's memberships. */
  lemma ByUserAfterTeamRewrite(rows: map<(int, int), TeamUserInfo>, tid: int, users: map<int, TeamUserInfo>, uid: int)
    ensures ByUser(AddTeamUsers(MembershipsWithoutTeam(rows, tid), tid, users), uid)
         == if uid in users then (ByUser(rows, uid) - {tid})[tid := users[uid]] else ByUser(rows, uid) - {tid}
  {
    ByUserWithoutTeam(rows, tid, uid);
    ByUserAfterAddTeam(MembershipsWithoutTeam(rows, tid), tid, users, uid);
  }

  class TeamUserTable {
    var rows: map<(int, int), TeamUserInfo>

    /** Attaches to the TeamUser table of an open database file and its stored rows. */
    constructor(stored: map<(int, int), TeamUserInfo>)
      ensures rows == stored
    {
      rows := stored;
    }

    /** Inserts (tid, uid, info), replacing any row for the pair. */
    method AddTeamAndUser(tid: int, uid: int, info: TeamUserInfo)
      modifies this
      ensures rows == old(rows)[(uid, tid) := info]
    {
      rows := rows[(uid, tid) := info];
    }

    /** Collects tid -> info over the rows of uid. */
    method GetUserPermissions(uid: int) returns (ret: map<int, TeamUserInfo>)
      ensures ret == ByUser(rows, uid)
    {
      ret := map[];
      var todo := rows.Keys;
      while todo != {}
        invariant todo <= rows.Keys
        invariant forall tid :: tid in ret <==> (uid, tid) in rows && (uid, tid) !in todo
        invariant forall tid :: tid in ret ==> ret[tid] == rows[(uid, tid)]
        decreases |todo|
      {
        var k :| k in todo;
        if k.0 == uid {
          ret := ret[k.1 := rows[k]];
        }
        todo := todo - {k};
      }
      assert ret.Keys == ByUser(rows, uid).Keys;
    }

    /** Collects uid -> info over the rows of tid. */
    method GetTeamPermissions(tid: int) returns (ret: map<int, TeamUserInfo>)
      ensures ret == ByTeam(rows, tid)
    {
      ret := map[];
      var todo := rows.Keys;
      while todo != {}
        invariant todo <= rows.Keys
        invariant forall uid :: uid in ret <==> (uid, tid) in rows && (uid, tid) !in todo
        invariant forall uid :: uid in ret ==> ret[uid] == rows[(uid, tid)]
        decreases |todo|
      {
        var k :| k in todo;
        if k.1 == tid {
          ret := ret[k.0 := rows[k]];
        }
        todo := todo - {k};
      }
      assert ret.Keys == ByTeam(rows, tid).Keys;
    }

    /** Removes every row of tid. */
    method DeleteTeam(tid: int)
      modifies this
      ensures rows == MembershipsWithoutTeam(old(rows), tid)
    {
      rows := MembershipsWithoutTeam(rows, tid);
    }

    /** Removes every row of uid. */
    method DeleteUser(uid: int)
      modifies this
      ensures rows == MembershipsWithoutUser(old(rows), uid)
    {
      rows := MembershipsWithoutUser(rows, uid);
    }
  }
}
