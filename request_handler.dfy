/** The authorization rules of the request handler (server/util/RequestHandler.java) with the
    HTTP, session-cookie and logging plumbing removed. The database reads a handler makes are
    its inputs; a membership handler's result is the team it would pass to updateTeam. */
module RequestHandler {
  import opened Wrappers
  import opened Sets
  import opened Permissions
  import opened Model
  import PasswordDatabase
  import AegisPasswordDatabase

  datatype RequestException =
    | MessageException(message: string)
    | RightsException(message: string)

  /** Constants.FAILED_DELETE_ONLY_ADMIN_MESSAGE. */
  const FAILED_DELETE_ONLY_ADMIN_MESSAGE: string :=
    "You cannot remove yourself from the team being since you are the only admin"

  const NOT_IN_TEAM_MESSAGE: string := "You are not part of the team in question"

  function InsufficientRightsMessage(required: UserPermissions, held: UserPermissions): string
  {
    "You do not have the required rights\nRequired: " + Name(required) + "\n" + "Your Rights: " + Name(held)
  }

  /** checkRights: the user is in the team with at least the required level. */
  function CheckRights(user: AegisUser, tid: int, reqRole: UserPermissions): (r: Outcome<RequestException>)
    ensures r.Pass? <==> tid in user.teams && Level(user.teams[tid].permissions) >= Level(reqRole)
    ensures tid !in user.teams ==> r == Fail(RightsException(NOT_IN_TEAM_MESSAGE))
    ensures tid in user.teams && r.Fail? ==>
      r == Fail(RightsException(InsufficientRightsMessage(reqRole, user.teams[tid].permissions)))
  {
    if tid !in user.teams then Fail(RightsException(NOT_IN_TEAM_MESSAGE))
    else if Level(user.teams[tid].permissions) < Level(reqRole) then
      Fail(RightsException(InsufficientRightsMessage(reqRole, user.teams[tid].permissions)))
    else Pass
  }

  /** Rights that suffice for an action suffice for every action needing less. */
  lemma CheckRightsMonotone(user: AegisUser, tid: int, reqRole: UserPermissions, lower: UserPermissions)
    requires Level(lower) <= Level(reqRole)
    requires CheckRights(user, tid, reqRole).Pass?
    ensures CheckRights(user, tid, lower).Pass?
  {
  }

  /** An admin of a team passes every rights check on it; a member passes the READ check. */
  lemma AdminPassesEveryCheck(user: AegisUser, tid: int, reqRole: UserPermissions)
    requires tid in user.teams
    ensures user.teams[tid].permissions == ADMIN ==> CheckRights(user, tid, reqRole).Pass?
    ensures CheckRights(user, tid, READ).Pass?
  {
  }

  /** The members of a team holding ADMIN. */
  function Admins(users: map<int, TeamUserInfo>): (a: set<int>)
    ensures forall uid :: uid in a <==> uid in users && users[uid].permissions == ADMIN
  {
    set uid | uid in users && users[uid].permissions == ADMIN
  }

  /** checkAdminDelete with a team: refuses iff the user is an admin of the team and the team
      has fewer than two admins. */
  function CheckAdminDeleteInTeam(user: AegisUser, team: AegisTeam): (r: Outcome<RequestException>)
    ensures r.Fail? <==> user.id in Admins(team.users) && |Admins(team.users)| < 2
    ensures r.Fail? ==> r.error == RightsException(FAILED_DELETE_ONLY_ADMIN_MESSAGE)
  {
    if user.id in team.users && team.users[user.id].permissions == ADMIN && |Admins(team.users)| < 2 then
      Fail(RightsException(FAILED_DELETE_ONLY_ADMIN_MESSAGE))
    else Pass
  }

  /** The check refuses exactly the sole admin of the team. */
  lemma {:induction false} RefusedIsSoleAdmin(user: AegisUser, team: AegisTeam)
    ensures CheckAdminDeleteInTeam(user, team).Fail? <==> Admins(team.users) == {user.id}
  {
    var admins := Admins(team.users);
    if user.id in admins && |admins| < 2 {
      assert |admins - {user.id}| == |admins| - 1;
      assert admins - {user.id} == {};
      assert admins == {user.id} by {
        forall a | a in admins ensures a == user.id {
          assert a !in admins - {user.id};
        }
      }
    }
  }

  /** Whenever the check passes, removing the user from the members leaves the team with an admin,
      provided it had one. */
  lemma {:induction false} PassKeepsAnAdmin(user: AegisUser, team: AegisTeam)
    requires Admins(team.users) != {}
    requires CheckAdminDeleteInTeam(user, team).Pass?
    ensures Admins(team.users - {user.id}) != {}
  {
    var admins := Admins(team.users);
    var others := admins - {user.id};
    if user.id in admins {
      assert |others| == |admins| - 1;
    }
    assert others != {} by {
      if user.id !in admins {
        assert others == admins;
      }
    }
    var a := NonEmptyHasMember(others);
    assert a in Admins(team.users - {user.id});
  }

  /** Whether checkAdminDelete with that team lets the user go: the team reads back and the
      per-team check passes. */
  ghost predicate TeamReleases(s: PasswordDatabase.Store, user: AegisUser, tid: int)
  {
    match PasswordDatabase.ReadTeam(s, tid)
    case Some(team) => CheckAdminDeleteInTeam(user, team).Pass?
    case None => false
  }

  /** The per-team check applied to a team that reads back. */
  ghost function ReadAndCheck(s: PasswordDatabase.Store, user: AegisUser, tid: int): (r: Outcome<RequestException>)
    ensures r.Pass? <==> TeamReleases(s, user, tid)
  {
    match PasswordDatabase.ReadTeam(s, tid)
    case Some(team) => CheckAdminDeleteInTeam(user, team)
    case None => Fail(MessageException("Unable to locate team."))
  }

  /** checkAdminDelete without a team: the per-team check over every team of the user, with
      each team read from the database. */
  method CheckAdminDelete(db: AegisPasswordDatabase.AegisPasswordDatabase, user: AegisUser)
    returns (r: Outcome<RequestException>)
    ensures r.Pass? <==> forall tid :: tid in user.teams ==> TeamReleases(db.State(), user, tid)
    ensures r.Fail? ==> exists tid :: tid in user.teams && ReadAndCheck(db.State(), user, tid) == r
  {
    var todo := user.teams.Keys;
    while todo != {}
      invariant todo <= user.teams.Keys
      invariant forall tid :: tid in user.teams && tid !in todo ==> TeamReleases(db.State(), user, tid)
      decreases |todo|
    {
      ghost var member := NonEmptyHasMember(todo);
      var tid :| tid in todo;
      var team := db.ReadTeam(tid);
      if team.None? {
        assert ReadAndCheck(db.State(), user, tid) == Fail(MessageException("Unable to locate team."));
        return Fail(MessageException("Unable to locate team."));
      }
      var check := CheckAdminDeleteInTeam(user, team.value);
      if check.Fail? {
        assert ReadAndCheck(db.State(), user, tid) == check;
        return check;
      }
      todo := todo - {tid};
    }
    r := Pass;
  }

  /** deleteUser's guard: a user passes only when no team of theirs would lose its last admin. */
  lemma DeleteUserGuard(s: PasswordDatabase.Store, user: AegisUser, tid: int)
    requires forall t :: t in user.teams ==> TeamReleases(s, user, t)
    requires tid in user.teams
    requires PasswordDatabase.ReadTeam(s, tid).Some?
    ensures Admins(PasswordDatabase.ReadTeam(s, tid).value.users) != {user.id}
  {
    assert TeamReleases(s, user, tid);
    RefusedIsSoleAdmin(user, PasswordDatabase.ReadTeam(s, tid).value);
  }

  // ------------------------------------------------------------ unwrapping reads

  /** getUserOptional: a missing user is a message failure. */
  function GetUser(user: Option<AegisUser>): (r: Result<AegisUser, RequestException>)
    ensures r.Ok? <==> user.Some?
    ensures r.Ok? ==> r.value == user.value
    ensures r.Err? ==> r.error == MessageException("Unable to locate user.")
  {
    match user
    case Some(u) => Ok(u)
    case None => Err(MessageException("Unable to locate user."))
  }

  /** getTeamOptional: a missing team is a message failure. */
  function GetTeam(team: Option<AegisTeam>): (r: Result<AegisTeam, RequestException>)
    ensures r.Ok? <==> team.Some?
    ensures r.Ok? ==> r.value == team.value
    ensures r.Err? ==> r.error == MessageException("Unable to locate team.")
  {
    match team
    case Some(t) => Ok(t)
    case None => Err(MessageException("Unable to locate team."))
  }

  /** The steps every membership handler starts with: the caller, an ADMIN of the team; the
      target user; and the team, each read from the database. */
  predicate AdminRequestReads(caller: Option<AegisUser>, target: Option<AegisUser>, team: Option<AegisTeam>, tid: int)
  {
    caller.Some? && CheckRights(caller.value, tid, ADMIN).Pass? && target.Some? && team.Some?
  }

  // ------------------------------------------------------------ membership handlers

  /** createTeam: a team whose only member is the caller, as ADMIN with the given key, and
      which has no entries. */
  function CreateTeam(uid: int, teamName: string, teamKey: string): (t: NoIDAegisTeam)
    ensures t.teamInfo == TeamInfo(teamName) && t.entries == []
    ensures t.users.Keys == {uid} && t.users[uid] == TeamUserInfo(ADMIN, teamKey)
  {
    NoIDAegisTeam(TeamInfo(teamName), [], map[uid := TeamUserInfo(ADMIN, teamKey)])
  }

  /** The creator is the new team's sole admin. */
  lemma CreatorIsSoleAdmin(uid: int, teamName: string, teamKey: string)
    ensures Admins(CreateTeam(uid, teamName, teamKey).users) == {uid}
  {
    assert uid in Admins(CreateTeam(uid, teamName, teamKey).users);
  }

  /** addUserToTeam: the team with one more member, unless the user is already on it. */
  function AddUserToTeam(caller: Option<AegisUser>, target: Option<AegisUser>, team: Option<AegisTeam>,
                         tid: int, uid: int, permissions: UserPermissions, teamKey: string)
    : (r: Result<AegisTeam, RequestException>)
    ensures r.Ok? <==> AdminRequestReads(caller, target, team, tid) && uid !in team.value.users
    ensures AdminRequestReads(caller, target, team, tid) && uid in team.value.users ==>
      r == Err(MessageException("This user is already on the team."))
    ensures r.Ok? ==> r.value == team.value.(users := r.value.users)
    ensures r.Ok? ==> r.value.users.Keys == team.value.users.Keys + {uid}
    ensures r.Ok? ==> r.value.users[uid] == TeamUserInfo(permissions, teamKey)
    ensures r.Ok? ==> forall u :: u in team.value.users ==> r.value.users[u] == team.value.users[u]
  {
    if caller.None? then Err(MessageException("Unable to locate user."))
    else if CheckRights(caller.value, tid, ADMIN).Fail? then Err(CheckRights(caller.value, tid, ADMIN).error)
    else if target.None? then Err(MessageException("Unable to locate user."))
    else if team.None? then Err(MessageException("Unable to locate team."))
    else if uid in team.value.users then Err(MessageException("This user is already on the team."))
    else Ok(team.value.WithUsers(team.value.users[uid := TeamUserInfo(permissions, teamKey)]))
  }

  /** changeUserPermissions: the member's permission replaced and its team key kept. Lowering
      a member below ADMIN first runs the last-admin check. */
  function ChangeUserPermissions(caller: Option<AegisUser>, target: Option<AegisUser>, team: Option<AegisTeam>,
                                 tid: int, uid: int, permissions: UserPermissions)
    : (r: Result<AegisTeam, RequestException>)
    ensures r.Ok? <==> (AdminRequestReads(caller, target, team, tid)
                        && (permissions != ADMIN ==> CheckAdminDeleteInTeam(target.value, team.value).Pass?)
                        && uid in team.value.users)
    ensures r.Ok? ==> r.value == team.value.(users := r.value.users)
    ensures r.Ok? ==> r.value.users.Keys == team.value.users.Keys
    ensures r.Ok? ==> r.value.users[uid] == TeamUserInfo(permissions, team.value.users[uid].teamKey)
    ensures r.Ok? ==> forall u :: u in team.value.users && u != uid ==> r.value.users[u] == team.value.users[u]
  {
    if caller.None? then Err(MessageException("Unable to locate user."))
    else if CheckRights(caller.value, tid, ADMIN).Fail? then Err(CheckRights(caller.value, tid, ADMIN).error)
    else if target.None? then Err(MessageException("Unable to locate user."))
    else if team.None? then Err(MessageException("Unable to locate team."))
    else if permissions != ADMIN && CheckAdminDeleteInTeam(target.value, team.value).Fail? then
      Err(CheckAdminDeleteInTeam(target.value, team.value).error)
    else if uid !in team.value.users then Err(MessageException("User was not in the team"))
    else
      var info := team.value.users[uid];
      Ok(team.value.WithUsers(team.value.users[uid := TeamUserInfo(permissions, info.teamKey)]))
  }

  /** changeUserTeamkey: the member's team key replaced and its permission kept. */
  function ChangeUserTeamkey(caller: Option<AegisUser>, target: Option<AegisUser>, team: Option<AegisTeam>,
                             tid: int, uid: int, teamKey: string)
    : (r: Result<AegisTeam, RequestException>)
    ensures r.Ok? <==> AdminRequestReads(caller, target, team, tid) && uid in team.value.users
    ensures r.Ok? ==> r.value == team.value.(users := r.value.users)
    ensures r.Ok? ==> r.value.users.Keys == team.value.users.Keys
    ensures r.Ok? ==> r.value.users[uid] == TeamUserInfo(team.value.users[uid].permissions, teamKey)
    ensures r.Ok? ==> forall u :: u in team.value.users && u != uid ==> r.value.users[u] == team.value.users[u]
  {
    if caller.None? then Err(MessageException("Unable to locate user."))
    else if CheckRights(caller.value, tid, ADMIN).Fail? then Err(CheckRights(caller.value, tid, ADMIN).error)
    else if target.None? then Err(MessageException("Unable to locate user."))
    else if team.None? then Err(MessageException("Unable to locate team."))
    else if uid !in team.value.users then Err(MessageException("User was not in the team"))
    else
      var info := team.value.users[uid];
      Ok(team.value.WithUsers(team.value.users[uid := TeamUserInfo(info.permissions, teamKey)]))
  }

  /** deleteUserFromTeam: the team without the member, after the last-admin check. */
  function DeleteUserFromTeam(caller: Option<AegisUser>, target: Option<AegisUser>, team: Option<AegisTeam>,
                              tid: int, uid: int)
    : (r: Result<AegisTeam, RequestException>)
    ensures r.Ok? <==> (AdminRequestReads(caller, target, team, tid)
                        && CheckAdminDeleteInTeam(target.value, team.value).Pass?)
    ensures r.Ok? ==> r.value == team.value.(users := team.value.users - {uid})
  {
    if caller.None? then Err(MessageException("Unable to locate user."))
    else if CheckRights(caller.value, tid, ADMIN).Fail? then Err(CheckRights(caller.value, tid, ADMIN).error)
    else if target.None? then Err(MessageException("Unable to locate user."))
    else if team.None? then Err(MessageException("Unable to locate team."))
    else if CheckAdminDeleteInTeam(target.value, team.value).Fail? then
      Err(CheckAdminDeleteInTeam(target.value, team.value).error)
    else Ok(team.value.WithUsers(team.value.users - {uid}))
  }

  /** Removing a member the database read as `uid` never leaves an administered team without an admin. */
  lemma DeleteUserFromTeamKeepsAnAdmin(caller: Option<AegisUser>, target: Option<AegisUser>, team: Option<AegisTeam>,
                                       tid: int, uid: int)
    requires target.Some? ==> target.value.id == uid
    requires team.Some? && Admins(team.value.users) != {}
    requires DeleteUserFromTeam(caller, target, team, tid, uid).Ok?
    ensures Admins(DeleteUserFromTeam(caller, target, team, tid, uid).value.users) != {}
  {
    PassKeepsAnAdmin(target.value, team.value);
  }

  /** Changing a member's permission never leaves an administered team without an admin. */
  lemma {:induction false} ChangeUserPermissionsKeepsAnAdmin(caller: Option<AegisUser>, target: Option<AegisUser>,
                                                             team: Option<AegisTeam>, tid: int, uid: int,
                                                             permissions: UserPermissions)
    requires target.Some? ==> target.value.id == uid
    requires team.Some? && Admins(team.value.users) != {}
    requires ChangeUserPermissions(caller, target, team, tid, uid, permissions).Ok?
    ensures Admins(ChangeUserPermissions(caller, target, team, tid, uid, permissions).value.users) != {}
  {
    var after := ChangeUserPermissions(caller, target, team, tid, uid, permissions).value.users;
    if permissions == ADMIN {
      assert uid in Admins(after);
    } else {
      PassKeepsAnAdmin(target.value, team.value);
      var a := NonEmptyHasMember(Admins(team.value.users - {uid}));
      assert a in Admins(after);
    }
  }

  /** Adding a member keeps every admin an admin. */
  lemma AddUserToTeamKeepsAdmins(caller: Option<AegisUser>, target: Option<AegisUser>, team: Option<AegisTeam>,
                                 tid: int, uid: int, permissions: UserPermissions, teamKey: string)
    requires AddUserToTeam(caller, target, team, tid, uid, permissions, teamKey).Ok?
    ensures Admins(team.value.users) <= Admins(AddUserToTeam(caller, target, team, tid, uid, permissions, teamKey).value.users)
  {
  }

  /** Changing a team key changes no one's admin status. */
  lemma ChangeUserTeamkeyKeepsAdmins(caller: Option<AegisUser>, target: Option<AegisUser>, team: Option<AegisTeam>,
                                     tid: int, uid: int, teamKey: string)
    requires ChangeUserTeamkey(caller, target, team, tid, uid, teamKey).Ok?
    ensures Admins(ChangeUserTeamkey(caller, target, team, tid, uid, teamKey).value.users) == Admins(team.value.users)
  {
    var after := ChangeUserTeamkey(caller, target, team, tid, uid, teamKey).value.users;
    assert forall u :: u in after ==> after[u].permissions == team.value.users[u].permissions;
  }
}
