/** The value types of the store (package model): records whose fields never change,
    `with*` updaters that build new values, and field-wise equality.
    Java copies the collections handed to the NoIDAegisUser and NoIDAegisTeam constructors;
    Dafny's maps and sequences are values, so that copy is implicit here. */
module Model {
  import opened Permissions

  /** The fields of a password-change request that withMasterPasswordUpdate reads. */
  datatype ReqUpdateMasterPassword = ReqUpdateMasterPassword(
    hashedMasterPassword: string,
    masterPasswordSalt: string,
    encKeyDerivationSalt: string,
    macKeyDerivationSalt: string,
    publicKeyMAC: string,
    encIv: string,
    privateKey: string)

  /** Everything stored about a user besides the email and the memberships. */
  datatype UserInfo = UserInfo(
    firstName: string,
    lastName: string,
    hashedMasterPassword: string,
    masterPasswordSalt: string,
    encKeyDerivationSalt: string,
    macKeyDerivationSalt: string,
    publicKey: string,
    publicKeyMAC: string,
    encIv: string,
    privateKey: string)
  {
    /** A copy with new names; the other eight fields are kept. */
    function WithFirstNameAndLastName(newFirstName: string, newLastName: string): (r: UserInfo)
      ensures r == this.(firstName := newFirstName, lastName := newLastName)
    {
      UserInfo(newFirstName, newLastName, hashedMasterPassword, masterPasswordSalt,
               encKeyDerivationSalt, macKeyDerivationSalt, publicKey, publicKeyMAC, encIv, privateKey)
    }

    /** A copy that takes every password-derived field from the request and keeps the names
        and the public key. */
    function WithMasterPasswordUpdate(json: ReqUpdateMasterPassword): (r: UserInfo)
      ensures r.firstName == firstName && r.lastName == lastName && r.publicKey == publicKey
      ensures r.hashedMasterPassword == json.hashedMasterPassword
      ensures r.masterPasswordSalt == json.masterPasswordSalt
      ensures r.encKeyDerivationSalt == json.encKeyDerivationSalt
      ensures r.macKeyDerivationSalt == json.macKeyDerivationSalt
      ensures r.publicKeyMAC == json.publicKeyMAC
      ensures r.encIv == json.encIv
      ensures r.privateKey == json.privateKey
    {
      UserInfo(firstName, lastName, json.hashedMasterPassword, json.masterPasswordSalt,
               json.encKeyDerivationSalt, json.macKeyDerivationSalt, publicKey,
               json.publicKeyMAC, json.encIv, json.privateKey)
    }

    /** A copy with a new public key; the other nine fields are kept. */
    function WithPublicKey(newPublicKey: string): (r: UserInfo)
      ensures r == this.(publicKey := newPublicKey)
    {
      UserInfo(firstName, lastName, hashedMasterPassword, masterPasswordSalt,
               encKeyDerivationSalt, macKeyDerivationSalt, newPublicKey, publicKeyMAC, encIv, privateKey)
    }

    /** `equals`: the ten fields compared one by one, which is exactly value equality. */
    function Equals(o: UserInfo): (b: bool)
      ensures b <==> this == o
    {
      firstName == o.firstName && lastName == o.lastName
      && hashedMasterPassword == o.hashedMasterPassword && masterPasswordSalt == o.masterPasswordSalt
      && encKeyDerivationSalt == o.encKeyDerivationSalt && macKeyDerivationSalt == o.macKeyDerivationSalt
      && publicKey == o.publicKey && publicKeyMAC == o.publicKeyMAC
      && encIv == o.encIv && privateKey == o.privateKey
    }
  }

  /** A user's permission in one team and the team key encrypted for that user. */
  datatype TeamUserInfo = TeamUserInfo(permissions: UserPermissions, teamKey: string)

  datatype TeamInfo = TeamInfo(teamName: string)

  /** The stored contents of a password entry. */
  datatype EntryInfo = EntryInfo(title: string, username: string, password: string, iv: string)

  /** A user before the store has given it an id. `teams` maps team id to membership. */
  datatype NoIDAegisUser = NoIDAegisUser(userInfo: UserInfo, email: string, teams: map<int, TeamUserInfo>)
  {
    function Equals(o: NoIDAegisUser): (b: bool)
      ensures b <==> this == o
    {
      userInfo.Equals(o.userInfo) && email == o.email && teams == o.teams
    }
  }

  datatype AegisUser = AegisUser(userInfo: UserInfo, email: string, teams: map<int, TeamUserInfo>, id: int)
  {
    /** A copy with new user information; email, teams and id are kept. */
    function WithUserInfo(newUserInfo: UserInfo): (r: AegisUser)
      ensures r.userInfo == newUserInfo
      ensures r.email == email && r.teams == teams && r.id == id
    {
      AegisUser(newUserInfo, email, teams, id)
    }

    /** A copy with a new email; user information, teams and id are kept. */
    function WithEmail(newEmail: string): (r: AegisUser)
      ensures r.email == newEmail
      ensures r.userInfo == userInfo && r.teams == teams && r.id == id
    {
      AegisUser(userInfo, newEmail, teams, id)
    }

    /** The part the superclass compares. */
    function WithoutId(): NoIDAegisUser
    {
      NoIDAegisUser(userInfo, email, teams)
    }

    /** `equals`: the superclass's comparison plus the ids. */
    function Equals(o: AegisUser): (b: bool)
      ensures b <==> this == o
    {
      WithoutId().Equals(o.WithoutId()) && id == o.id
    }
  }

  /** A team before the store has given it an id. `entries` lists entry ids,
      `users` maps user id to membership. */
  datatype NoIDAegisTeam = NoIDAegisTeam(teamInfo: TeamInfo, entries: seq<int>, users: map<int, TeamUserInfo>)
  {
    function Equals(o: NoIDAegisTeam): (b: bool)
      ensures b <==> this == o
    {
      teamInfo == o.teamInfo && entries == o.entries && users == o.users
    }
  }

  datatype AegisTeam = AegisTeam(teamInfo: TeamInfo, entries: seq<int>, users: map<int, TeamUserInfo>, id: int)
  {
    /** A copy with a new membership map; team information, entries and id are kept. */
    function WithUsers(newUsers: map<int, TeamUserInfo>): (r: AegisTeam)
      ensures r.users == newUsers
      ensures r.teamInfo == teamInfo && r.entries == entries && r.id == id
    {
      AegisTeam(teamInfo, entries, newUsers, id)
    }

    function WithoutId(): NoIDAegisTeam
    {
      NoIDAegisTeam(teamInfo, entries, users)
    }

    /** `equals`: team information, the entry list in order, the membership map and the id. */
    function Equals(o: AegisTeam): (b: bool)
      ensures b <==> this == o
    {
      WithoutId().Equals(o.WithoutId()) && id == o.id
    }
  }

  /** An entry before the store has given it an id; `team` is the owning team's id. */
  datatype NoIDAegisEntry = NoIDAegisEntry(entryInfo: EntryInfo, team: int)

  datatype AegisEntry = AegisEntry(entryInfo: EntryInfo, team: int, id: int)

  /** Setting the names to the ones already there gives back the same value. */
  lemma SameNamesIsIdentity(info: UserInfo)
    ensures info.WithFirstNameAndLastName(info.firstName, info.lastName) == info
  {
  }

  /** Setting the membership map to the one already there gives back the same team. */
  lemma SameUsersIsIdentity(t: AegisTeam)
    ensures t.WithUsers(t.users) == t
  {
  }

  /** A master-password update keeps the public key already there, and a second update
      replaces everything the first one wrote. */
  lemma MasterPasswordUpdateKeepsPublicPart(info: UserInfo, a: ReqUpdateMasterPassword, b: ReqUpdateMasterPassword)
    ensures info.WithMasterPasswordUpdate(a).WithPublicKey(info.publicKey)
         == info.WithMasterPasswordUpdate(a)
    ensures info.WithMasterPasswordUpdate(a).WithMasterPasswordUpdate(b) == info.WithMasterPasswordUpdate(b)
  {
  }
}
