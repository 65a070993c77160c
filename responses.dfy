/** The user projections sent to clients (server/json/response). */
module Responses {
  import opened Model

  /** What the owner of an account receives about themself. */
  datatype FullUser = FullUser(
    id: int,
    firstName: string,
    lastName: string,
    encKeyDerivationSalt: string,
    macKeyDerivationSalt: string,
    publicKey: string,
    publicKeyMAC: string,
    encIv: string,
    privateKey: string)

  /** What other users receive about a user. */
  datatype PartialUser = PartialUser(id: int, firstName: string, lastName: string, publicKey: string, email: string)

  /** The FullUser constructor: the id and eight fields of the user information, copied unchanged. */
  function ToFullUser(user: AegisUser): (f: FullUser)
    ensures f.id == user.id
    ensures f.firstName == user.userInfo.firstName && f.lastName == user.userInfo.lastName
    ensures f.encKeyDerivationSalt == user.userInfo.encKeyDerivationSalt
    ensures f.macKeyDerivationSalt == user.userInfo.macKeyDerivationSalt
    ensures f.publicKey == user.userInfo.publicKey && f.publicKeyMAC == user.userInfo.publicKeyMAC
    ensures f.encIv == user.userInfo.encIv && f.privateKey == user.userInfo.privateKey
  {
    var i := user.userInfo;
    FullUser(user.id, i.firstName, i.lastName, i.encKeyDerivationSalt, i.macKeyDerivationSalt,
             i.publicKey, i.publicKeyMAC, i.encIv, i.privateKey)
  }

  /** The PartialUser constructor: id, names, public key and email. */
  function ToPartialUser(user: AegisUser): (p: PartialUser)
    ensures p.id == user.id && p.email == user.email
    ensures p.firstName == user.userInfo.firstName && p.lastName == user.userInfo.lastName
    ensures p.publicKey == user.userInfo.publicKey
  {
    PartialUser(user.id, user.userInfo.firstName, user.userInfo.lastName, user.userInfo.publicKey, user.email)
  }

  /** A FullUser does not depend on the password hash, the master-password salt, the email or the
      memberships: two users differing only there give the same projection. */
  lemma FullUserHidesSecrets(user: AegisUser, hash: string, salt: string, email: string,
                             teams: map<int, TeamUserInfo>)
    ensures ToFullUser(user.(userInfo := user.userInfo.(hashedMasterPassword := hash, masterPasswordSalt := salt),
                             email := email, teams := teams)) == ToFullUser(user)
  {
  }

  /** A PartialUser does not depend on any secret of the account: the hash, both salts used for
      key derivation, the master-password salt, the MAC, the IV and the private key, nor on the
      memberships. */
  lemma PartialUserHidesSecrets(user: AegisUser, other: UserInfo, teams: map<int, TeamUserInfo>)
    requires other.firstName == user.userInfo.firstName && other.lastName == user.userInfo.lastName
    requires other.publicKey == user.userInfo.publicKey
    ensures ToPartialUser(user.(userInfo := other, teams := teams)) == ToPartialUser(user)
  {
  }

  /** Both projections of one user agree on what they share. */
  lemma ProjectionsAgree(user: AegisUser)
    ensures ToFullUser(user).id == ToPartialUser(user).id
    ensures ToFullUser(user).firstName == ToPartialUser(user).firstName
    ensures ToFullUser(user).lastName == ToPartialUser(user).lastName
    ensures ToFullUser(user).publicKey == ToPartialUser(user).publicKey
  {
  }
}
