/** The permission levels a user can hold in a team (model/UserPermissions.java). */
module Permissions {

  datatype UserPermissions = READ | WRITE | ADMIN

  /** The enum's `level` field. */
  function Level(p: UserPermissions): (l: nat)
    ensures l <= 2
    ensures l == 2 <==> p == ADMIN
  {
    match p
    case READ => 0
    case WRITE => 1
    case ADMIN => 2
  }

  /** The enum's `name()`. */
  function Name(p: UserPermissions): (s: string)
    ensures |s| > 0
  {
    match p
    case READ => "READ"
    case WRITE => "WRITE"
    case ADMIN => "ADMIN"
  }

  /** The names are distinct, so the rights-failure message tells the permissions apart. */
  lemma NameInjective(p: UserPermissions, q: UserPermissions)
    ensures Name(p) == Name(q) <==> p == q
  {
    if p != q {
      assert Name(p)[0] != Name(q)[0];
    }
  }

  /** The levels are distinct, so a level identifies its permission. */
  lemma LevelInjective(p: UserPermissions, q: UserPermissions)
    ensures Level(p) == Level(q) <==> p == q
  {
  }

  /** Comparing levels orders the permissions READ < WRITE < ADMIN. */
  lemma LevelOrder(p: UserPermissions, q: UserPermissions)
    ensures Level(p) < Level(q) <==> (p == READ && q != READ) || (p == WRITE && q == ADMIN)
  {
  }
}
