/** The User table (database/table/UserTable.java): uid integer primary key,
    email text unique, info blob. The rows are a map from uid to row. */
module UserTable {
  import opened Wrappers
  import opened Sqlite
  import opened Model

  datatype UserRow = UserRow(email: string, info: UserInfo)

  predicate EmailTaken(rows: map<int, UserRow>, email: string)
  {
    exists uid :: uid in rows && rows[uid].email == email
  }

  /** The `unique` constraint on the email column. */
  predicate UniqueEmails(rows: map<int, UserRow>)
  {
    forall a, b :: a in rows && b in rows && rows[a].email == rows[b].email ==> a == b
  }

  class UserTable {
    var rows: map<int, UserRow>

    ghost predicate Valid()
      reads this
    {
      UniqueEmails(rows)
    }

    /** Attaches to the User table of an open database file, whose stored rows the email
        column's unique constraint already keeps free of repeated emails. */
    constructor(stored: map<int, UserRow>)
      requires UniqueEmails(stored)
      ensures rows == stored && Valid()
    {
      rows := stored;
    }

    /** Inserts (email, info) under the next rowid and returns that id. A stored email makes the
        insert fail; a rowid beyond Java's int range is inserted and then reported as a failure. */
    method AddUser(user: NoIDAegisUser) returns (r: Result<int, SQLException>)
      requires Valid()
      modifies this
      ensures Valid()
      ensures EmailTaken(old(rows), user.email) ==> r == Err(UniqueEmailViolation) && rows == old(rows)
      ensures !EmailTaken(old(rows), user.email) ==>
        var uid := NextRowid(old(rows).Keys);
        rows == old(rows)[uid := UserRow(user.email, user.userInfo)]
        && r == (if FitsInInt(uid) then Ok(uid) else Err(SQLException("Unable to add the user")))
    {
      if EmailTaken(rows, user.email) {
        return Err(UniqueEmailViolation);
      }
      var uid := NextRowid(rows.Keys);
      rows := rows[uid := UserRow(user.email, user.userInfo)];
      if FitsInInt(uid) {
        r := Ok(uid);
      } else {
        r := Err(SQLException("Unable to add the user"));
      }
    }

    /** Deletes the row of user.id, then inserts (id, email, info); the insert fails when
        another row holds the email, after the deletion has already happened. */
    method UpdateUser(user: AegisUser) returns (r: Outcome<SQLException>)
      requires Valid()
      modifies this
      ensures Valid()
      ensures EmailTaken(old(rows) - {user.id}, user.email) ==>
        r == Fail(UniqueEmailViolation) && rows == old(rows) - {user.id}
      ensures !EmailTaken(old(rows) - {user.id}, user.email) ==>
        r == Pass && rows == old(rows)[user.id := UserRow(user.email, user.userInfo)]
    {
      DeleteUser(user.id);
      if EmailTaken(rows, user.email) {
        return Fail(UniqueEmailViolation);
      }
      rows := rows[user.id := UserRow(user.email, user.userInfo)];
      r := Pass;
    }

    /** The row of uid as a user with no teams, or "User does not exist". */
    method ReadUser(uid: int) returns (r: Result<AegisUser, SQLException>)
      ensures r.Ok? <==> uid in rows
      ensures r.Ok? ==> r.value == AegisUser(rows[uid].info, rows[uid].email, map[], uid)
      ensures r.Err? ==> r.error == SQLException("User does not exist")
    {
      if uid in rows {
        r := Ok(AegisUser(rows[uid].info, rows[uid].email, map[], uid));
      } else {
        r := Err(SQLException("User does not exist"));
      }
    }

    /** The uid of the row holding email, or "User does not exist". */
    method GetID(email: string) returns (r: Result<int, SQLException>)
      ensures r.Ok? <==> EmailTaken(rows, email)
      ensures r.Ok? ==> r.value in rows && rows[r.value].email == email
      ensures r.Err? ==> r.error == SQLException("User does not exist")
    {
      if EmailTaken(rows, email) {
        var uid :| uid in rows && rows[uid].email == email;
        r := Ok(uid);
      } else {
        r := Err(SQLException("User does not exist"));
      }
    }

    /** Removes the row of uid; an absent uid is not an error. */
    method DeleteUser(uid: int)
      requires Valid()
      modifies this
      ensures Valid()
      ensures rows == old(rows) - {uid}
    {
      rows := rows - {uid};
    }
  }
}
