/** The Team table (database/table/TeamTable.java): tid integer primary key, info blob. */
module TeamTable {
  import opened Wrappers
  import opened Sqlite
  import opened Model

  class TeamTable {
    var rows: map<int, TeamInfo>

    /** Attaches to the Team table of an open database file and its stored rows. */
    constructor(stored: map<int, TeamInfo>)
      ensures rows == stored
    {
      rows := stored;
    }

    /** Inserts the info under the next rowid and returns it; a rowid beyond Java's int range is
        inserted and then reported as a failure. */
    method AddTeam(team: NoIDAegisTeam) returns (r: Result<int, SQLException>)
      modifies this
      ensures var tid := NextRowid(old(rows).Keys);
        rows == old(rows)[tid := team.teamInfo]
        && r == (if FitsInInt(tid) then Ok(tid) else Err(SQLException("Unable to add the team")))
    {
      var tid := NextRowid(rows.Keys);
      rows := rows[tid := team.teamInfo];
      if FitsInInt(tid) {
        r := Ok(tid);
      } else {
        r := Err(SQLException("Unable to add the team"));
      }
    }

    /** Deletes the row of team.id, then inserts (id, info). */
    method UpdateTeam(team: AegisTeam)
      modifies this
      ensures rows == old(rows)[team.id := team.teamInfo]
    {
      DeleteTeam(team.id);
      rows := rows[team.id := team.teamInfo];
    }

    /** The info of tid, or "Team does not exist". */
    method ReadTeam(tid: int) returns (r: Result<TeamInfo, SQLException>)
      ensures r.Ok? <==> tid in rows
      ensures r.Ok? ==> r.value == rows[tid]
      ensures r.Err? ==> r.error == SQLException("Team does not exist")
    {
      if tid in rows {
        r := Ok(rows[tid]);
      } else {
        r := Err(SQLException("Team does not exist"));
      }
    }

    /** Removes the row of tid; an absent tid is not an error. */
    method DeleteTeam(tid: int)
      modifies this
      ensures rows == old(rows) - {tid}
    {
      rows := rows - {tid};
    }
  }
}
