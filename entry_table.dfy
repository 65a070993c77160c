/** The Entry table (database/table/EntryTable.java): eid integer primary key, info blob.
    The owning team is kept in the TeamEntry table, not here. */
module EntryTable {
  import opened Wrappers
  import opened Sqlite
  import opened Model

  class EntryTable {
    var rows: map<int, EntryInfo>

    /** Attaches to the Entry table of an open database file and its stored rows. */
    constructor(stored: map<int, EntryInfo>)
      ensures rows == stored
    {
      rows := stored;
    }

    /** Inserts the info under the next rowid and returns it; a rowid beyond Java's int range is
        inserted and then reported as a failure. */
    method AddEntry(entry: NoIDAegisEntry) returns (r: Result<int, SQLException>)
      modifies this
      ensures var eid := NextRowid(old(rows).Keys);
        rows == old(rows)[eid := entry.entryInfo]
        && r == (if FitsInInt(eid) then Ok(eid) else Err(SQLException("Unable to add the entry")))
    {
      var eid := NextRowid(rows.Keys);
      rows := rows[eid := entry.entryInfo];
      if FitsInInt(eid) {
        r := Ok(eid);
      } else {
        r := Err(SQLException("Unable to add the entry"));
      }
    }

    /** Deletes the row of entry.id, then inserts (id, info). */
    method UpdateEntry(entry: AegisEntry)
      modifies this
      ensures rows == old(rows)[entry.id := entry.entryInfo]
    {
      DeleteEntry(entry.id);
      rows := rows[entry.id := entry.entryInfo];
    }

    /** The info of eid, or "Entry does not exist". */
    method ReadEntry(eid: int) returns (r: Result<EntryInfo, SQLException>)
      ensures r.Ok? <==> eid in rows
      ensures r.Ok? ==> r.value == rows[eid]
      ensures r.Err? ==> r.error == SQLException("Entry does not exist")
    {
      if eid in rows {
        r := Ok(rows[eid]);
      } else {
        r := Err(SQLException("Entry does not exist"));
      }
    }

    /** Removes the row of eid; an absent eid is not an error. */
    method DeleteEntry(eid: int)
      modifies this
      ensures rows == old(rows) - {eid}
    {
      rows := rows - {eid};
    }
  }
}
