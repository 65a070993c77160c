/** The TeamEntry join table (database/table/TeamEntryTable.java): rows (eid, tid) with
    `eid unique ON CONFLICT REPLACE`. The rows are kept in insertion (rowid) order, which is the
    order a query over tid returns them in; a replacing insert removes the old row of the eid
    and appends the new one. */
module TeamEntryTable {
  import opened Wrappers
  import opened Sqlite

  datatype TeamEntryRow = TeamEntryRow(eid: int, tid: int)

  /** At most one row per eid. */
  predicate UniqueEntries(rows: seq<TeamEntryRow>)
  {
    forall i, j :: 0 <= i < |rows| && 0 <= j < |rows| && rows[i].eid == rows[j].eid ==> i == j
  }

  /** The rows whose eid differs from eid, in their order. */
  function WithoutEntry(rows: seq<TeamEntryRow>, eid: int): (r: seq<TeamEntryRow>)
    ensures forall x :: x in r <==> x in rows && x.eid != eid
  {
    if rows == [] then []
    else
      assert rows == rows[..|rows| - 1] + [rows[|rows| - 1]];
      var init := WithoutEntry(rows[..|rows| - 1], eid);
      if rows[|rows| - 1].eid == eid then init else init + [rows[|rows| - 1]]
  }

  /** The rows whose tid differs from tid, in their order. */
  function WithoutTeam(rows: seq<TeamEntryRow>, tid: int): (r: seq<TeamEntryRow>)
    ensures forall x :: x in r <==> x in rows && x.tid != tid
  {
    if rows == [] then []
    else
      assert rows == rows[..|rows| - 1] + [rows[|rows| - 1]];
      var init := WithoutTeam(rows[..|rows| - 1], tid);
      if rows[|rows| - 1].tid == tid then init else init + [rows[|rows| - 1]]
  }

  /** The eids of the rows of tid, in row order. */
  function EntriesOf(rows: seq<TeamEntryRow>, tid: int): (r: seq<int>)
    ensures forall eid :: eid in r <==> TeamEntryRow(eid, tid) in rows
  {
    if rows == [] then []
    else
      assert rows == rows[..|rows| - 1] + [rows[|rows| - 1]];
      var init := EntriesOf(rows[..|rows| - 1], tid);
      if rows[|rows| - 1].tid == tid then init + [rows[|rows| - 1].eid] else init
  }

  /** The tid of a row of eid, if there is one. */
  function TeamOf(rows: seq<TeamEntryRow>, eid: int): (r: Option<int>)
    ensures r.None? <==> forall i :: 0 <= i < |rows| ==> rows[i].eid != eid
    ensures r.Some? ==> TeamEntryRow(eid, r.value) in rows
  {
    if rows == [] then None
    else
      var last := rows[|rows| - 1];
      if last.eid == eid then Some(last.tid) else TeamOf(rows[..|rows| - 1], eid)
  }

  /** The rows after inserting (eid, tid) for each eid of eids in turn, each replacing the
      previous row of its eid. */
  function AddTeamEntries(rows: seq<TeamEntryRow>, tid: int, eids: seq<int>): (r: seq<TeamEntryRow>)
    ensures forall x :: x in r <==> (x in rows && x.eid !in eids) || (x.tid == tid && x.eid in eids)
  {
    if eids == [] then rows
    else
      var eid := eids[|eids| - 1];
      assert eids == eids[..|eids| - 1] + [eid];
      WithoutEntry(AddTeamEntries(rows, tid, eids[..|eids| - 1]), eid) + [TeamEntryRow(eid, tid)]
  }

  /** After the inserts, every listed entry belongs to tid. */
  lemma AddedEntriesBelongToTeam(rows: seq<TeamEntryRow>, tid: int, eids: seq<int>)
    ensures forall eid :: eid in eids ==> TeamOf(AddTeamEntries(rows, tid, eids), eid) == Some(tid)
  {
    var r := AddTeamEntries(rows, tid, eids);
    forall eid | eid in eids ensures TeamOf(r, eid) == Some(tid) {
      assert TeamEntryRow(eid, tid) in r;
      var i :| 0 <= i < |r| && r[i] == TeamEntryRow(eid, tid);
      assert TeamOf(r, eid).Some?;
    }
  }

  /** Two rows of one eid in a table with unique eids name the same team. */
  lemma UniqueTeam(rows: seq<TeamEntryRow>, eid: int, t1: int, t2: int)
    requires UniqueEntries(rows)
    requires TeamEntryRow(eid, t1) in rows && TeamEntryRow(eid, t2) in rows
    ensures t1 == t2
  {
    var i :| 0 <= i < |rows| && rows[i] == TeamEntryRow(eid, t1);
    var j :| 0 <= j < |rows| && rows[j] == TeamEntryRow(eid, t2);
  }

  /** eid is among the entries of tid exactly when its row names tid. */
  lemma EntriesAgreeWithTeam(rows: seq<TeamEntryRow>, tid: int, eid: int)
    requires UniqueEntries(rows)
    ensures eid in EntriesOf(rows, tid) <==> TeamOf(rows, eid) == Some(tid)
  {
    if eid in EntriesOf(rows, tid) {
      var i :| 0 <= i < |rows| && rows[i] == TeamEntryRow(eid, tid);
      assert TeamOf(rows, eid).Some?;
      UniqueTeam(rows, eid, tid, TeamOf(rows, eid).value);
    }
  }

  /** Appending a row whose eid is new keeps eids unique. */
  lemma UniqueSnoc(rows: seq<TeamEntryRow>, row: TeamEntryRow)
    requires UniqueEntries(rows)
    requires forall x :: x in rows ==> x.eid != row.eid
    ensures UniqueEntries(rows + [row])
  {
    var s := rows + [row];
    forall i, j | 0 <= i < |s| && 0 <= j < |s| && s[i].eid == s[j].eid ensures i == j {
      if i < |rows| {
        assert s[i] in rows;
      }
      if j < |rows| {
        assert s[j] in rows;
      }
    }
  }

  /** Deleting rows keeps eids unique. */
  lemma {:induction false} WithoutEntryUnique(rows: seq<TeamEntryRow>, eid: int)
    requires UniqueEntries(rows)
    ensures UniqueEntries(WithoutEntry(rows, eid))
  {
    if rows != [] {
      var init := rows[..|rows| - 1];
      var last := rows[|rows| - 1];
      assert rows == init + [last];
      assert UniqueEntries(init);
      WithoutEntryUnique(init, eid);
      if last.eid != eid {
        forall x | x in WithoutEntry(init, eid) ensures x.eid != last.eid {
          var i :| 0 <= i < |init| && init[i] == x;
        }
        UniqueSnoc(WithoutEntry(init, eid), last);
      }
    }
  }

  /** Deleting a team's rows keeps eids unique. */
  lemma {:induction false} WithoutTeamUnique(rows: seq<TeamEntryRow>, tid: int)
    requires UniqueEntries(rows)
    ensures UniqueEntries(WithoutTeam(rows, tid))
  {
    if rows != [] {
      var init := rows[..|rows| - 1];
      var last := rows[|rows| - 1];
      assert rows == init + [last];
      assert UniqueEntries(init);
      WithoutTeamUnique(init, tid);
      if last.tid != tid {
        forall x | x in WithoutTeam(init, tid) ensures x.eid != last.eid {
          var i :| 0 <= i < |init| && init[i] == x;
        }
        UniqueSnoc(WithoutTeam(init, tid), last);
      }
    }
  }

  /** A replacing insert keeps eids unique. */
  lemma ReplaceUnique(rows: seq<TeamEntryRow>, eid: int, tid: int)
    requires UniqueEntries(rows)
    ensures UniqueEntries(WithoutEntry(rows, eid) + [TeamEntryRow(eid, tid)])
  {
    WithoutEntryUnique(rows, eid);
    UniqueSnoc(WithoutEntry(rows, eid), TeamEntryRow(eid, tid));
  }

  /** No eid occurs twice. */
  predicate Distinct(eids: seq<int>)
  {
    forall i, j :: 0 <= i < |eids| && 0 <= j < |eids| && eids[i] == eids[j] ==> i == j
  }

  lemma EntriesOfSnoc(rows: seq<TeamEntryRow>, row: TeamEntryRow, tid: int)
    ensures EntriesOf(rows + [row], tid) == EntriesOf(rows, tid) + (if row.tid == tid then [row.eid] else [])
  {
    assert (rows + [row])[..|rows|] == rows;
  }

  /** A team whose entries do not include eid keeps its entry list when eid's row is deleted. */
  lemma {:induction false} EntriesOfWithoutOther(rows: seq<TeamEntryRow>, tid: int, eid: int)
    requires eid !in EntriesOf(rows, tid)
    ensures EntriesOf(WithoutEntry(rows, eid), tid) == EntriesOf(rows, tid)
  {
    if rows != [] {
      var init := rows[..|rows| - 1];
      var last := rows[|rows| - 1];
      assert rows == init + [last];
      EntriesOfSnoc(init, last, tid);
      EntriesOfWithoutOther(init, tid, eid);
      if last.eid != eid {
        EntriesOfSnoc(WithoutEntry(init, eid), last, tid);
      }
    }
  }

  /** After deleting a team's rows the team has no entries. */
  lemma {:induction false} WithoutTeamHasNoEntries(rows: seq<TeamEntryRow>, tid: int)
    ensures EntriesOf(WithoutTeam(rows, tid), tid) == []
  {
    if rows != [] {
      var init := rows[..|rows| - 1];
      var last := rows[|rows| - 1];
      WithoutTeamHasNoEntries(init, tid);
      if last.tid != tid {
        EntriesOfSnoc(WithoutTeam(init, tid), last, tid);
      }
    }
  }

  /** Replacing-inserting a distinct list of eids for a team that had no entries leaves the team
      with exactly that list, in order. */
  lemma {:induction false} EntriesAfterAdd(rows: seq<TeamEntryRow>, tid: int, eids: seq<int>)
    requires EntriesOf(rows, tid) == []
    requires Distinct(eids)
    ensures EntriesOf(AddTeamEntries(rows, tid, eids), tid) == eids
  {
    if eids != [] {
      var init := eids[..|eids| - 1];
      var eid := eids[|eids| - 1];
      assert eids == init + [eid];
      assert Distinct(init);
      EntriesAfterAdd(rows, tid, init);
      var before := AddTeamEntries(rows, tid, init);
      assert eid !in init by {
        forall i | 0 <= i < |init| ensures init[i] != eid {
          assert init[i] == eids[i];
        }
      }
      EntriesOfWithoutOther(before, tid, eid);
      EntriesOfSnoc(WithoutEntry(before, eid), TeamEntryRow(eid, tid), tid);
    }
  }

  /** Replacing-inserts keep eids unique. */
  lemma {:induction false} AddTeamEntriesUnique(rows: seq<TeamEntryRow>, tid: int, eids: seq<int>)
    requires UniqueEntries(rows)
    ensures UniqueEntries(AddTeamEntries(rows, tid, eids))
  {
    if eids != [] {
      AddTeamEntriesUnique(rows, tid, eids[..|eids| - 1]);
      ReplaceUnique(AddTeamEntries(rows, tid, eids[..|eids| - 1]), eids[|eids| - 1], tid);
    }
  }

  /** Once a team's rows are deleted, no entry that belonged to it has a team any more. */
  lemma OrphanedEntry(rows: seq<TeamEntryRow>, tid: int, eid: int)
    requires UniqueEntries(rows)
    requires TeamOf(rows, eid) == Some(tid)
    ensures TeamOf(WithoutTeam(rows, tid), eid) == None
  {
    var after := WithoutTeam(rows, tid);
    if TeamOf(after, eid).Some? {
      UniqueTeam(rows, eid, tid, TeamOf(after, eid).value);
    }
  }

  /** The row just inserted for eid decides its team. */
  lemma TeamOfReplaced(rows: seq<TeamEntryRow>, eid: int, tid: int)
    ensures TeamOf(WithoutEntry(rows, eid) + [TeamEntryRow(eid, tid)], eid) == Some(tid)
  {
  }

  /** The elements of xs that are not in listed, in their order. */
  function Unlisted(xs: seq<int>, listed: seq<int>): (r: seq<int>)
    ensures forall x :: x in r <==> x in xs && x !in listed
  {
    if xs == [] then []
    else
      assert xs == xs[..|xs| - 1] + [xs[|xs| - 1]];
      var init := Unlisted(xs[..|xs| - 1], listed);
      if xs[|xs| - 1] in listed then init else init + [xs[|xs| - 1]]
  }

  /** Dropping a then dropping b is dropping a + b. */
  lemma {:induction false} UnlistedTwice(xs: seq<int>, a: seq<int>, b: seq<int>)
    ensures Unlisted(Unlisted(xs, a), b) == Unlisted(xs, a + b)
  {
    if xs != [] {
      var init := xs[..|xs| - 1];
      var last := xs[|xs| - 1];
      UnlistedTwice(init, a, b);
      if last !in a {
        var u := Unlisted(init, a);
        assert (u + [last])[..|u|] == u;
      }
    }
  }

  /** Deleting the row of one eid leaves the team of every other eid. */
  lemma {:induction false} TeamOfWithoutEntry(rows: seq<TeamEntryRow>, deleted: int, eid: int)
    requires eid != deleted
    ensures TeamOf(WithoutEntry(rows, deleted), eid) == TeamOf(rows, eid)
  {
    if rows != [] {
      var init := rows[..|rows| - 1];
      var last := rows[|rows| - 1];
      TeamOfWithoutEntry(init, deleted, eid);
      if last.eid != deleted {
        var w := WithoutEntry(init, deleted);
        assert (w + [last])[..|w|] == w;
      }
    }
  }

  /** Deleting a team's rows leaves the team of every eid that did not belong to it. */
  lemma {:induction false} TeamOfWithoutTeam(rows: seq<TeamEntryRow>, tid: int, eid: int)
    requires TeamOf(rows, eid) != Some(tid)
    ensures TeamOf(WithoutTeam(rows, tid), eid) == TeamOf(rows, eid)
  {
    if rows != [] {
      var init := rows[..|rows| - 1];
      var last := rows[|rows| - 1];
      if last.eid != eid {
        TeamOfWithoutTeam(init, tid, eid);
      } else if TeamOf(init, eid) != Some(tid) {
        TeamOfWithoutTeam(init, tid, eid);
      }
      if last.tid != tid {
        var w := WithoutTeam(init, tid);
        assert (w + [last])[..|w|] == w;
      }
    }
  }

  /** The inserts for a list of eids leave the team of every eid off the list. */
  lemma {:induction false} TeamOfAfterAddUnlisted(rows: seq<TeamEntryRow>, tid: int, eids: seq<int>, eid: int)
    requires eid !in eids
    ensures TeamOf(AddTeamEntries(rows, tid, eids), eid) == TeamOf(rows, eid)
  {
    if eids != [] {
      var init := eids[..|eids| - 1];
      var last := eids[|eids| - 1];
      assert eids == init + [last];
      TeamOfAfterAddUnlisted(rows, tid, init, eid);
      var w := WithoutEntry(AddTeamEntries(rows, tid, init), last);
      TeamOfWithoutEntry(AddTeamEntries(rows, tid, init), last, eid);
      assert (w + [TeamEntryRow(last, tid)])[..|w|] == w;
    }
  }

  /** Deleting the row of an eid takes that eid, and nothing else, out of every team's list. */
  lemma {:induction false} EntriesOfWithoutEntry(rows: seq<TeamEntryRow>, deleted: int, tid: int)
    ensures EntriesOf(WithoutEntry(rows, deleted), tid) == Unlisted(EntriesOf(rows, tid), [deleted])
  {
    if rows != [] {
      var init := rows[..|rows| - 1];
      var last := rows[|rows| - 1];
      assert rows == init + [last];
      EntriesOfWithoutEntry(init, deleted, tid);
      EntriesOfSnoc(init, last, tid);
      if last.eid != deleted {
        EntriesOfSnoc(WithoutEntry(init, deleted), last, tid);
      }
      var e := EntriesOf(init, tid);
      if last.tid == tid {
        assert (e + [last.eid])[..|e|] == e;
      }
    }
  }

  /** Deleting a team's rows leaves every other team's list. */
  lemma {:induction false} EntriesOfWithoutTeamOther(rows: seq<TeamEntryRow>, deleted: int, tid: int)
    requires tid != deleted
    ensures EntriesOf(WithoutTeam(rows, deleted), tid) == EntriesOf(rows, tid)
  {
    if rows != [] {
      var init := rows[..|rows| - 1];
      var last := rows[|rows| - 1];
      assert rows == init + [last];
      EntriesOfWithoutTeamOther(init, deleted, tid);
      EntriesOfSnoc(init, last, tid);
      if last.tid != deleted {
        EntriesOfSnoc(WithoutTeam(init, deleted), last, tid);
      }
    }
  }

  /** The inserts for a list of eids take those eids out of every other team's list and leave
      the rest of that list in order. */
  lemma {:induction false} EntriesOfAfterAddOther(rows: seq<TeamEntryRow>, tid: int, eids: seq<int>, other: int)
    requires other != tid
    ensures EntriesOf(AddTeamEntries(rows, tid, eids), other) == Unlisted(EntriesOf(rows, other), eids)
  {
    if eids == [] {
      UnlistedNone(EntriesOf(rows, other));
    } else {
      var init := eids[..|eids| - 1];
      var last := eids[|eids| - 1];
      assert eids == init + [last];
      EntriesOfAfterAddOther(rows, tid, init, other);
      var before := AddTeamEntries(rows, tid, init);
      EntriesOfSnoc(WithoutEntry(before, last), TeamEntryRow(last, tid), other);
      EntriesOfWithoutEntry(before, last, other);
      UnlistedTwice(EntriesOf(rows, other), init, [last]);
    }
  }

  /** Dropping nothing keeps the list. */
  lemma {:induction false} UnlistedNone(xs: seq<int>)
    ensures Unlisted(xs, []) == xs
  {
    if xs != [] {
      UnlistedNone(xs[..|xs| - 1]);
      assert xs == xs[..|xs| - 1] + [xs[|xs| - 1]];
    }
  }

  class TeamEntryTable {
    var rows: seq<TeamEntryRow>

    ghost predicate Valid()
      reads this
    {
      UniqueEntries(rows)
    }

    /** Attaches to the TeamEntry table of an open database file, whose stored rows the eid
        column's unique constraint already keeps to one per entry. */
    constructor(stored: seq<TeamEntryRow>)
      requires UniqueEntries(stored)
      ensures rows == stored && Valid()
    {
      rows := stored;
    }

    /** Inserts (eid, tid), replacing the row eid had. */
    method AddTeamAndEntry(tid: int, eid: int)
      requires Valid()
      modifies this
      ensures Valid()
      ensures rows == WithoutEntry(old(rows), eid) + [TeamEntryRow(eid, tid)]
    {
      ReplaceUnique(rows, eid, tid);
      rows := WithoutEntry(rows, eid) + [TeamEntryRow(eid, tid)];
    }

    /** The team of eid's row, or "Unable to find entry". */
    method GetTeam(eid: int) returns (r: Result<int, SQLException>)
      ensures r.Err? <==> forall i :: 0 <= i < |rows| ==> rows[i].eid != eid
      ensures r.Ok? ==> TeamEntryRow(eid, r.value) in rows
      ensures r.Err? ==> r.error == SQLException("Unable to find entry")
    {
      var t := TeamOf(rows, eid);
      if t.Some? {
        r := Ok(t.value);
      } else {
        r := Err(SQLException("Unable to find entry"));
      }
    }

    /** The eids of the rows of tid, appended in row order. */
    method GetEntries(tid: int) returns (ret: seq<int>)
      ensures ret == EntriesOf(rows, tid)
    {
      ret := [];
      for i := 0 to |rows|
        invariant ret == EntriesOf(rows[..i], tid)
      {
        EntriesOfSnoc(rows[..i], rows[i], tid);
        assert rows[..i + 1] == rows[..i] + [rows[i]];
        if rows[i].tid == tid {
          ret := ret + [rows[i].eid];
        }
      }
      assert rows[..|rows|] == rows;
    }

    /** Removes eid's row; an absent eid is not an error. */
    method DeleteEntry(eid: int)
      requires Valid()
      modifies this
      ensures Valid()
      ensures rows == WithoutEntry(old(rows), eid)
    {
      WithoutEntryUnique(rows, eid);
      rows := WithoutEntry(rows, eid);
    }

    /** Removes every row of tid. */
    method DeleteTeam(tid: int)
      requires Valid()
      modifies this
      ensures Valid()
      ensures rows == WithoutTeam(old(rows), tid)
    {
      WithoutTeamUnique(rows, tid);
      rows := WithoutTeam(rows, tid);
    }
  }
}
