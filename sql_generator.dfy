/** Statement-text building for the tables (database/SQLGenerator.java).
    A prepared statement is modelled as its SQL text, the values bound to its
    1-based parameter positions, and whether it asks for generated keys; since
    every value travels as a binding, no value ever becomes part of the text. */
module SQLGenerator {
  import opened Wrappers
  import opened Sqlite

  /** params[i] is the value bound at parameter position i + 1. */
  datatype PreparedStatement = PreparedStatement(sql: string, params: seq<int>, returnGeneratedKeys: bool)

  /** x0 + sep + x1 + sep + ... + sep + x(n-1). */
  function Join(xs: seq<string>, sep: string): string
    requires |xs| > 0
  {
    if |xs| == 1 then xs[0] else xs[0] + sep + Join(xs[1..], sep)
  }

  /** x0 + sep + x1 + sep + ... + x(n-1) + sep: every element followed by sep. */
  function Terminated(xs: seq<string>, sep: string): string
  {
    if xs == [] then "" else xs[0] + sep + Terminated(xs[1..], sep)
  }

  /** n copies of "?". */
  function Placeholders(n: nat): (ps: seq<string>)
    ensures |ps| == n && forall i :: 0 <= i < n ==> ps[i] == "?"
  {
    seq(n, _ => "?")
  }

  /** The number of placeholders in a text. */
  function QCount(s: string): nat
  {
    if s == [] then 0 else (if s[0] == '?' then 1 else 0) + QCount(s[1..])
  }

  lemma {:induction false} QCountConcat(a: string, b: string)
    ensures QCount(a + b) == QCount(a) + QCount(b)
  {
    if a == [] {
      assert a + b == b;
    } else {
      assert (a + b)[1..] == a[1..] + b;
      QCountConcat(a[1..], b);
    }
  }

  lemma {:induction false} TerminatedSnoc(xs: seq<string>, x: string, sep: string)
    ensures Terminated(xs + [x], sep) == Terminated(xs, sep) + x + sep
  {
    if xs == [] {
      assert [x][1..] == [];
    } else {
      assert (xs + [x])[1..] == xs[1..] + [x];
      TerminatedSnoc(xs[1..], x, sep);
    }
  }

  /** Joining is terminating all but the last element and appending the last. */
  lemma {:induction false} JoinIsTerminatedThenLast(xs: seq<string>, sep: string)
    requires |xs| > 0
    ensures Join(xs, sep) == Terminated(xs[..|xs| - 1], sep) + xs[|xs| - 1]
  {
    if |xs| > 1 {
      JoinIsTerminatedThenLast(xs[1..], sep);
      assert xs[1..][..|xs[1..]| - 1] == xs[..|xs| - 1][1..];
    }
  }

  /** A join of placeholder-free elements holds one copy of the separator's
      placeholders per gap. */
  lemma {:induction false} JoinQCount(xs: seq<string>, sep: string)
    requires |xs| > 0
    requires forall i :: 0 <= i < |xs| ==> QCount(xs[i]) == 0
    ensures QCount(Join(xs, sep)) == (|xs| - 1) * QCount(sep)
  {
    if |xs| > 1 {
      JoinQCount(xs[1..], sep);
      QCountConcat(xs[0] + sep, Join(xs[1..], sep));
      QCountConcat(xs[0], sep);
    }
  }

  /** A join of single "?" elements holds exactly one placeholder per element. */
  lemma {:induction false} PlaceholderJoinCount(n: nat, sep: string)
    requires n > 0
    requires QCount(sep) == 0
    ensures QCount(Join(Placeholders(n), sep)) == n
  {
    if n > 1 {
      var ps := Placeholders(n);
      assert ps[1..] == Placeholders(n - 1);
      PlaceholderJoinCount(n - 1, sep);
      QCountConcat(ps[0] + sep, Join(ps[1..], sep));
      QCountConcat(ps[0], sep);
      assert QCount("?") == 1;
    } else {
      assert QCount("?") == 1;
    }
  }

  /** The text of a WHERE query: the fixed prefix, then "c=?" for each column joined by " and ". */
  function WhereText(prefix: string, colNames: seq<string>): string
    requires |colNames| > 0
  {
    prefix + Join(colNames, "=? and ") + "=?"
  }

  /** The text of an insert: the prefix, the columns joined by ",", then one "?" per column. */
  function InsertText(prefix: string, colNames: seq<string>): string
    requires |colNames| > 0
  {
    prefix + Join(colNames, ",") + ") VALUES (" + Join(Placeholders(|colNames|), ",") + ")"
  }

  /** The only placeholders in a WHERE text are the ones after the columns: one per column. */
  lemma WherePlaceholderCount(prefix: string, colNames: seq<string>)
    requires |colNames| > 0
    requires QCount(prefix) == 0
    requires forall i :: 0 <= i < |colNames| ==> QCount(colNames[i]) == 0
    ensures QCount(WhereText(prefix, colNames)) == |colNames|
  {
    JoinQCount(colNames, "=? and ");
    assert QCount("=? and ") == 1;
    assert QCount("=?") == 1;
    QCountConcat(prefix + Join(colNames, "=? and "), "=?");
    QCountConcat(prefix, Join(colNames, "=? and "));
  }

  /** The placeholders of an insert text are exactly the value list: one per column. */
  lemma InsertPlaceholderCount(prefix: string, colNames: seq<string>)
    requires |colNames| > 0
    requires QCount(prefix) == 0
    requires forall i :: 0 <= i < |colNames| ==> QCount(colNames[i]) == 0
    ensures QCount(InsertText(prefix, colNames)) == |colNames|
  {
    var cols := Join(colNames, ",");
    var values := Join(Placeholders(|colNames|), ",");
    assert QCount(",") == 0;
    assert QCount(cols) == 0 by {
      JoinQCount(colNames, ",");
    }
    assert QCount(values) == |colNames| by {
      PlaceholderJoinCount(|colNames|, ",");
    }
    assert QCount(") VALUES (") == 0;
    assert QCount(")") == 0;
    QCountConcat(prefix + cols + ") VALUES (" + values, ")");
    QCountConcat(prefix + cols + ") VALUES (", values);
    QCountConcat(prefix + cols, ") VALUES (");
    QCountConcat(prefix, cols);
  }

  class SQLGenerator {
    const insertInto: string
    const selectFromWhere: string
    const deleteFromWhere: string

    constructor(tableName: string)
      ensures insertInto == "INSERT INTO " + tableName + " ("
      ensures selectFromWhere == "SELECT * FROM " + tableName + " WHERE "
      ensures deleteFromWhere == "DELETE FROM " + tableName + " WHERE "
    {
      insertInto := "INSERT INTO " + tableName + " (";
      selectFromWhere := "SELECT * FROM " + tableName + " WHERE ";
      deleteFromWhere := "DELETE FROM " + tableName + " WHERE ";
    }

    /** init, then each element but the last followed by afterNonLast, then the last
        element followed by afterLast. */
    method ForAllButLast(initialString: string, list: seq<string>, afterNonLast: string, afterLast: string)
      returns (r: string)
      requires |list| > 0
      ensures r == initialString + Join(list, afterNonLast) + afterLast
    {
      r := initialString;
      var i := 0;
      while i < |list| - 1
        invariant 0 <= i <= |list| - 1
        invariant r == initialString + Terminated(list[..i], afterNonLast)
      {
        TerminatedSnoc(list[..i], list[i], afterNonLast);
        assert list[..i + 1] == list[..i] + [list[i]];
        r := r + list[i] + afterNonLast;
        i := i + 1;
      }
      JoinIsTerminatedThenLast(list, afterNonLast);
      r := r + list[|list| - 1] + afterLast;
    }

    /** An insert of one "?" per column; an empty column list is rejected.
        The values are bound by the caller. */
    method InsertInto(colNames: seq<string>, genKey: bool) returns (r: Result<PreparedStatement, SQLException>)
      ensures |colNames| == 0 <==> r.Err?
      ensures r.Err? ==> r.error == SQLException("Invalid insert into")
      ensures r.Ok? ==> r.value == PreparedStatement(InsertText(insertInto, colNames), [], genKey)
    {
      if |colNames| == 0 {
        return Err(SQLException("Invalid insert into"));
      }
      var temp := ForAllButLast(insertInto, colNames, ",", ") VALUES (");
      var params := Placeholders(|colNames|);
      var sql := ForAllButLast(temp, params, ",", ")");
      r := Ok(PreparedStatement(sql, [], genKey));
    }

    /** The WHERE text after prefix, with id[i] bound at position i + 1. An empty column list,
        an empty id list or lists of different lengths are rejected with message. */
    method WhereQuery(prefix: string, colNames: seq<string>, id: seq<int>, message: string)
      returns (r: Result<PreparedStatement, SQLException>)
      ensures r.Err? <==> |colNames| == 0 || |id| == 0 || |colNames| != |id|
      ensures r.Err? ==> r.error == SQLException(message)
      ensures r.Ok? ==> r.value == PreparedStatement(WhereText(prefix, colNames), id, false)
    {
      if |colNames| == 0 || |id| == 0 || |colNames| != |id| {
        return Err(SQLException(message));
      }
      var query := ForAllButLast(prefix, colNames, "=? and ", "=?");
      var params: seq<int> := [];
      for i := 0 to |id|
        invariant params == id[..i]
      {
        params := params + [id[i]];
      }
      r := Ok(PreparedStatement(query, params, false));
    }

    /** DELETE FROM table WHERE c0=? and c1=? ..., binding the ids by position. */
    method DeleteID(colNames: seq<string>, id: seq<int>) returns (r: Result<PreparedStatement, SQLException>)
      ensures r.Err? <==> |colNames| == 0 || |id| == 0 || |colNames| != |id|
      ensures r.Err? ==> r.error == SQLException("Invalid deleteID request")
      ensures r.Ok? ==> r.value == PreparedStatement(WhereText(deleteFromWhere, colNames), id, false)
    {
      r := WhereQuery(deleteFromWhere, colNames, id, "Invalid deleteID request");
    }

    /** SELECT * FROM table WHERE c0=? and c1=? ..., binding the ids by position. */
    method GetID(colNames: seq<string>, id: seq<int>) returns (r: Result<PreparedStatement, SQLException>)
      ensures r.Err? <==> |colNames| == 0 || |id| == 0 || |colNames| != |id|
      ensures r.Err? ==> r.error == SQLException("Invalid getID request")
      ensures r.Ok? ==> r.value == PreparedStatement(WhereText(selectFromWhere, colNames), id, false)
    {
      r := WhereQuery(selectFromWhere, colNames, id, "Invalid getID request");
    }
  }
}
