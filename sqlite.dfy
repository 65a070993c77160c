/** The small part of SQLite and JDBC behaviour that the tables depend on:
    the exception type, the rowid a new row receives, and Java's `int` range. */
module Sqlite {
  import opened Sets

  /** `java.sql.SQLException` with its message. */
  datatype SQLException = SQLException(message: string)

  /** The message SQLite reports when an insert breaks the `unique` constraint on User.email. */
  const UniqueEmailViolation := SQLException("UNIQUE constraint failed: User.email")

  const IntMin: int := -0x8000_0000
  const IntMax: int := 0x7fff_ffff

  /** Java's `(int)` cast of a `long`: keeps the low 32 bits, read as a two's-complement value. */
  function ToJavaInt(x: int): (r: int)
    ensures IntMin <= r <= IntMax
    ensures (x - r) % 0x1_0000_0000 == 0
  {
    (x - IntMin) % 0x1_0000_0000 + IntMin
  }

  /** `ret == (int) ret` for a `long` ret: the value survives the cast to a Java `int`. */
  function FitsInInt(x: int): (r: bool)
    ensures r <==> IntMin <= x <= IntMax
  {
    ToJavaInt(x) == x
  }

  /** A non-empty finite set of integers has a largest element. */
  lemma {:induction false} MaxExists(keys: set<int>)
    requires keys != {}
    ensures exists m :: m in keys && forall j :: j in keys ==> j <= m
    decreases |keys|
  {
    var x := NonEmptyHasMember(keys);
    if exists b :: b in keys && b > x {
      var bigger :| bigger in keys && bigger > x;
      var rest := keys - {x};
      assert bigger in rest;
      MaxExists(rest);
      var m :| m in rest && forall j :: j in rest ==> j <= m;
      forall j | j in keys ensures j <= m {
        if j != x { assert j in rest; }
      }
      assert m in keys;
    } else {
      assert forall j :: j in keys ==> j <= x;
    }
  }

  /** The rowid SQLite gives a new row of an `integer primary key` table (no AUTOINCREMENT):
      one more than the largest rowid in use, or 1 when the table is empty. */
  function NextRowid(keys: set<int>): (k: int)
    ensures forall j :: j in keys ==> j < k
    ensures k !in keys
    ensures keys == {} ==> k == 1
    ensures keys != {} ==> k - 1 in keys
  {
    if keys == {} then 1
    else
      MaxExists(keys);
      var m :| m in keys && forall j :: j in keys ==> j <= m;
      m + 1
  }

  /** Rowids are not reserved: when the newest row is deleted, the next insert receives its
      id again. */
  lemma RowidReuse(keys: set<int>)
    ensures var k := NextRowid(keys); NextRowid((keys + {k}) - {k}) == k
  {
    var k := NextRowid(keys);
    assert (keys + {k}) - {k} == keys;
  }
}
