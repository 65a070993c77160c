/** Facts about finite sets that the loops over map keys need. */
module Sets {
  /** A set that is not empty has a member; this lemma names one. */
  lemma NonEmptyHasMember<T>(keys: set<T>) returns (x: T)
    requires keys != {}
    ensures x in keys
  {
    if forall y :: y !in keys {
      assert false;
    }
    x :| x in keys;
  }

  /** Every finite set of strings leaves some string out: one longer than all its members. */
  lemma UnusedString(keys: set<string>) returns (t: string)
    ensures t !in keys
  {
    var n := LongerThanAll(keys);
    t := seq(n, _ => '0');
  }

  /** A length that every string of the set is shorter than. */
  lemma {:induction false} LongerThanAll(keys: set<string>) returns (n: nat)
    ensures forall k :: k in keys ==> |k| < n
    decreases |keys|
  {
    if keys == {} {
      n := 0;
    } else {
      var k := NonEmptyHasMember(keys);
      var m := LongerThanAll(keys - {k});
      n := if m > |k| then m else |k| + 1;
    }
  }
}
