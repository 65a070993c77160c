/** E-mail verification codes (server/util/VerificationCodeManager.java): a map from a
    ten-character code to the e-mail address it verifies and the time it was issued. The clock
    is the parameter `now` (milliseconds); the random indices the generator draws are chosen
    nondeterministically among those that give an unused code. */
module VerificationCodeManager {
  import opened Wrappers
  import opened Sets

  /** Constants.MAX_VERIFICATION_TIME: ten minutes in milliseconds. */
  const MAX_VERIFICATION_TIME: int := 1000 * 60 * 10

  const CODE_LEN: nat := 10

  const Digits: string := "0123456789"
  const Upper: string := "ABCDEFGHIJKLMNOPQRSTUVWXYZ"
  const Lower: string := "abcdefghijklmnopqrstuvwxyz"

  /** The 62 characters a code is made of. */
  const CodeSpace: string := Digits + Upper + Lower

  /** Character i of CodeSpace, by arithmetic on character values. */
  function CodeChar(i: int): char
    requires 0 <= i < 62
  {
    if i < 10 then ('0' as int + i) as char
    else if i < 36 then ('A' as int + i - 10) as char
    else ('a' as int + i - 36) as char
  }

  lemma CodeSpaceAt(i: int)
    requires 0 <= i < |CodeSpace|
    ensures CodeSpace[i] == CodeChar(i)
  {
    if i < 10 {
      assert CodeSpace[i] == Digits[i];
    } else if i < 36 {
      assert CodeSpace[i] == Upper[i - 10];
    } else {
      assert CodeSpace[i] == Lower[i - 36];
    }
  }

  /** No character occurs twice in CodeSpace. */
  lemma CodeSpaceDistinct(i: int, j: int)
    requires 0 <= i < |CodeSpace| && 0 <= j < |CodeSpace|
    requires CodeSpace[i] == CodeSpace[j]
    ensures i == j
  {
    CodeSpaceAt(i);
    CodeSpaceAt(j);
  }

  /** The indices into CodeSpace one run of the inner loop may draw. */
  predicate IsDraw(draws: seq<int>)
  {
    |draws| == CODE_LEN && forall i :: 0 <= i < |draws| ==> 0 <= draws[i] < |CodeSpace|
  }

  /** The code built from some drawn indices. */
  function CodeOf(draws: seq<int>): (code: string)
    requires forall i :: 0 <= i < |draws| ==> 0 <= draws[i] < |CodeSpace|
    ensures |code| == |draws|
    ensures forall i :: 0 <= i < |code| ==> code[i] == CodeSpace[draws[i]]
  {
    seq(|draws|, i requires 0 <= i < |draws| => CodeSpace[draws[i]])
  }

  /** A well-formed verification code: CODE_LEN characters from CodeSpace. */
  predicate IsCode(code: string)
  {
    |code| == CODE_LEN && forall i :: 0 <= i < |code| ==> code[i] in CodeSpace
  }

  lemma CodeOfIsCode(draws: seq<int>)
    requires IsDraw(draws)
    ensures IsCode(CodeOf(draws))
  {
  }

  /** Different draws give different codes. */
  lemma CodeOfInjective(d1: seq<int>, d2: seq<int>)
    requires IsDraw(d1) && IsDraw(d2)
    requires CodeOf(d1) == CodeOf(d2)
    ensures d1 == d2
  {
    forall i | 0 <= i < CODE_LEN ensures d1[i] == d2[i] {
      assert CodeOf(d1)[i] == CodeOf(d2)[i];
      CodeSpaceDistinct(d1[i], d2[i]);
    }
  }

  function Pow62(n: nat): (p: nat)
    ensures p >= 1
  {
    if n == 0 then 1 else 62 * Pow62(n - 1)
  }

  /** How many different codes there are. */
  function CodeCount(): nat
  {
    Pow62(CODE_LEN)
  }

  /** The n base-62 digits of k, most significant first. */
  function DigitsOf(k: nat, n: nat): (d: seq<int>)
    ensures |d| == n
    ensures forall i :: 0 <= i < n ==> 0 <= d[i] < 62
  {
    if n == 0 then [] else DigitsOf(k / 62, n - 1) + [k % 62]
  }

  /** Below 62^n, different numbers have different digits. */
  lemma {:induction false} DigitsOfInjective(a: nat, b: nat, n: nat)
    requires a < Pow62(n) && b < Pow62(n)
    requires DigitsOf(a, n) == DigitsOf(b, n)
    ensures a == b
  {
    if n > 0 {
      var da, db := DigitsOf(a / 62, n - 1), DigitsOf(b / 62, n - 1);
      assert DigitsOf(a, n) == da + [a % 62];
      assert DigitsOf(b, n) == db + [b % 62];
      assert a % 62 == b % 62 by {
        assert DigitsOf(a, n)[n - 1] == DigitsOf(b, n)[n - 1];
      }
      assert da == db by {
        assert da == DigitsOf(a, n)[..n - 1];
        assert db == DigitsOf(b, n)[..n - 1];
      }
      DigitsOfInjective(a / 62, b / 62, n - 1);
    }
  }

  /** The k-th code in base-62 order. */
  function NthCode(k: nat): (code: string)
    ensures IsCode(code)
  {
    CodeOf(DigitsOf(k, CODE_LEN))
  }

  /** Fewer than n keys, n at most CodeCount(): one of the first n codes is not a key. */
  lemma {:induction false} UnusedCode(keys: set<string>, n: nat) returns (k: nat)
    requires n <= CodeCount()
    requires |keys| < n
    ensures k < n && NthCode(k) !in keys
    decreases n
  {
    var last := NthCode(n - 1);
    if last !in keys {
      k := n - 1;
    } else {
      k := UnusedCode(keys - {last}, n - 1);
      if NthCode(k) == last {
        CodeOfInjective(DigitsOf(k, CODE_LEN), DigitsOf(n - 1, CODE_LEN));
        DigitsOfInjective(k, n - 1, CODE_LEN);
      }
    }
  }

  datatype VerificationCode = VerificationCode(email: string, time: int)

  /** isVerificationCodeValid: the code was issued less than MAX_VERIFICATION_TIME before now. */
  function IsVerificationCodeValid(vc: VerificationCode, now: int): (r: bool)
    ensures now <= vc.time ==> r
    ensures now >= vc.time + MAX_VERIFICATION_TIME ==> !r
  {
    now - vc.time < MAX_VERIFICATION_TIME
  }

  /** The e-mail of a code, as getEmail answers it: present iff the code is a key, whatever its age. */
  function EmailOf(codes: map<string, VerificationCode>, code: string): (r: Option<string>)
    ensures r.Some? <==> code in codes
    ensures r.Some? ==> r.value == codes[code].email
  {
    if code in codes then Some(codes[code].email) else None
  }

  /** The codes one pass of the reaper keeps: exactly the valid ones, unchanged. */
  function Sweep(codes: map<string, VerificationCode>, now: int): (r: map<string, VerificationCode>)
    ensures forall c :: c in r <==> c in codes && IsVerificationCodeValid(codes[c], now)
    ensures forall c :: c in r ==> r[c] == codes[c]
  {
    map c | c in codes && IsVerificationCodeValid(codes[c], now) :: codes[c]
  }

  /** A second pass at the same time removes nothing more. */
  lemma SweepIdempotent(codes: map<string, VerificationCode>, now: int)
    ensures Sweep(Sweep(codes, now), now) == Sweep(codes, now)
  {
    assert Sweep(Sweep(codes, now), now).Keys == Sweep(codes, now).Keys;
  }

  /** A code issued at `issued` answers until a pass at issued + MAX_VERIFICATION_TIME or later
      removes it; looking it up never extends that, since getEmail changes nothing. */
  lemma CodeLifetime(codes: map<string, VerificationCode>, code: string, email: string, issued: int, now: int)
    ensures EmailOf(Sweep(codes[code := VerificationCode(email, issued)], now), code)
         == if now < issued + MAX_VERIFICATION_TIME then Some(email) else None
  {
  }

  /** Removing a code leaves every other code's answer as it was. */
  lemma RemoveOnlyThat(codes: map<string, VerificationCode>, code: string, other: string)
    requires other != code
    ensures EmailOf(codes - {code}, code) == None
    ensures EmailOf(codes - {code}, other) == EmailOf(codes, other)
  {
  }

  class VerificationCodeManager {
    var verificationCodes: map<string, VerificationCode>

    /** A manager without codes (the reaper thread is a call to Reap). */
    constructor()
      ensures verificationCodes == map[]
    {
      verificationCodes := map[];
    }

    /** The inner loop: one character of CodeSpace per drawn index. */
    method BuildCode(draws: seq<int>) returns (code: string)
      requires IsDraw(draws)
      ensures code == CodeOf(draws)
      ensures IsCode(code)
    {
      code := "";
      for i := 0 to CODE_LEN
        invariant code == CodeOf(draws[..i])
      {
        code := code + [CodeSpace[draws[i]]];
      }
      assert draws[..CODE_LEN] == draws;
    }

    /** generateVerificationCode(): retried until the code is not in use. The retry loop ends
        only while some code is unused, hence the bound on the number of codes held. */
    method NewCode() returns (code: string)
      requires |verificationCodes| < CodeCount()
      ensures IsCode(code) && code !in verificationCodes
    {
      ghost var k := UnusedCode(verificationCodes.Keys, CodeCount());
      ghost var digits := DigitsOf(k, CODE_LEN);
      assert IsDraw(digits) && CodeOf(digits) !in verificationCodes;
      var draws :| IsDraw(draws) && CodeOf(draws) !in verificationCodes;
      code := BuildCode(draws);
    }

    /** generateVerificationCode(email): a new code for the address, issued now. */
    method GenerateVerificationCode(email: string, now: int) returns (code: string)
      requires |verificationCodes| < CodeCount()
      modifies this
      ensures IsCode(code) && code !in old(verificationCodes)
      ensures verificationCodes == old(verificationCodes)[code := VerificationCode(email, now)]
    {
      code := NewCode();
      verificationCodes := verificationCodes[code := VerificationCode(email, now)];
    }

    /** addVerificationCode(code, email): inserts or overwrites the code, issued now. */
    method AddVerificationCode(code: string, email: string, now: int)
      modifies this
      ensures verificationCodes == old(verificationCodes)[code := VerificationCode(email, now)]
    {
      verificationCodes := verificationCodes[code := VerificationCode(email, now)];
    }

    /** removeCode(code): forgets the code. */
    method RemoveCode(code: string)
      modifies this
      ensures verificationCodes == old(verificationCodes) - {code}
    {
      verificationCodes := verificationCodes - {code};
    }

    /** getEmail(code): the code's address; reads only. */
    method GetEmail(code: string) returns (r: Option<string>)
      ensures r == EmailOf(verificationCodes, code)
    {
      if code in verificationCodes {
        r := Some(verificationCodes[code].email);
      } else {
        r := None;
      }
    }

    /** One pass of the reaper: removes every code that is no longer valid at now. */
    method Reap(now: int)
      modifies this
      ensures verificationCodes == Sweep(old(verificationCodes), now)
    {
      var todo := verificationCodes.Keys;
      while todo != {}
        invariant todo <= verificationCodes.Keys
        invariant forall c :: c in verificationCodes <==>
          c in old(verificationCodes) && (c in todo || IsVerificationCodeValid(old(verificationCodes)[c], now))
        invariant forall c :: c in verificationCodes ==> verificationCodes[c] == old(verificationCodes)[c]
        decreases |todo|
      {
        ghost var member := NonEmptyHasMember(todo);
        var code :| code in todo;
        if !IsVerificationCodeValid(verificationCodes[code], now) {
          verificationCodes := verificationCodes - {code};
        }
        todo := todo - {code};
      }
      assert verificationCodes.Keys == Sweep(old(verificationCodes), now).Keys;
    }
  }
}
