/** The sign-up page's password classifier, isPasswordStrong (resources/ui/static/script.js).
    A regular-expression test `password.match(/c/) != null` for a one-character class c is a
    search for the first character in the class. */
module PasswordStrength {
  import opened Wrappers

  /** The character classes the classifier tests: \d, [A-Z], [a-z] and \W. */
  datatype CharClass = Digit | Upper | Lower | NonWord

  /** The characters \w matches: ASCII letters, digits and underscore. */
  predicate IsWordChar(c: char)
  {
    ('0' <= c <= '9') || ('A' <= c <= 'Z') || ('a' <= c <= 'z') || c == '_'
  }

  predicate InClass(c: char, cls: CharClass)
  {
    match cls
    case Digit => '0' <= c <= '9'
    case Upper => 'A' <= c <= 'Z'
    case Lower => 'a' <= c <= 'z'
    case NonWord => !IsWordChar(c)
  }

  /** The index `match` reports: the first character of s in the class, if any. */
  function Find(s: string, cls: CharClass): (r: Option<nat>)
    ensures r.None? <==> forall i :: 0 <= i < |s| ==> !InClass(s[i], cls)
    ensures r.Some? ==> r.value < |s| && InClass(s[r.value], cls)
    ensures r.Some? ==> forall j :: 0 <= j < r.value ==> !InClass(s[j], cls)
  {
    if s == [] then None
    else if InClass(s[0], cls) then Some(0)
    else match Find(s[1..], cls)
      case Some(i) => assert s[1..][i] == s[i + 1]; Some(i + 1)
      case None => assert forall i :: 1 <= i < |s| ==> s[i] == s[1..][i - 1]; None
  }

  /** `password.match(/c/) != null`. */
  predicate Matches(s: string, cls: CharClass)
  {
    Find(s, cls).Some?
  }

  /** The UTF-16 code units of a character: two for one outside the Basic Multilingual Plane. */
  function CodeUnits(c: char): (n: nat)
    ensures n == 1 <==> c as int <= 0xFFFF
    ensures 1 <= n <= 2
  {
    if c as int > 0xFFFF then 2 else 1
  }

  /** JavaScript's `length` of a string: its number of UTF-16 code units. */
  function Utf16Length(s: string): (n: nat)
    ensures |s| <= n <= 2 * |s|
    ensures n == |s| <==> forall i :: 0 <= i < |s| ==> s[i] as int <= 0xFFFF
  {
    if s == [] then 0
    else
      assert forall i :: 1 <= i < |s| ==> s[i] == s[1..][i - 1];
      CodeUnits(s[0]) + Utf16Length(s[1..])
  }

  /** The code units of a concatenation add up. */
  lemma {:induction false} Utf16LengthConcat(a: string, b: string)
    ensures Utf16Length(a + b) == Utf16Length(a) + Utf16Length(b)
  {
    if a != [] {
      assert (a + b)[0] == a[0] && (a + b)[1..] == a[1..] + b;
      Utf16LengthConcat(a[1..], b);
    } else {
      assert a + b == b;
    }
  }

  /** The JavaScript length threshold above which any password is strong. */
  const LONG_PASSWORD: nat := 16

  /** Some character of s is in the class. */
  ghost predicate HasClass(s: string, cls: CharClass)
  {
    exists i :: 0 <= i < |s| && InClass(s[i], cls)
  }

  /** A `match` succeeds exactly when some character is in the class. */
  lemma MatchesIffHasClass(s: string, cls: CharClass)
    ensures Matches(s, cls) <==> HasClass(s, cls)
  {
    var r := Find(s, cls);
    if r.Some? {
      assert InClass(s[r.value], cls);
    }
  }

  /** isPasswordStrong: at least sixteen UTF-16 units, or a digit, an upper-case and a
      lower-case ASCII letter and a character that is none of these nor underscore. */
  function IsPasswordStrong(password: string): (r: bool)
    ensures r <==> (Utf16Length(password) >= LONG_PASSWORD
                    || (HasClass(password, Digit) && HasClass(password, Upper)
                        && HasClass(password, Lower) && HasClass(password, NonWord)))
  {
    MatchesIffHasClass(password, Digit);
    MatchesIffHasClass(password, Upper);
    MatchesIffHasClass(password, Lower);
    MatchesIffHasClass(password, NonWord);
    if Utf16Length(password) >= LONG_PASSWORD then true
    else Matches(password, Digit) && Matches(password, Upper) && Matches(password, Lower) && Matches(password, NonWord)
  }

  /** Any password of at least sixteen UTF-16 units is strong. */
  lemma LongIsStrong(password: string)
    requires Utf16Length(password) >= LONG_PASSWORD
    ensures IsPasswordStrong(password)
  {
  }

  /** Eight characters outside the Basic Multilingual Plane already make sixteen units, so
      such a password is strong although it has fewer than sixteen characters. */
  lemma AstralPasswordIsStrong(password: string)
    requires |password| == 8
    requires forall i :: 0 <= i < |password| ==> password[i] as int > 0xFFFF
    ensures IsPasswordStrong(password)
  {
    AllAstralDoubles(password);
  }

  /** A string of characters outside the Basic Multilingual Plane has two units per character. */
  lemma {:induction false} AllAstralDoubles(s: string)
    requires forall i :: 0 <= i < |s| ==> s[i] as int > 0xFFFF
    ensures Utf16Length(s) == 2 * |s|
  {
    if s != [] {
      assert forall i :: 0 <= i < |s[1..]| ==> s[1..][i] == s[i + 1];
      AllAstralDoubles(s[1..]);
    }
  }

  /** A password under sixteen UTF-16 units is strong iff it holds a digit, an upper-case and a
      lower-case ASCII letter, and a character that is none of these nor underscore. */
  lemma ShortStrongIff(password: string)
    requires Utf16Length(password) < LONG_PASSWORD
    ensures IsPasswordStrong(password) <==>
      HasClass(password, Digit) && HasClass(password, Upper) && HasClass(password, Lower) && HasClass(password, NonWord)
  {
  }

  /** Letters, digits and underscore never satisfy the \W requirement, so a short password made
      of them alone is weak. */
  lemma WordCharactersAreWeak(password: string)
    requires |password| < LONG_PASSWORD
    requires forall i :: 0 <= i < |password| ==> IsWordChar(password[i])
    ensures !IsPasswordStrong(password)
  {
    assert Utf16Length(password) == |password|;
    assert Find(password, NonWord).None?;
  }

  /** Appending characters never turns a strong password weak. */
  lemma {:induction false} AppendKeepsStrong(password: string, suffix: string)
    requires IsPasswordStrong(password)
    ensures IsPasswordStrong(password + suffix)
  {
    var longer := password + suffix;
    Utf16LengthConcat(password, suffix);
    if Utf16Length(password) < LONG_PASSWORD {
      forall cls | true ensures Matches(longer, cls) {
        var i := Find(password, cls).value;
        assert longer[i] == password[i];
      }
    }
  }
}
