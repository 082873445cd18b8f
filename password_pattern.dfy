/**
 * The password pattern of isPasswordSecure: four lookaheads, each asking for a
 * character of one class somewhere on the first line, and a fifth asking for at
 * least eight characters before any line break:
 *
 *   lower case [a-z], upper case [A-Z], digit [0-9], special [!@#$%^&*], length 8 or more.
 *
 * In the pattern, "." matches any character but a line terminator, so every
 * lookahead only sees the part of the input before its first line terminator.
 * As for the email pattern, the module states the pattern as written
 * (MatchesPasswordPattern) and gives a recogniser (IsPasswordSecure) proved to agree with it.
 */
module PasswordPattern {
  import opened Wrappers
  import opened JsText

  datatype CharClass = Lower | Upper | Digit | Special

  const AllClasses: set<CharClass> := {Lower, Upper, Digit, Special}

  /** (?=.{8,}) */
  const MinLength: nat := 8

  /** The class a character belongs to; the four classes are disjoint. */
  function ClassOf(c: char): Option<CharClass> {
    if 'a' <= c <= 'z' then Some(Lower)
    else if 'A' <= c <= 'Z' then Some(Upper)
    else if '0' <= c <= '9' then Some(Digit)
    else if c in {'!', '@', '#', '$', '%', '^', '&', '*'} then Some(Special)
    else None
  }

  predicate InClass(c: char, k: CharClass) {
    ClassOf(c) == Some(k)
  }

  /** Some character of s is of class k. */
  predicate Contains(s: string, k: CharClass) {
    exists j :: 0 <= j < |s| && InClass(s[j], k)
  }

  // ---------------------------------------------------------------------------
  // The pattern as written

  /** The lookahead (?=.*[k]) succeeds by finding s[j], with only non-terminators before it. */
  predicate FoundAt(s: string, k: CharClass, j: int) {
    0 <= j < |s| && InClass(s[j], k) && NoLineTerminator(s[..j])
  }

  ghost predicate LookaheadFinds(s: string, k: CharClass)
    ensures LookaheadFinds(s, k) ==> Contains(s, k)
  {
    exists j :: FoundAt(s, k, j)
  }

  /** (?=.{8,}) */
  predicate LengthLookahead(s: string) {
    |s| >= MinLength && NoLineTerminator(s[..MinLength])
  }

  ghost predicate MatchesPasswordPattern(s: string)
    ensures MatchesPasswordPattern(s) ==> |s| >= MinLength && forall k :: Contains(s, k)
  {
    assert forall k :: LookaheadFinds(s, k) ==> Contains(s, k);
    (forall k :: LookaheadFinds(s, k)) && LengthLookahead(s)
  }

  // ---------------------------------------------------------------------------
  // The recogniser

  /** The input up to, not including, its first line terminator. */
  function FirstLine(s: string): (line: string)
    ensures |line| <= |s| && line == s[..|line|]
    ensures NoLineTerminator(line)
    ensures |line| < |s| ==> IsLineTerminator(s[|line|])
  {
    if s == [] || IsLineTerminator(s[0]) then [] else [s[0]] + FirstLine(s[1..])
  }

  /** The classes that occur in s. */
  function ClassesIn(s: string): (ks: set<CharClass>)
    ensures forall k :: k in ks <==> Contains(s, k)
  {
    if s == [] then {}
    else
      var rest := ClassesIn(s[1..]);
      assert forall j :: 0 < j < |s| ==> s[j] == s[1..][j - 1];
      match ClassOf(s[0])
      case None => rest
      case Some(k) => {k} + rest
  }

  /** isPasswordSecure */
  predicate IsPasswordSecure(password: string)
    ensures IsPasswordSecure(password) ==> |password| >= MinLength && forall k :: Contains(password, k)
  {
    var line := FirstLine(password);
    EveryClassRequired();
    PrefixContains(password, |line|);
    |line| >= MinLength && AllClasses <= ClassesIn(line)
  }

  /** A class that occurs in a prefix occurs in the whole string. */
  lemma PrefixContains(s: string, n: nat)
    requires n <= |s|
    ensures forall k :: Contains(s[..n], k) ==> Contains(s, k)
  {
    forall k | Contains(s[..n], k) ensures Contains(s, k) {
      var j :| 0 <= j < n && InClass(s[..n][j], k);
      assert s[j] == s[..n][j];
    }
  }

  // ---------------------------------------------------------------------------
  // Recogniser and pattern agree

  lemma LookaheadSeesFirstLine(s: string, k: CharClass)
    ensures LookaheadFinds(s, k) <==> k in ClassesIn(FirstLine(s))
  {
    if k in ClassesIn(FirstLine(s)) {
      FirstLineCharIsFound(s, k);
    }
    if LookaheadFinds(s, k) {
      FoundCharIsOnFirstLine(s, k);
    }
  }

  lemma FirstLineCharIsFound(s: string, k: CharClass)
    requires k in ClassesIn(FirstLine(s))
    ensures LookaheadFinds(s, k)
  {
    var line := FirstLine(s);
    var j :| 0 <= j < |line| && InClass(line[j], k);
    assert s[..j] == line[..j];
    assert FoundAt(s, k, j);
  }

  lemma FoundCharIsOnFirstLine(s: string, k: CharClass)
    requires LookaheadFinds(s, k)
    ensures k in ClassesIn(FirstLine(s))
  {
    var line := FirstLine(s);
    var j :| FoundAt(s, k, j);
    assert forall m :: 0 <= m < j ==> !IsLineTerminator(s[m]) by {
      assert forall m :: 0 <= m < j ==> s[m] == s[..j][m];
    }
    assert j < |line|;
    assert line[j] == s[j];
    assert Contains(line, k);
  }

  lemma LengthSeesFirstLine(s: string)
    ensures LengthLookahead(s) <==> |FirstLine(s)| >= MinLength
  {
    var line := FirstLine(s);
    if LengthLookahead(s) {
      assert forall m :: 0 <= m < MinLength ==> !IsLineTerminator(s[m]) by {
        assert forall m :: 0 <= m < MinLength ==> s[m] == s[..MinLength][m];
      }
    }
    if |line| >= MinLength {
      assert s[..MinLength] == line[..MinLength];
    }
  }

  /** The recogniser accepts exactly the strings the lookahead pattern matches. */
  lemma IsPasswordSecureMatchesPattern(s: string)
    ensures IsPasswordSecure(s) <==> MatchesPasswordPattern(s)
  {
    forall k ensures LookaheadFinds(s, k) <==> k in ClassesIn(FirstLine(s)) {
      LookaheadSeesFirstLine(s, k);
    }
    LengthSeesFirstLine(s);
    EveryClassRequired();
  }

  /**
   * On a single line, a password is secure exactly when it has at least eight
   * characters and a character of every class, in any order and alongside any
   * other characters.
   */
  lemma SingleLinePassword(s: string)
    requires NoLineTerminator(s)
    ensures IsPasswordSecure(s) <==>
      |s| >= MinLength && forall k :: Contains(s, k)
  {
    var line := FirstLine(s);
    assert |line| == |s|;
    assert line == s;
    EveryClassRequired();
  }

  lemma EveryClassRequired()
    ensures forall k :: k in AllClasses
  {
    forall k ensures k in AllClasses {
      match k
      case Lower =>
      case Upper =>
      case Digit =>
      case Special =>
    }
  }

  /** Rearranging a single-line password does not change whether it is secure. */
  lemma PasswordOrderIrrelevant(s: string, t: string)
    requires NoLineTerminator(s) && multiset(s) == multiset(t)
    ensures IsPasswordSecure(s) == IsPasswordSecure(t)
  {
    assert |s| == |multiset(s)| == |multiset(t)| == |t|;
    forall m | 0 <= m < |t| ensures t[m] in s {
      assert t[m] in multiset(t);
    }
    assert NoLineTerminator(t);
    forall k ensures Contains(s, k) == Contains(t, k) {
      forall j | 0 <= j < |s| ensures s[j] in t {
        assert s[j] in multiset(s);
      }
    }
    SingleLinePassword(s);
    SingleLinePassword(t);
  }

  // ---------------------------------------------------------------------------
  // Examples

  lemma AcceptsAllClasses()
    ensures IsPasswordSecure("Abcdef1!")
  {
    var s := "Abcdef1!";
    assert NoLineTerminator(s);
    assert InClass(s[0], Upper) && InClass(s[1], Lower) && InClass(s[6], Digit) && InClass(s[7], Special);
    assert forall k :: Contains(s, k) by {
      forall k ensures Contains(s, k) {
        match k
        case Upper => assert InClass(s[0], k);
        case Lower => assert InClass(s[1], k);
        case Digit => assert InClass(s[6], k);
        case Special => assert InClass(s[7], k);
      }
    }
    SingleLinePassword(s);
  }

  lemma RejectsTooShort()
    ensures !IsPasswordSecure("Abc1!")
  {
    SingleLinePassword("Abc1!");
  }

  lemma RejectsWithoutUpper()
    ensures !IsPasswordSecure("abcdefg1")
  {
    var s := "abcdefg1";
    assert forall j :: 0 <= j < |s| ==> !InClass(s[j], Upper);
    SingleLinePassword(s);
  }

  lemma RejectsWithoutLower()
    ensures !IsPasswordSecure("ABCDEFG1!")
  {
    var s := "ABCDEFG1!";
    assert forall j :: 0 <= j < |s| ==> !InClass(s[j], Lower);
    SingleLinePassword(s);
  }
}
