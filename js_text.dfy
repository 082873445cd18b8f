/**
 * Text operations. The only string method the validator itself calls is
 * String.prototype.trim, modelled here with the ECMAScript white-space and
 * line-terminator sets (the regular expressions also use these sets).
 * Split, Join and LastIndexOf are helpers of the email recogniser, not
 * operations of the validator.
 */
module JsText {
  import opened Wrappers

  /** LineTerminator of ECMAScript (section 12.3 of ECMA-262). */
  predicate IsLineTerminator(c: char) {
    c == '\n' || c == '\r' || c == '\U{2028}' || c == '\U{2029}'
  }

  /**
   * WhiteSpace or LineTerminator (sections 12.2 and 12.3 of ECMA-262): the set
   * that trim() strips and that the regular-expression class \s matches.
   * The space separators (category Zs) are listed explicitly.
   */
  predicate IsWhitespace(c: char) {
    || IsLineTerminator(c)
    || c == '\t' || c == '\U{000B}' || c == '\U{000C}' || c == ' '
    || c == '\U{00A0}' || c == '\U{FEFF}' || c == '\U{1680}'
    || ('\U{2000}' <= c <= '\U{200A}')
    || c == '\U{202F}' || c == '\U{205F}' || c == '\U{3000}'
  }

  predicate AllWhitespace(s: string) {
    forall i :: 0 <= i < |s| ==> IsWhitespace(s[i])
  }

  predicate NoLineTerminator(s: string) {
    forall i :: 0 <= i < |s| ==> !IsLineTerminator(s[i])
  }

  /** Where the leading white space of s ends: the index of its first non-white character, or |s|. */
  function StartOfText(s: string): (i: nat)
    ensures i <= |s|
    ensures forall k :: 0 <= k < i ==> IsWhitespace(s[k])
    ensures i == |s| || !IsWhitespace(s[i])
  {
    if s == [] || !IsWhitespace(s[0]) then 0
    else
      var i := 1 + StartOfText(s[1..]);
      assert forall k :: 0 < k < |s| ==> s[k] == s[1..][k - 1];
      i
  }

  /** Where the trailing white space of s starts: one past its last non-white character, or 0. */
  function EndOfText(s: string): (j: nat)
    ensures j <= |s|
    ensures forall k :: j <= k < |s| ==> IsWhitespace(s[k])
    ensures j == 0 || !IsWhitespace(s[j - 1])
  {
    if s == [] || !IsWhitespace(s[|s| - 1]) then |s|
    else EndOfText(s[..|s| - 1])
  }

  /** String.prototype.trim: white space removed from both ends. */
  function Trim(s: string): (r: string)
    ensures |r| <= |s|
    ensures r == [] <==> AllWhitespace(s)
    ensures r == [] || (!IsWhitespace(r[0]) && !IsWhitespace(r[|r| - 1]))
  {
    var i, j := StartOfText(s), EndOfText(s);
    if j <= i then [] else s[i..j]
  }

  /**
   * Trim is determined by where the non-white core of s starts and ends:
   * if s[..i] and s[j..] are white and s[i..j] is empty or has non-white ends,
   * then Trim(s) is exactly s[i..j].
   */
  lemma TrimAt(s: string, i: nat, j: nat)
    requires i <= j <= |s|
    requires forall k :: 0 <= k < i ==> IsWhitespace(s[k])
    requires forall k :: j <= k < |s| ==> IsWhitespace(s[k])
    requires i < j ==> !IsWhitespace(s[i]) && !IsWhitespace(s[j - 1])
    ensures Trim(s) == s[i..j]
  {
    if i == j {
      assert AllWhitespace(s);
    } else {
      var n, m := StartOfText(s), EndOfText(s);
      assert n == i by {
        assert n < |s| ==> !IsWhitespace(s[n]);
        assert n <= i;
      }
      assert m == j by {
        assert m > 0 ==> !IsWhitespace(s[m - 1]);
        assert m >= j;
      }
    }
  }

  /** Trimming twice is trimming once. */
  lemma TrimIdempotent(s: string)
    ensures Trim(Trim(s)) == Trim(s)
  {
    var r := Trim(s);
    if r == [] {
      assert AllWhitespace(r);
    } else {
      TrimAt(r, 0, |r|);
    }
  }

  /** Joins the parts with the separator between consecutive parts. */
  function Join(parts: seq<string>, sep: char): string
    requires |parts| >= 1
  {
    if |parts| == 1 then parts[0] else parts[0] + [sep] + Join(parts[1..], sep)
  }

  /** Splits s at every occurrence of sep, keeping empty pieces; Join is its inverse. */
  function Split(s: string, sep: char): (parts: seq<string>)
    ensures |parts| >= 1
    ensures forall i :: 0 <= i < |parts| ==> sep !in parts[i]
    ensures Join(parts, sep) == s
  {
    if s == [] then [[]]
    else
      var rest := Split(s[1..], sep);
      if s[0] == sep then
        assert ([[]] + rest)[1..] == rest;
        [[]] + rest
      else
        var parts := [[s[0]] + rest[0]] + rest[1..];
        assert parts[1..] == rest[1..];
        assert |rest| > 1 ==> Join(rest, sep) == rest[0] + [sep] + Join(rest[1..], sep);
        parts
  }

  /** A string without the separator splits into itself alone. */
  lemma {:induction false} SplitWithoutSeparator(s: string, sep: char)
    requires sep !in s
    ensures Split(s, sep) == [s]
  {
    if s != [] {
      assert s == [s[0]] + s[1..];
      SplitWithoutSeparator(s[1..], sep);
    }
  }

  /** Splitting a piece, the separator and a tail gives the piece followed by the tail's pieces. */
  lemma {:induction false} SplitAfterPiece(a: string, sep: char, t: string)
    requires sep !in a
    ensures Split(a + [sep] + t, sep) == [a] + Split(t, sep)
  {
    var s := a + [sep] + t;
    if a == [] {
      assert s[1..] == t;
    } else {
      assert s[1..] == a[1..] + [sep] + t;
      SplitAfterPiece(a[1..], sep, t);
      assert [a[0]] + a[1..] == a;
    }
  }

  /** Split undoes Join when no part contains the separator. */
  lemma {:induction false} SplitJoin(parts: seq<string>, sep: char)
    requires |parts| >= 1
    requires forall i :: 0 <= i < |parts| ==> sep !in parts[i]
    ensures Split(Join(parts, sep), sep) == parts
  {
    if |parts| == 1 {
      SplitWithoutSeparator(parts[0], sep);
    } else {
      SplitJoin(parts[1..], sep);
      SplitAfterPiece(parts[0], sep, Join(parts[1..], sep));
      assert [parts[0]] + parts[1..] == parts;
    }
  }

  /** A character that is neither the separator nor in any part is not in the join. */
  lemma {:induction false} JoinExcludes(parts: seq<string>, sep: char, c: char)
    requires |parts| >= 1 && c != sep
    requires forall i :: 0 <= i < |parts| ==> c !in parts[i]
    ensures c !in Join(parts, sep)
  {
    if |parts| > 1 {
      JoinExcludes(parts[1..], sep, c);
    }
  }

  /**
   * A join of non-empty parts without the separator neither starts nor ends with
   * the separator and never has two separators in a row.
   */
  lemma {:induction false} JoinOfNonEmptyParts(parts: seq<string>, sep: char)
    requires |parts| >= 1
    requires forall i :: 0 <= i < |parts| ==> parts[i] != [] && sep !in parts[i]
    ensures var s := Join(parts, sep);
      && s != [] && s[0] != sep && s[|s| - 1] != sep
      && forall k :: 0 < k < |s| && s[k - 1] == sep ==> s[k] != sep
  {
    if |parts| > 1 {
      var p, t := parts[0], Join(parts[1..], sep);
      JoinOfNonEmptyParts(parts[1..], sep);
      var s := Join(parts, sep);
      assert s == p + [sep] + t;
      assert forall m :: 0 <= m < |p| ==> s[m] == p[m];
      assert forall m :: |p| < m < |s| ==> s[m] == t[m - |p| - 1];
    }
  }

  /** The last position before n holding c, scanning backwards from n - 1. */
  function LastIndexBefore(s: string, c: char, n: nat): (r: Option<nat>)
    requires n <= |s|
    ensures r.None? <==> forall k :: 0 <= k < n ==> s[k] != c
    ensures r.Some? ==> r.value < n && s[r.value] == c && forall k :: r.value < k < n ==> s[k] != c
  {
    if n == 0 then None
    else if s[n - 1] == c then Some(n - 1)
    else LastIndexBefore(s, c, n - 1)
  }

  /** Position of the last occurrence of c in s, or None. */
  function LastIndexOf(s: string, c: char): (r: Option<nat>)
    ensures r.None? <==> c !in s
    ensures r.Some? ==> r.value < |s| && s[r.value] == c && forall k :: r.value < k < |s| ==> s[k] != c
  {
    LastIndexBefore(s, c, |s|)
  }

  /** An occurrence of c with no c after it is the one LastIndexOf finds. */
  lemma LastIndexOfUnique(s: string, c: char, i: nat)
    requires i < |s| && s[i] == c && c !in s[i + 1..]
    ensures LastIndexOf(s, c) == Some(i)
  {
    assert forall k :: i < k < |s| ==> s[k] == s[i + 1..][k - i - 1];
  }

  /** LastIndexOf finds i exactly when s[i] is c and no c follows it. */
  lemma LastIndexOfIsLast(s: string, c: char)
    ensures forall i :: 0 <= i < |s| && s[i] == c && c !in s[i + 1..] <==> LastIndexOf(s, c) == Some(i)
  {
    forall i | 0 <= i < |s| && s[i] == c && c !in s[i + 1..] {
      LastIndexOfUnique(s, c, i);
    }
    if LastIndexOf(s, c).Some? {
      var i := LastIndexOf(s, c).value;
      assert c !in s[i + 1..] by {
        assert forall k :: i < k < |s| ==> s[k] == s[i + 1..][k - i - 1];
      }
    }
  }
}
