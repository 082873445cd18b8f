/**
 * The email pattern of isEmailValid, an anchored regular expression:
 *
 *   local part:  dot-separated atoms of characters other than  < > ( ) [ ] \ . , ; : @ "
 *                and white space, or a double-quoted string of one or more
 *                characters other than line terminators;
 *   then "@";
 *   domain:      "[" four groups of 1 to 3 digits separated by "." "]", or one or more
 *                labels of letters, digits and "-" each followed by ".", then a final
 *                label of at least two letters.
 *
 * The pattern is loosely styled after the addr-spec of section 3.4.1 of RFC 5322,
 * but what is modelled is the pattern as written, not the RFC.
 *
 * The module gives the pattern twice: as the grammar (ghost predicates asking for
 * pieces that join to the input) and as a recogniser that splits the input
 * (IsEmailValid); IsEmailValidMatchesPattern proves that the two accept the same strings.
 */
module EmailPattern {
  import opened Wrappers
  import opened JsText

  /** The characters the pattern excludes from an atom, besides white space. */
  const AtomExcluded: set<char> := {'<', '>', '(', ')', '[', ']', '\\', '.', ',', ';', ':', '@', '"'}

  predicate IsAtomChar(c: char) {
    c !in AtomExcluded && !IsWhitespace(c)
  }

  predicate IsAsciiLetter(c: char) {
    'a' <= c <= 'z' || 'A' <= c <= 'Z'
  }

  predicate IsAsciiDigit(c: char) {
    '0' <= c <= '9'
  }

  predicate IsLabelChar(c: char) {
    IsAsciiLetter(c) || IsAsciiDigit(c) || c == '-'
  }

  /** [^<>()\[\]\\.,;:\s@"]+ */
  predicate IsAtom(a: string) {
    a != [] && forall i :: 0 <= i < |a| ==> IsAtomChar(a[i])
  }

  /** [a-zA-Z\-0-9]+ */
  predicate IsLabel(a: string) {
    a != [] && forall i :: 0 <= i < |a| ==> IsLabelChar(a[i])
  }

  /** [a-zA-Z]{2,} */
  predicate IsTopLabel(a: string) {
    |a| >= 2 && forall i :: 0 <= i < |a| ==> IsAsciiLetter(a[i])
  }

  /** [0-9]{1,3} */
  predicate IsDigitGroup(a: string) {
    1 <= |a| <= 3 && forall i :: 0 <= i < |a| ==> IsAsciiDigit(a[i])
  }

  /** ".+" where . is any character but a line terminator */
  predicate IsQuotedString(l: string) {
    |l| >= 3 && l[0] == '"' && l[|l| - 1] == '"' && NoLineTerminator(l[1..|l| - 1])
  }

  // ---------------------------------------------------------------------------
  // The grammar, piece by piece

  /** atom(\.atom)*, with the atoms given */
  predicate DotAtomOf(atoms: seq<string>, l: string) {
    |atoms| >= 1 && (forall i :: 0 <= i < |atoms| ==> IsAtom(atoms[i])) && Join(atoms, '.') == l
  }

  ghost predicate DotAtomForm(l: string) {
    exists atoms :: DotAtomOf(atoms, l)
  }

  /** (label\.)+top, with the labels and the top label given */
  predicate HostnameOf(labels: seq<string>, top: string, d: string) {
    && |labels| >= 1
    && (forall i :: 0 <= i < |labels| ==> IsLabel(labels[i]))
    && IsTopLabel(top)
    && Join(labels + [top], '.') == d
  }

  ghost predicate HostnameForm(d: string) {
    exists labels, top :: HostnameOf(labels, top, d)
  }

  /** \[group\.group\.group\.group\], with the groups given */
  predicate AddressLiteralOf(groups: seq<string>, d: string) {
    |groups| == 4 && (forall i :: 0 <= i < 4 ==> IsDigitGroup(groups[i])) && d == "[" + Join(groups, '.') + "]"
  }

  ghost predicate AddressLiteralForm(d: string) {
    exists groups :: AddressLiteralOf(groups, d)
  }

  ghost predicate LocalPartForm(l: string) {
    DotAtomForm(l) || IsQuotedString(l)
  }

  ghost predicate DomainForm(d: string) {
    AddressLiteralForm(d) || HostnameForm(d)
  }

  /** The whole anchored pattern: some "@" separates a local part from a domain. */
  ghost predicate MatchesEmailPattern(s: string)
    ensures MatchesEmailPattern(s) ==> '@' in s
  {
    exists i :: SplitsAt(s, i)
  }

  ghost predicate SplitsAt(s: string, i: int) {
    0 <= i < |s| && s[i] == '@' && LocalPartForm(s[..i]) && DomainForm(s[i + 1..])
  }

  // ---------------------------------------------------------------------------
  // The recogniser

  predicate IsDotAtom(l: string) {
    var atoms := Split(l, '.');
    forall i :: 0 <= i < |atoms| ==> IsAtom(atoms[i])
  }

  predicate IsHostname(d: string) {
    var parts := Split(d, '.');
    && |parts| >= 2
    && (forall i :: 0 <= i < |parts| - 1 ==> IsLabel(parts[i]))
    && IsTopLabel(parts[|parts| - 1])
  }

  predicate IsAddressLiteral(d: string) {
    && |d| >= 2 && d[0] == '[' && d[|d| - 1] == ']'
    && var groups := Split(d[1..|d| - 1], '.');
       |groups| == 4 && forall i :: 0 <= i < 4 ==> IsDigitGroup(groups[i])
  }

  predicate IsLocalPart(l: string) {
    IsDotAtom(l) || IsQuotedString(l)
  }

  predicate IsDomain(d: string) {
    IsAddressLiteral(d) || IsHostname(d)
  }

  /**
   * isEmailValid. No domain contains "@", so the separating "@" can only be the
   * last one; the recogniser splits there.
   */
  predicate IsEmailValid(email: string)
    ensures IsEmailValid(email) <==> exists i ::
      && 0 <= i < |email| && email[i] == '@' && '@' !in email[i + 1..]
      && IsLocalPart(email[..i]) && IsDomain(email[i + 1..])
  {
    LastIndexOfIsLast(email, '@');
    match LastIndexOf(email, '@')
    case None => false
    case Some(i) => IsLocalPart(email[..i]) && IsDomain(email[i + 1..])
  }

  // ---------------------------------------------------------------------------
  // Recogniser and grammar agree

  lemma DotAtomAgrees(l: string)
    ensures IsDotAtom(l) <==> DotAtomForm(l)
  {
    if IsDotAtom(l) {
      assert DotAtomOf(Split(l, '.'), l);
    }
    if DotAtomForm(l) {
      var atoms :| DotAtomOf(atoms, l);
      forall i | 0 <= i < |atoms| ensures '.' !in atoms[i] {
        assert forall k :: 0 <= k < |atoms[i]| ==> IsAtomChar(atoms[i][k]);
      }
      SplitJoin(atoms, '.');
    }
  }

  lemma HostnameAgrees(d: string)
    ensures IsHostname(d) <==> HostnameForm(d)
  {
    if IsHostname(d) {
      var parts := Split(d, '.');
      var labels, top := parts[..|parts| - 1], parts[|parts| - 1];
      assert labels + [top] == parts;
      assert HostnameOf(labels, top, d);
    }
    if HostnameForm(d) {
      var labels, top :| HostnameOf(labels, top, d);
      var parts := labels + [top];
      forall i | 0 <= i < |parts| ensures '.' !in parts[i] {
        if i < |labels| {
          assert forall k :: 0 <= k < |labels[i]| ==> IsLabelChar(labels[i][k]);
        } else {
          assert forall k :: 0 <= k < |top| ==> IsAsciiLetter(top[k]);
        }
      }
      SplitJoin(parts, '.');
    }
  }

  lemma AddressLiteralAgrees(d: string)
    ensures IsAddressLiteral(d) <==> AddressLiteralForm(d)
  {
    if IsAddressLiteral(d) {
      var groups := Split(d[1..|d| - 1], '.');
      assert d == "[" + d[1..|d| - 1] + "]";
      assert AddressLiteralOf(groups, d);
    }
    if AddressLiteralForm(d) {
      var groups :| AddressLiteralOf(groups, d);
      forall i | 0 <= i < 4 ensures '.' !in groups[i] {
        assert forall k :: 0 <= k < |groups[i]| ==> IsAsciiDigit(groups[i][k]);
      }
      assert d[1..|d| - 1] == Join(groups, '.');
      SplitJoin(groups, '.');
    }
  }

  lemma LocalPartAgrees(l: string)
    ensures IsLocalPart(l) <==> LocalPartForm(l)
  {
    DotAtomAgrees(l);
  }

  lemma DomainAgrees(d: string)
    ensures IsDomain(d) <==> DomainForm(d)
  {
    HostnameAgrees(d);
    AddressLiteralAgrees(d);
  }

  /** No domain, in either form, contains "@". */
  lemma DomainHasNoAt(d: string)
    requires IsDomain(d)
    ensures '@' !in d
  {
    if IsAddressLiteral(d) {
      var inner := d[1..|d| - 1];
      var groups := Split(inner, '.');
      forall i | 0 <= i < |groups| ensures '@' !in groups[i] {
        assert forall k :: 0 <= k < |groups[i]| ==> IsAsciiDigit(groups[i][k]);
      }
      JoinExcludes(groups, '.', '@');
      assert d == [d[0]] + inner + [d[|d| - 1]];
    } else {
      var parts := Split(d, '.');
      forall i | 0 <= i < |parts| ensures '@' !in parts[i] {
        if i < |parts| - 1 {
          assert forall k :: 0 <= k < |parts[i]| ==> IsLabelChar(parts[i][k]);
        } else {
          assert forall k :: 0 <= k < |parts[i]| ==> IsAsciiLetter(parts[i][k]);
        }
      }
      JoinExcludes(parts, '.', '@');
    }
  }

  /** What the recogniser accepts, the pattern matches. */
  lemma RecogniserIsSound(s: string)
    requires IsEmailValid(s)
    ensures MatchesEmailPattern(s)
  {
    var i := LastIndexOf(s, '@').value;
    var l, d := s[..i], s[i + 1..];
    assert IsLocalPart(l) && IsDomain(d);
    LocalPartAgrees(l);
    DomainAgrees(d);
    assert SplitsAt(s, i);
  }

  /** What the pattern matches, the recogniser accepts. */
  lemma RecogniserIsComplete(s: string)
    requires MatchesEmailPattern(s)
    ensures IsEmailValid(s)
  {
    var i :| SplitsAt(s, i);
    var l, d := s[..i], s[i + 1..];
    LocalPartAgrees(l);
    DomainAgrees(d);
    DomainHasNoAt(d);
  }

  /** The recogniser accepts exactly the strings the anchored pattern matches. */
  lemma IsEmailValidMatchesPattern(s: string)
    ensures IsEmailValid(s) <==> MatchesEmailPattern(s)
  {
    if IsEmailValid(s) { RecogniserIsSound(s); }
    if MatchesEmailPattern(s) { RecogniserIsComplete(s); }
  }

  /**
   * An accepted address whose local part is not quoted has exactly one "@", at
   * position i, and its local part has no empty atom: it neither starts nor ends
   * with "." and has no ".." in it.
   */
  lemma UnquotedAddressHasOneAt(s: string) returns (i: nat)
    requires IsEmailValid(s) && s[0] != '"'
    ensures i < |s| && s[i] == '@' && '@' !in s[..i] && '@' !in s[i + 1..]
    ensures 0 < i && s[0] != '.' && s[i - 1] != '.'
    ensures forall k :: 0 < k < i && s[k - 1] == '.' ==> s[k] != '.'
  {
    i := LastIndexOf(s, '@').value;
    var l := s[..i];
    DomainHasNoAt(s[i + 1..]);
    var atoms := Split(l, '.');
    assert IsDotAtom(l);
    forall j | 0 <= j < |atoms| ensures '@' !in atoms[j] && atoms[j] != [] {
      assert forall k :: 0 <= k < |atoms[j]| ==> IsAtomChar(atoms[j][k]);
    }
    JoinExcludes(atoms, '.', '@');
    JoinOfNonEmptyParts(atoms, '.');
    assert l[0] == s[0] && l[i - 1] == s[i - 1];
    assert forall k :: 0 <= k < i ==> l[k] == s[k];
  }

  // ---------------------------------------------------------------------------
  // Examples

  /** A single atom is a local part. */
  lemma AtomIsLocalPart(a: string)
    requires IsAtom(a)
    ensures IsLocalPart(a) && '@' !in a
  {
    assert forall k :: 0 <= k < |a| ==> IsAtomChar(a[k]);
    SplitWithoutSeparator(a, '.');
  }

  /** Any atom, "@" and a domain is accepted. */
  lemma AcceptsAtomAtDomain(user: string, d: string)
    requires IsAtom(user) && IsDomain(d)
    ensures IsEmailValid(user + "@" + d)
  {
    var s := user + "@" + d;
    AtomIsLocalPart(user);
    DomainHasNoAt(d);
    assert s[..|user|] == user && s[|user| + 1..] == d && s[|user|] == '@';
  }

  /** A label, "." and a top label of two or more letters form a domain. */
  lemma LabelDotTopIsDomain(name: string, top: string)
    requires IsLabel(name) && IsTopLabel(top)
    ensures IsDomain(name + "." + top)
  {
    assert forall k :: 0 <= k < |name| ==> IsLabelChar(name[k]);
    assert forall k :: 0 <= k < |top| ==> IsAsciiLetter(top[k]);
    SplitAfterPiece(name, '.', top);
    SplitWithoutSeparator(top, '.');
    assert Split(name + "." + top, '.') == [name, top];
  }

  /** Four digit groups joined by dots, in brackets, form a domain. */
  lemma BracketedGroupsIsDomain(groups: seq<string>)
    requires |groups| == 4 && forall i :: 0 <= i < 4 ==> IsDigitGroup(groups[i])
    ensures IsDomain("[" + Join(groups, '.') + "]")
  {
    var d := "[" + Join(groups, '.') + "]";
    forall i | 0 <= i < 4 ensures '.' !in groups[i] {
      assert forall k :: 0 <= k < |groups[i]| ==> IsAsciiDigit(groups[i][k]);
    }
    SplitJoin(groups, '.');
    assert d[1..|d| - 1] == Join(groups, '.');
  }

  lemma AcceptsHostnameAddress()
    ensures IsEmailValid("user@example.com")
  {
    var s := "user" + "@" + ("example" + "." + "com");
    assert s == "user@example.com";
    assert IsEmailValid(s) by {
      assert IsAtom("user") && IsLabel("example") && IsTopLabel("com");
      LabelDotTopIsDomain("example", "com");
      AcceptsAtomAtDomain("user", "example" + "." + "com");
    }
  }

  lemma AcceptsAddressLiteral()
    ensures IsEmailValid("user@[192.168.1.1]")
  {
    var groups := ["192", "168", "1", "1"];
    assert Join(groups, '.') == "192.168.1.1";
    var d := "[" + Join(groups, '.') + "]";
    assert d == "[192.168.1.1]";
    var s := "user" + "@" + d;
    assert s == "user@[192.168.1.1]";
    assert IsEmailValid(s) by {
      assert IsAtom("user");
      assert forall i :: 0 <= i < 4 ==> IsDigitGroup(groups[i]);
      BracketedGroupsIsDomain(groups);
      AcceptsAtomAtDomain("user", d);
    }
  }

  lemma RejectsNoAt()
    ensures !IsEmailValid("plainaddress")
  {
    assert '@' !in "plainaddress";
  }

  lemma RejectsNoTopLabel()
    ensures !IsEmailValid("user@domain")
  {
    var s := "user@domain";
    assert s[5..] == "domain" && s[4] == '@';
    LastIndexOfUnique(s, '@', 4);
    assert !IsDomain(s[5..]) by {
      SplitWithoutSeparator("domain", '.');
    }
  }

  /** An unquoted local part never contains "@". */
  lemma DotAtomHasNoAt(l: string)
    requires IsDotAtom(l)
    ensures '@' !in l
  {
    var atoms := Split(l, '.');
    forall j | 0 <= j < |atoms| ensures '@' !in atoms[j] {
      assert forall k :: 0 <= k < |atoms[j]| ==> IsAtomChar(atoms[j][k]);
    }
    JoinExcludes(atoms, '.', '@');
  }

  lemma RejectsDoubleAt()
    ensures !IsEmailValid("user@@example.com")
  {
    var s := "user@@example.com";
    assert s[5] == '@' && s[6..] == "example.com";
    LastIndexOfUnique(s, '@', 5);
    var l := s[..5];
    assert l[0] == 'u' && l[4] == '@';
    if IsDotAtom(l) {
      DotAtomHasNoAt(l);
    }
  }
}
