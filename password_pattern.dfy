/**
  The sign-up password rule: `String.matches` with the pattern
  `^(?=.*[0-9])(?=.*[a-z])(?=.*[A-Z]).{4,}$`, compiled without flags.
  The matcher is described here in the pattern's own terms (what `.`,
  `.*`, a lookahead and `.{4,}$` can consume) and then shown to accept
  exactly the strings of the plain rule PasswordPolicy.
 */
module PasswordPattern {

  import opened Wrappers
  import opened JavaText

  /** Without DOTALL, `.` does not match these (UNIX_LINES is off too). */
  predicate IsLineTerminator(u: CodeUnit)
  {
    u == 0x0A || u == 0x0D || u == 0x85 || u == 0x2028 || u == 0x2029
  }

  predicate IsAsciiDigit(u: CodeUnit) { 0x30 <= u <= 0x39 }

  predicate IsAsciiLower(u: CodeUnit) { 0x61 <= u <= 0x7A }

  predicate IsAsciiUpper(u: CodeUnit) { 0x41 <= u <= 0x5A }

  /** The three character classes of the pattern: [0-9], [a-z], [A-Z]. */
  datatype CharClass = Digit | Lower | Upper

  predicate InClass(c: CharClass, u: CodeUnit)
  {
    match c
    case Digit => IsAsciiDigit(u)
    case Lower => IsAsciiLower(u)
    case Upper => IsAsciiUpper(u)
  }

  /**
    How many steps of `.` consume all of s, one code point per step, or
    None when one of those code points is a line terminator.
   */
  function DotRun(s: JString): (r: Option<nat>)
    ensures r.Some? <==> forall i :: 0 <= i < |s| ==> !IsLineTerminator(s[i])
    ensures r.Some? ==> r.value == CodePointCount(s)
    decreases |s|
  {
    if s == [] then Some(0)
    else if IsLineTerminator(s[0]) then None
    else
      var w := HeadWidth(s);
      match DotRun(s[w..])
      case None => None
      case Some(n) => Some(n + 1)
  }

  /** `.*` run from offset 0 of s can stop at offset k. */
  predicate DotStarReaches(s: JString, k: nat)
    decreases |s|
  {
    || k == 0
    || (&& |s| > 0
        && !IsLineTerminator(s[0])
        && HeadWidth(s) <= k
        && DotStarReaches(s[HeadWidth(s)..], k - HeadWidth(s)))
  }

  /** `(?=.*[c])` succeeds at the start of s. */
  predicate Lookahead(s: JString, c: CharClass)
  {
    exists k :: 0 <= k < |s| && DotStarReaches(s, k) && InClass(c, s[k])
  }

  /** `s.matches("^(?=.*[0-9])(?=.*[a-z])(?=.*[A-Z]).{4,}$")`: the whole of s must match. */
  predicate Matches(s: JString)
  {
    && Lookahead(s, Digit)
    && Lookahead(s, Lower)
    && Lookahead(s, Upper)
    && DotRun(s).Some?
    && DotRun(s).value >= 4
  }

  /** The rule the pattern expresses, stated without the matcher. */
  predicate PasswordPolicy(s: JString)
  {
    && (forall i :: 0 <= i < |s| ==> !IsLineTerminator(s[i]))
    && (exists i :: 0 <= i < |s| && IsAsciiDigit(s[i]))
    && (exists i :: 0 <= i < |s| && IsAsciiLower(s[i]))
    && (exists i :: 0 <= i < |s| && IsAsciiUpper(s[i]))
    && CodePointCount(s) >= 4
  }

  /**
    On a string without line terminators `.*` can stop in front of any
    unit that is not the second half of a surrogate pair, in particular in
    front of any ASCII letter or digit.
   */
  lemma {:induction false} DotStarReachesClassMember(s: JString, k: nat, c: CharClass)
    requires forall i :: 0 <= i < |s| ==> !IsLineTerminator(s[i])
    requires k < |s| && InClass(c, s[k])
    ensures DotStarReaches(s, k)
  {
    if k > 0 {
      var w := HeadWidth(s);
      assert w <= k;
      var t := s[w..];
      assert t[k - w] == s[k];
      DotStarReachesClassMember(t, k - w, c);
    }
  }

  lemma LookaheadFromMember(s: JString, c: CharClass)
    requires forall i :: 0 <= i < |s| ==> !IsLineTerminator(s[i])
    requires exists i :: 0 <= i < |s| && InClass(c, s[i])
    ensures Lookahead(s, c)
  {
    var i :| 0 <= i < |s| && InClass(c, s[i]);
    DotStarReachesClassMember(s, i, c);
  }

  /** The pattern accepts exactly the passwords of PasswordPolicy. */
  lemma MatchesIffPolicy(s: JString)
    ensures Matches(s) <==> PasswordPolicy(s)
  {
    if PasswordPolicy(s) {
      var d :| 0 <= d < |s| && IsAsciiDigit(s[d]);
      var l :| 0 <= l < |s| && IsAsciiLower(s[l]);
      var u :| 0 <= u < |s| && IsAsciiUpper(s[u]);
      assert InClass(Digit, s[d]) && InClass(Lower, s[l]) && InClass(Upper, s[u]);
      LookaheadFromMember(s, Digit);
      LookaheadFromMember(s, Lower);
      LookaheadFromMember(s, Upper);
    }
    if Matches(s) {
      var d :| 0 <= d < |s| && DotStarReaches(s, d) && InClass(Digit, s[d]);
      var l :| 0 <= l < |s| && DotStarReaches(s, l) && InClass(Lower, s[l]);
      var u :| 0 <= u < |s| && DotStarReaches(s, u) && InClass(Upper, s[u]);
      assert IsAsciiDigit(s[d]) && IsAsciiLower(s[l]) && IsAsciiUpper(s[u]);
    }
  }

  /**
    A matching password is at least four code units long, so the
    `|| password.length() < 4` test after the match can never decide.
   */
  lemma MatchImpliesLengthAtLeastFour(s: JString)
    ensures Matches(s) ==> |s| >= 4
  {
  }

  /**
    The pattern counts code points while `length()` counts code units:
    "aB1" followed by one supplementary character (a surrogate pair) is
    four code points and five units long, and it matches.
   */
  lemma SupplementaryCharacterCountsOnce()
    ensures Matches(FromAscii("aB1") + [0xD83D, 0xDE00])
    ensures CodePointCount(FromAscii("aB1") + [0xD83D, 0xDE00]) == 4
  {
    var s := FromAscii("aB1") + [0xD83D, 0xDE00];
    assert s == [0x61, 0x42, 0x31, 0xD83D, 0xDE00];
    assert s[3..][2..] == [];
    assert CodePointCount(s[3..]) == 1;
    assert HeadWidth(s[2..]) == 1 && s[2..][1..] == s[3..];
    assert CodePointCount(s[2..]) == 2;
    assert HeadWidth(s[1..]) == 1 && s[1..][1..] == s[2..];
    assert CodePointCount(s[1..]) == 3;
    assert HeadWidth(s) == 1;
    assert IsAsciiLower(s[0]) && IsAsciiUpper(s[1]) && IsAsciiDigit(s[2]);
    assert PasswordPolicy(s);
    MatchesIffPolicy(s);
  }
}
