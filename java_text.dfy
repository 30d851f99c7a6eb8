/**
  Java strings as the JVM holds them: sequences of UTF-16 code units.
  `String.length()` counts code units, while the regular-expression engine
  steps over code points (a well-formed surrogate pair is one code point,
  an unpaired surrogate is a code point of its own).
 */
module JavaText {

  /** One UTF-16 code unit (a Java `char`). */
  type CodeUnit = u: int | 0 <= u < 0x1_0000

  /** A non-null java.lang.String. */
  type JString = seq<CodeUnit>

  predicate IsHighSurrogate(u: CodeUnit) { 0xD800 <= u < 0xDC00 }

  predicate IsLowSurrogate(u: CodeUnit) { 0xDC00 <= u < 0xE000 }

  /** Number of code units taken by the code point that starts s. */
  function HeadWidth(s: JString): (w: nat)
    requires |s| > 0
    ensures 1 <= w <= 2 && w <= |s|
  {
    if |s| >= 2 && IsHighSurrogate(s[0]) && IsLowSurrogate(s[1]) then 2 else 1
  }

  /** `String.codePointCount(0, length())`. */
  function CodePointCount(s: JString): (n: nat)
    ensures n <= |s| <= 2 * n
    ensures (forall i :: 0 <= i < |s| ==> !IsHighSurrogate(s[i])) ==> n == |s|
    decreases |s|
  {
    if s == [] then 0 else 1 + CodePointCount(s[HeadWidth(s)..])
  }

  /** A Java string literal written in ASCII. */
  function FromAscii(s: string): (r: JString)
    requires forall i :: 0 <= i < |s| ==> s[i] as int < 128
    ensures |r| == |s|
    ensures forall i :: 0 <= i < |s| ==> r[i] == s[i] as int
  {
    seq(|s|, i requires 0 <= i < |s| => s[i] as int)
  }
}
