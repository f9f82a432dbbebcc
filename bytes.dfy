/** Byte strings (resip's `Data`), the delimiter bytes of the parameter
    grammar, and the ASCII case-insensitive comparison `isEqualNoCase`. */
module Bytes {

  type Data = seq<bv8>

  const SPACE: bv8 := 0x20
  const TAB: bv8 := 0x09
  const CR: bv8 := 0x0D
  const LF: bv8 := 0x0A
  const SEMI_COLON: bv8 := 0x3B
  const EQUALS: bv8 := 0x3D
  const QUESTION: bv8 := 0x3F
  const RA_QUOTE: bv8 := 0x3E

  /** The bytes the cursor's `skipWhitespace` passes over. */
  const WHITESPACE: set<bv8> := {SPACE, TAB, CR, LF}

  /** A key ends at one of ` \t\r\n;=?>`. */
  const KEY_TERMINATORS: set<bv8> := WHITESPACE + {SEMI_COLON, EQUALS, QUESTION, RA_QUOTE}

  /** A value ends at one of ` \t\r\n;?>` (no `=`: the value scanners handle it). */
  const VALUE_TERMINATORS: set<bv8> := WHITESPACE + {SEMI_COLON, QUESTION, RA_QUOTE}

  /** The bytes of an ASCII text. */
  function Ascii(s: string): (r: Data)
    requires forall i :: 0 <= i < |s| ==> s[i] as int < 128
    ensures |r| == |s|
  {
    seq(|s|, i requires 0 <= i < |s| => (s[i] as int) as bv8)
  }

  /** ASCII lower-casing; bytes outside `A`..`Z` are left alone. */
  function ToLower(b: bv8): (r: bv8)
    ensures 0x41 <= b <= 0x5A ==> r == b + 0x20
    ensures !(0x41 <= b <= 0x5A) ==> r == b
  {
    if 0x41 <= b <= 0x5A then b + 0x20 else b
  }

  /** An ASCII letter, upper or lower case. */
  predicate IsLetter(b: bv8)
  {
    0x41 <= b <= 0x5A || 0x61 <= b <= 0x7A
  }

  /** `isEqualNoCase`: equal length and equal byte by byte after ASCII
      lower-casing. */
  predicate EqualNoCase(a: Data, b: Data): (r: bool)
    ensures r ==> |a| == |b|
    ensures a == b ==> r
  {
    |a| == |b| && forall i :: 0 <= i < |a| ==> ToLower(a[i]) == ToLower(b[i])
  }

  /** Only the case of ASCII letters is forgiven: every other byte of two
      names equal ignoring case matches exactly. */
  lemma EqualNoCaseForgivesOnlyLetterCase(a: Data, b: Data)
    requires EqualNoCase(a, b)
    ensures forall i :: 0 <= i < |a| && !IsLetter(a[i]) ==> b[i] == a[i]
  {
  }

  /** Exact equality implies case-insensitive equality, and the relation is
      symmetric and transitive, so lookups by it are well behaved. */
  lemma EqualNoCaseIsEquivalence(a: Data, b: Data, c: Data)
    ensures a == b ==> EqualNoCase(a, b)
    ensures EqualNoCase(a, b) ==> EqualNoCase(b, a)
    ensures EqualNoCase(a, b) && EqualNoCase(b, c) ==> EqualNoCase(a, c)
  {
  }

  /** Case matters to `==` but not to `EqualNoCase`: `MSGR` and `msgr` are
      names that meet the requires of `RemoveByNameMissesOtherCase`. */
  lemma {:induction false} CaseDistinguishesOnlyExactEquality()
    ensures var upper: Data, lower: Data := [0x4D, 0x53, 0x47, 0x52], [0x6D, 0x73, 0x67, 0x72];
      EqualNoCase(upper, lower) && upper != lower
  {
    var a: Data := [0x4D, 0x53, 0x47, 0x52];
    var b: Data := [0x6D, 0x73, 0x67, 0x72];
    assert ToLower(a[0]) == b[0] && ToLower(a[1]) == b[1];
    assert ToLower(a[2]) == b[2] && ToLower(a[3]) == b[3];
    assert a[0] != b[0];
  }
}
