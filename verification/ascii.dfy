/**
  ASCII case folding as the dictionary uses it: `tolower` on one character
  and `strcasecmp` on two NUL-terminated strings, both in the "C" locale.
  Only 7-bit characters are modelled; a C string never contains the NUL
  that terminates it.
 */
module Ascii {

  /** A character a C string can hold before its terminator, restricted to 7-bit ASCII. */
  predicate IsCChar(c: char) {
    0 < c as int < 128
  }

  predicate IsCString(s: string) {
    forall i :: 0 <= i < |s| ==> IsCChar(s[i])
  }

  predicate IsUpper(c: char) {
    'A' <= c <= 'Z'
  }

  /** `tolower`: folds 'A'..'Z' onto 'a'..'z' and leaves every other character alone. */
  function Lower(c: char): (r: char)
    ensures !IsUpper(r)
    ensures IsUpper(c) ==> r as int == c as int - 'A' as int + 'a' as int
    ensures r != c ==> IsUpper(c)
    ensures IsCChar(c) <==> IsCChar(r)
  {
    if IsUpper(c) then (c as int - 'A' as int + 'a' as int) as char else c
  }

  /** The string with every character folded, position by position. */
  function LowerString(s: string): (r: string)
    ensures |r| == |s|
    ensures forall i :: 0 <= i < |s| ==> r[i] == Lower(s[i])
  {
    seq(|s|, i requires 0 <= i < |s| => Lower(s[i]))
  }

  /** The folded code of the character at position `i`, or 0 for the terminator past the end. */
  function FoldedAt(s: string, i: nat): (code: int) {
    if i < |s| then Lower(s[i]) as int else 0
  }

  /**
    `strcasecmp`: walks both strings in step, comparing folded characters, and
    returns the difference of the first folded pair that differs; it stops with
    0 when both reach their terminator together.
   */
  function CaseCompare(a: string, b: string): (diff: int)
    decreases |a|
  {
    var ca := FoldedAt(a, 0);
    var cb := FoldedAt(b, 0);
    if ca != cb then ca - cb
    else if ca == 0 then 0
    else CaseCompare(a[1..], b[1..])
  }

  /** Two C strings compare equal under `strcasecmp` exactly when their folded forms are equal. */
  lemma {:induction false} CaseCompareZeroIff(a: string, b: string)
    requires IsCString(a) && IsCString(b)
    ensures CaseCompare(a, b) == 0 <==> LowerString(a) == LowerString(b)
    decreases |a|
  {
    if |a| == 0 || |b| == 0 {
      if |a| != 0 {
        assert IsCChar(a[0]);
      } else if |b| != 0 {
        assert IsCChar(b[0]);
      }
    } else {
      assert IsCChar(a[0]) && IsCChar(b[0]);
      if Lower(a[0]) == Lower(b[0]) {
        CaseCompareZeroIff(a[1..], b[1..]);
        assert LowerString(a) == [Lower(a[0])] + LowerString(a[1..]);
        assert LowerString(b) == [Lower(b[0])] + LowerString(b[1..]);
      } else {
        assert LowerString(a)[0] != LowerString(b)[0];
      }
    }
  }

  /** `strcasecmp(a, b) == 0` is reflexive, symmetric and transitive on C strings. */
  lemma CaseEqualIsEquivalence(a: string, b: string, c: string)
    requires IsCString(a) && IsCString(b) && IsCString(c)
    ensures CaseCompare(a, a) == 0
    ensures CaseCompare(a, b) == 0 ==> CaseCompare(b, a) == 0
    ensures CaseCompare(a, b) == 0 && CaseCompare(b, c) == 0 ==> CaseCompare(a, c) == 0
  {
    CaseCompareZeroIff(a, a);
    CaseCompareZeroIff(a, b);
    CaseCompareZeroIff(b, a);
    CaseCompareZeroIff(b, c);
    CaseCompareZeroIff(a, c);
  }
}
