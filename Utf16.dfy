/**
  Kotlin strings as the JVM stores them: sequences of UTF-16 code units.
  `String.length`, which every length check of the validation engine uses,
  counts code units, so a character outside the Basic Multilingual Plane
  counts twice.
 */
module Utf16 {

  /** One UTF-16 code unit (a Kotlin `Char`). */
  newtype CodeUnit = u: int | 0 <= u < 0x1_0000

  /** A Kotlin `String`; its `length` is `|s|`. */
  type KString = seq<CodeUnit>

  predicate IsHighSurrogate(u: CodeUnit) { 0xD800 <= u <= 0xDBFF }

  predicate IsLowSurrogate(u: CodeUnit) { 0xDC00 <= u <= 0xDFFF }

  predicate IsSurrogate(u: CodeUnit) { IsHighSurrogate(u) || IsLowSurrogate(u) }

  /** The code unit of a character of the Basic Multilingual Plane. */
  function Unit(c: char): CodeUnit
    requires c as int < 0x1_0000
  {
    c as int as CodeUnit
  }

  /**
    The UTF-16 encoding of one Unicode scalar value: itself when it lies in
    the Basic Multilingual Plane, a high/low surrogate pair otherwise. The
    pair decodes back to the character.
   */
  function EncodeChar(c: char): (u: KString)
    ensures c as int < 0x1_0000 ==> |u| == 1 && u[0] as int == c as int && !IsSurrogate(u[0])
    ensures c as int >= 0x1_0000 ==>
      && |u| == 2
      && IsHighSurrogate(u[0]) && IsLowSurrogate(u[1])
      && 0x1_0000 + (u[0] as int - 0xD800) * 0x400 + (u[1] as int - 0xDC00) == c as int
  {
    var n := c as int;
    if n < 0x1_0000 then
      [n as CodeUnit]
    else
      [(0xD800 + (n - 0x1_0000) / 0x400) as CodeUnit, (0xDC00 + (n - 0x1_0000) % 0x400) as CodeUnit]
  }

  /** The Kotlin string holding the text `s`. */
  function Encode(s: string): (u: KString)
  {
    if s == [] then [] else EncodeChar(s[0]) + Encode(s[1..])
  }

  /** Text made only of Basic Multilingual Plane characters has one code unit per character. */
  lemma {:induction false} EncodeBmp(s: string)
    requires forall i :: 0 <= i < |s| ==> s[i] as int < 0x1_0000
    ensures |Encode(s)| == |s|
    ensures forall i :: 0 <= i < |s| ==> Encode(s)[i] as int == s[i] as int
  {
    if s != [] {
      EncodeBmp(s[1..]);
      assert Encode(s) == EncodeChar(s[0]) + Encode(s[1..]);
      forall i | 0 < i < |s|
        ensures Encode(s)[i] as int == s[i] as int
      {
        assert Encode(s)[i] == Encode(s[1..])[i - 1];
        assert s[i] == s[1..][i - 1];
      }
    }
  }

  /** Text with a character outside the Basic Multilingual Plane encodes to a string holding a surrogate. */
  lemma {:induction false} EncodeSupplementary(s: string, k: nat)
    requires k < |s| && s[k] as int >= 0x1_0000
    ensures exists j :: 0 <= j < |Encode(s)| && IsSurrogate(Encode(s)[j])
  {
    var head := EncodeChar(s[0]);
    assert Encode(s) == head + Encode(s[1..]);
    if k == 0 {
      assert IsSurrogate(Encode(s)[0]);
    } else {
      assert s[1..][k - 1] == s[k];
      EncodeSupplementary(s[1..], k - 1);
      var j :| 0 <= j < |Encode(s[1..])| && IsSurrogate(Encode(s[1..])[j]);
      assert Encode(s)[|head| + j] == Encode(s[1..])[j];
    }
  }
}
