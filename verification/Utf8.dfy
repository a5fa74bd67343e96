/** UTF-8 (RFC 3629): validity, encoding, and the repair of invalid text. */
module Utf8 {
  import opened Bytes

  predicate Continues(s: bytes, i: nat) {
    i < |s| && 0x80 <= s[i] <= 0xBF
  }

  /** How many bytes the character at the start of `s` takes; 0 if there is none
      or it is ill-formed. */
  function CharLen(s: bytes): (n: nat)
    ensures n <= |s| && n <= 4
  {
    if s == [] then 0
    else if s[0] < 0x80 then 1
    else if 0xC2 <= s[0] <= 0xDF && Continues(s, 1) then 2
    else if 0xE0 <= s[0] <= 0xEF && Continues(s, 1) && Continues(s, 2)
            && (s[0] == 0xE0 ==> s[1] >= 0xA0) && (s[0] == 0xED ==> s[1] <= 0x9F) then 3
    else if 0xF0 <= s[0] <= 0xF4 && Continues(s, 1) && Continues(s, 2) && Continues(s, 3)
            && (s[0] == 0xF0 ==> s[1] >= 0x90) && (s[0] == 0xF4 ==> s[1] <= 0x8F) then 4
    else 0
  }

  predicate Valid(s: bytes)
  {
    s == [] || (CharLen(s) > 0 && Valid(s[CharLen(s)..]))
  }

  const REPLACEMENT: bytes := [0xEF, 0xBF, 0xBD]

  /** `bytes.ToValidUTF8`: each run of bytes that are not UTF-8 becomes one U+FFFD. */
  function Repaired(s: bytes, inRun: bool): bytes
  {
    if s == [] then []
    else if CharLen(s) > 0 then s[..CharLen(s)] + Repaired(s[CharLen(s)..], false)
    else (if inRun then [] else REPLACEMENT) + Repaired(s[1..], true)
  }

  predicate IsScalar(c: nat) {
    c <= 0x10FFFF && !(0xD800 <= c <= 0xDFFF)
  }

  function EncodeTwo(c: nat): (s: bytes)
    requires 0x80 <= c < 0x800
    ensures 2 == |s| == CharLen(s)
  {
    [0xC0 + c / 64, 0x80 + c % 64]
  }

  function EncodeThree(c: nat): (s: bytes)
    requires 0x800 <= c < 0x1_0000 && IsScalar(c)
    ensures 3 == |s| == CharLen(s)
  {
    [0xE0 + c / 4096, 0x80 + c / 64 % 64, 0x80 + c % 64]
  }

  function EncodeFour(c: nat): (s: bytes)
    requires 0x1_0000 <= c && IsScalar(c)
    ensures 4 == |s| == CharLen(s)
  {
    [0xF0 + c / 0x4_0000, 0x80 + c / 4096 % 64, 0x80 + c / 64 % 64, 0x80 + c % 64]
  }

  function Encode(c: nat): (s: bytes)
    requires IsScalar(c)
    ensures 1 <= |s| == CharLen(s)
  {
    if c < 0x80 then [c] else if c < 0x800 then EncodeTwo(c) else if c < 0x1_0000 then EncodeThree(c) else EncodeFour(c)
  }

  /** The character a well-formed sequence stands for. */
  function CodePoint(s: bytes): nat
    requires CharLen(s) > 0
  {
    var at := (i: nat) requires i < |s| => s[i] as int;
    match CharLen(s)
    case 1 => at(0)
    case 2 => (at(0) - 0xC0) * 64 + (at(1) - 0x80)
    case 3 => (at(0) - 0xE0) * 4096 + (at(1) - 0x80) * 64 + (at(2) - 0x80)
    case _ => (at(0) - 0xF0) * 0x4_0000 + (at(1) - 0x80) * 4096 + (at(2) - 0x80) * 64 + (at(3) - 0x80)
  }

  lemma CharLenPrefix(a: bytes, b: bytes)
    requires CharLen(a) > 0
    ensures CharLen(a + b) == CharLen(a)
  {
    var s := a + b;
    assert forall i :: 0 <= i < |a| ==> s[i] == a[i];
  }

  lemma {:induction false} ValidConcat(a: bytes, b: bytes)
    requires Valid(a)
    ensures Valid(a + b) == Valid(b)
  {
    if a == [] {
      assert a + b == b;
    } else {
      var n := CharLen(a);
      CharLenPrefix(a, b);
      ValidConcat(a[n..], b);
      assert (a + b)[n..] == a[n..] + b;
    }
  }

  lemma ValidChar(s: bytes)
    requires 0 < CharLen(s) == |s|
    ensures Valid(s)
  {
    assert s[|s|..] == [];
  }

  /** The repair always yields UTF-8. */
  lemma {:induction false} RepairedIsValid(s: bytes, inRun: bool)
    ensures Valid(Repaired(s, inRun))
  {
    if s != [] {
      var n := CharLen(s);
      if n > 0 {
        RepairedIsValid(s[n..], false);
        CharAlone(s);
        ValidChar(s[..n]);
        ValidConcat(s[..n], Repaired(s[n..], false));
      } else {
        RepairedIsValid(s[1..], true);
        ValidChar(REPLACEMENT);
        ValidConcat(REPLACEMENT, Repaired(s[1..], true));
        assert [] + Repaired(s[1..], true) == Repaired(s[1..], true);
      }
    }
  }

  lemma CharAlone(s: bytes)
    requires CharLen(s) > 0
    ensures CharLen(s[..CharLen(s)]) == CharLen(s)
  {
  }

  /** The repair leaves UTF-8 alone, and only UTF-8. */
  lemma {:induction false} RepairedIsIdentity(s: bytes)
    ensures Repaired(s, false) == s <==> Valid(s)
  {
    if Valid(s) {
      ValidUnchanged(s);
    } else {
      RepairedIsValid(s, false);
    }
  }

  lemma {:induction false} ValidUnchanged(s: bytes)
    requires Valid(s)
    ensures Repaired(s, false) == s
  {
    if s != [] { ValidUnchanged(s[CharLen(s)..]); }
  }

  lemma TwoBytes(s: bytes)
    requires CharLen(s) == 2
    ensures 0x80 <= CodePoint(s) < 0x800 && EncodeTwo(CodePoint(s)) == s[..2]
  {
    var a: int, b: int := s[0] as int - 0xC0, s[1] as int - 0x80;
    assert CodePoint(s) == a * 64 + b && 2 <= a < 32 && 0 <= b < 64;
    assert s[..2] == [s[0], s[1]];
  }

  lemma ThreeBytes(s: bytes)
    requires CharLen(s) == 3
    ensures 0x800 <= CodePoint(s) < 0x1_0000 && IsScalar(CodePoint(s)) && EncodeThree(CodePoint(s)) == s[..3]
  {
    var a: int, b: int, c: int := s[0] as int - 0xE0, s[1] as int - 0x80, s[2] as int - 0x80;
    var x := CodePoint(s);
    assert x == a * 4096 + b * 64 + c && 0 <= a < 16 && 0 <= b < 64 && 0 <= c < 64;
    assert x / 64 == a * 64 + b;
    assert s[..3] == [s[0], s[1], s[2]];
  }

  lemma FourBytes(s: bytes)
    requires CharLen(s) == 4
    ensures 0x1_0000 <= CodePoint(s) && IsScalar(CodePoint(s)) && EncodeFour(CodePoint(s)) == s[..4]
  {
    hide CharLen;
    var a: int, b: int := s[0] as int - 0xF0, s[1] as int - 0x80;
    var c: int, d: int := s[2] as int - 0x80, s[3] as int - 0x80;
    FourBytesRange(s);
    FourDigits(a, b, c, d);
    assert s[..4] == [s[0], s[1], s[2], s[3]];
  }

  lemma FourBytesRange(s: bytes)
    requires CharLen(s) == 4
    ensures |s| >= 4 && 0xF0 <= s[0] <= 0xF4 && 0x80 <= s[1] < 0xC0 && 0x80 <= s[2] < 0xC0 && 0x80 <= s[3] < 0xC0
    ensures (s[0] == 0xF0 ==> s[1] >= 0x90) && (s[0] == 0xF4 ==> s[1] <= 0x8F)
  {
  }

  lemma FourDigits(a: nat, b: nat, c: nat, d: nat)
    requires b < 64 && c < 64 && d < 64
    ensures var x := a * 0x4_0000 + b * 4096 + c * 64 + d;
            && x / 0x4_0000 == a && x / 4096 % 64 == b && x / 64 % 64 == c && x % 64 == d
  {
    var x := a * 0x4_0000 + b * 4096 + c * 64 + d;
    assert x / 64 == a * 4096 + b * 64 + c;
    assert x / 4096 == a * 64 + b;
  }

  /** A well-formed sequence is the encoding of the character it stands for. */
  lemma CodePointExact(s: bytes)
    requires CharLen(s) > 0
    ensures IsScalar(CodePoint(s)) && Encode(CodePoint(s)) == s[..CharLen(s)]
  {
    var n := CharLen(s);
    if n == 1 {
      assert s[..1] == [s[0]];
    } else if n == 2 {
      TwoBytes(s);
      hide CharLen, CodePoint, EncodeTwo;
    } else if n == 3 {
      ThreeBytes(s);
      hide CharLen, CodePoint, EncodeThree;
    } else {
      FourBytes(s);
      hide CharLen, CodePoint, EncodeFour;
    }
  }
}
