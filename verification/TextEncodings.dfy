/** Byte strings as text: lowercase hex and padded base64 (RFC 4648). */
module TextEncodings {
  import opened Bytes
  import JsonTree

  // ----- Lowercase hex -----

  function Hex(b: bytes): (s: bytes)
    ensures |s| == 2 * |b|
  {
    if b == [] then [] else [JsonTree.HexDigit(b[0] / 16), JsonTree.HexDigit(b[0] % 16)] + Hex(b[1..])
  }

  predicate IsLowerHex(c: byte) {
    0x30 <= c <= 0x39 || 0x61 <= c <= 0x66
  }

  /** What `ValidateLowercaseHex` accepts: an even number of digits 0-9 and a-f. */
  predicate IsLowercaseHex(s: bytes) {
    |s| % 2 == 0 && forall i :: 0 <= i < |s| ==> IsLowerHex(s[i])
  }

  function HexBytes(s: bytes): bytes
    requires IsLowercaseHex(s)
  {
    if s == [] then []
    else
      assert IsLowerHex(s[0]) && IsLowerHex(s[1]);
      [JsonTree.HexValue(s[0]) * 16 + JsonTree.HexValue(s[1])] + HexBytes(s[2..])
  }

  lemma {:induction false} HexRoundTrip(b: bytes)
    ensures IsLowercaseHex(Hex(b)) && HexBytes(Hex(b)) == b
  {
    if b != [] {
      HexRoundTrip(b[1..]);
      assert Hex(b)[2..] == Hex(b[1..]);
    }
  }

  lemma HexPair(c: byte, d: byte)
    requires IsLowerHex(c) && IsLowerHex(d)
    ensures var n := JsonTree.HexValue(c) * 16 + JsonTree.HexValue(d);
            n < 256 && JsonTree.HexDigit(n / 16) == c && JsonTree.HexDigit(n % 16) == d
  {
  }

  lemma {:induction false} HexCanonical(s: bytes)
    requires IsLowercaseHex(s)
    ensures Hex(HexBytes(s)) == s
  {
    if s != [] {
      HexCanonical(s[2..]);
      assert IsLowerHex(s[0]) && IsLowerHex(s[1]);
      HexPair(s[0], s[1]);
      assert HexBytes(s)[1..] == HexBytes(s[2..]);
      assert s == [s[0], s[1]] + s[2..];
      hide JsonTree.HexDigit, JsonTree.HexValue;
    }
  }

  // ----- Base64 -----

  const PAD: byte := 0x3D

  function Letter(n: nat): byte
    requires n < 64
  {
    if n < 26 then 0x41 + n
    else if n < 52 then 0x61 + n - 26
    else if n < 62 then 0x30 + n - 52
    else if n == 62 then 0x2B
    else 0x2F
  }

  predicate IsLetter(c: byte) {
    0x41 <= c <= 0x5A || 0x61 <= c <= 0x7A || 0x30 <= c <= 0x39 || c == 0x2B || c == 0x2F
  }

  function LetterValue(c: byte): (n: nat)
    requires IsLetter(c)
    ensures n < 64 && Letter(n) == c
  {
    if 0x41 <= c <= 0x5A then c - 0x41
    else if 0x61 <= c <= 0x7A then c as int - 0x61 + 26
    else if 0x30 <= c <= 0x39 then c as int - 0x30 + 52
    else if c == 0x2B then 62
    else 63
  }

  lemma LetterRoundTrip(n: nat)
    requires n < 64
    ensures IsLetter(Letter(n)) && LetterValue(Letter(n)) == n
  {
  }

  /** Three bytes as four letters. */
  function Group(x: byte, y: byte, z: byte): (g: bytes)
    ensures |g| == 4
  {
    [Letter(x / 4), Letter(x % 4 * 16 + y / 16), Letter(y % 16 * 4 + z / 64), Letter(z % 64)]
  }

  function Base64(b: bytes): bytes
  {
    if b == [] then []
    else if |b| == 1 then Group(b[0], 0, 0)[..2] + [PAD, PAD]
    else if |b| == 2 then Group(b[0], b[1], 0)[..3] + [PAD]
    else Group(b[0], b[1], b[2]) + Base64(b[3..])
  }

  function WithoutNewlines(s: bytes): bytes
  {
    if s == [] then []
    else (if s[0] == 0x0A || s[0] == 0x0D then [] else [s[0]]) + WithoutNewlines(s[1..])
  }

  /** Groups of four letters, the last one possibly padded.  Bits that padding
      leaves over are ignored. */
  function Ungrouped(s: bytes): Option<bytes>
  {
    if s == [] then Some([])
    else if |s| < 4 || !IsLetter(s[0]) || !IsLetter(s[1]) then None
    else
      var (a, b) := (LetterValue(s[0]), LetterValue(s[1]));
      if s[2] == PAD then
        if s[3] == PAD && |s| == 4 then Some([a * 4 + b / 16]) else None
      else if !IsLetter(s[2]) then None
      else
        var c := LetterValue(s[2]);
        if s[3] == PAD then
          if |s| == 4 then Some([a * 4 + b / 16, b % 16 * 16 + c / 4]) else None
        else if !IsLetter(s[3]) then None
        else
          match Ungrouped(s[4..])
          case None => None
          case Some(rest) => Some([a * 4 + b / 16, b % 16 * 16 + c / 4, c % 4 * 64 + LetterValue(s[3])] + rest)
  }

  /** The standard decoder, which skips line breaks. */
  function Unbase64(s: bytes): Option<bytes> {
    Ungrouped(WithoutNewlines(s))
  }

  predicate PlainText(s: bytes) {
    forall i :: 0 <= i < |s| ==> 0x20 < s[i] < 0x7F
  }

  lemma {:induction false} NoNewlines(s: bytes)
    requires PlainText(s)
    ensures WithoutNewlines(s) == s
  {
    if s != [] { NoNewlines(s[1..]); }
  }

  lemma GroupIsPlain(x: byte, y: byte, z: byte)
    ensures PlainText(Group(x, y, z))
  {
  }

  lemma {:induction false} Base64IsPlain(b: bytes)
    ensures PlainText(Base64(b))
    decreases |b|
  {
    hide Group;
    if |b| >= 1 { GroupIsPlain(b[0], if |b| >= 2 then b[1] else 0, if |b| >= 3 then b[2] else 0); }
    if |b| >= 3 { Base64IsPlain(b[3..]); }
  }

  lemma {:induction false} HexIsPlain(b: bytes)
    ensures PlainText(Hex(b))
  {
    if b != [] { HexIsPlain(b[1..]); }
  }

  lemma GroupRoundTrip(x: byte, y: byte, z: byte)
    ensures var (a, b, c, d) := (x / 4, x % 4 * 16 + y / 16, y % 16 * 4 + z / 64, z % 64);
            a < 64 && b < 64 && c < 64 && d < 64
            && a * 4 + b / 16 == x && b % 16 * 16 + c / 4 == y && c % 4 * 64 + d == z
  {
  }

  lemma FullGroup(a: nat, b: nat, c: nat, d: nat, tail: bytes, rest: bytes)
    requires a < 64 && b < 64 && c < 64 && d < 64 && Ungrouped(tail) == Some(rest)
    ensures Ungrouped([Letter(a), Letter(b), Letter(c), Letter(d)] + tail)
            == Some([a * 4 + b / 16, b % 16 * 16 + c / 4, c % 4 * 64 + d] + rest)
  {
    LetterRoundTrip(a);
    LetterRoundTrip(b);
    LetterRoundTrip(c);
    LetterRoundTrip(d);
    hide Letter, LetterValue;
    assert ([Letter(a), Letter(b), Letter(c), Letter(d)] + tail)[4..] == tail;
  }

  lemma PaddedGroups(a: nat, b: nat, c: nat)
    requires a < 64 && b < 64 && c < 64
    ensures Ungrouped([Letter(a), Letter(b), PAD, PAD]) == Some([a * 4 + b / 16])
    ensures Ungrouped([Letter(a), Letter(b), Letter(c), PAD]) == Some([a * 4 + b / 16, b % 16 * 16 + c / 4])
  {
    hide Letter, LetterValue;
    LetterRoundTrip(a);
    LetterRoundTrip(b);
    LetterRoundTrip(c);
  }

  lemma WholeGroup(x: byte, y: byte, z: byte, tail: bytes, rest: bytes)
    requires Ungrouped(tail) == Some(rest)
    ensures Ungrouped(Group(x, y, z) + tail) == Some([x, y, z] + rest)
  {
    hide Letter, LetterValue, Ungrouped;
    GroupRoundTrip(x, y, z);
    FullGroup(x / 4, x % 4 * 16 + y / 16, y % 16 * 4 + z / 64, z % 64, tail, rest);
  }

  lemma LastGroup(x: byte, y: byte)
    ensures Ungrouped(Group(x, 0, 0)[..2] + [PAD, PAD]) == Some([x])
    ensures Ungrouped(Group(x, y, 0)[..3] + [PAD]) == Some([x, y])
  {
    hide Letter, LetterValue, Ungrouped;
    GroupRoundTrip(x, 0, 0);
    GroupRoundTrip(x, y, 0);
    PaddedGroups(x / 4, x % 4 * 16, 0);
    PaddedGroups(x / 4, x % 4 * 16 + y / 16, y % 16 * 4);
    assert Group(x, 0, 0)[..2] + [PAD, PAD] == [Letter(x / 4), Letter(x % 4 * 16), PAD, PAD];
    assert Group(x, y, 0)[..3] + [PAD] == [Letter(x / 4), Letter(x % 4 * 16 + y / 16), Letter(y % 16 * 4), PAD];
  }

  lemma {:induction false} UngroupedBase64(b: bytes)
    ensures Ungrouped(Base64(b)) == Some(b)
    decreases |b|
  {
    hide Group, Ungrouped;
    if |b| >= 3 {
      UngroupedBase64(b[3..]);
      WholeGroup(b[0], b[1], b[2], Base64(b[3..]), b[3..]);
      assert b == [b[0], b[1], b[2]] + b[3..];
    } else if |b| == 2 {
      LastGroup(b[0], b[1]);
      assert b == [b[0], b[1]];
    } else if |b| == 1 {
      LastGroup(b[0], 0);
      assert b == [b[0]];
    } else {
      NothingUngrouped();
    }
  }

  lemma NothingUngrouped()
    ensures Ungrouped([]) == Some([])
  {
  }

  lemma Base64RoundTrip(b: bytes)
    ensures Unbase64(Base64(b)) == Some(b)
  {
    Base64IsPlain(b);
    NoNewlines(Base64(b));
    UngroupedBase64(b);
  }
}
