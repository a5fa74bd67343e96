/**
 The byte-level forms stated the way the standards state them: UTF-8 (RFC 3629), hex and
 base64 (RFC 4648), JSON escapes (RFC 8259 section 7), decimal numerals and big-endian
 arguments, each apart from the decoder that inverts it.
 */
module StandardForms {
  import opened Bytes
  import opened JsonTree
  import BundleDecode
  import BundleEncode
  import BundleValue
  import CborSyntax
  import Numbers
  import TextEncodings
  import Utf8

  // ----- Numbers as bytes -----

  /** Byte `k` of `len` big-endian bytes is the digit worth 256^(len - 1 - k). */
  lemma {:induction false} BigEndianAt(n: nat, len: nat, k: nat)
    requires k < len
    ensures BigEndian(n, len)[k] as int == n / Pow256(len - 1 - k) % 256
  {
    if k < len - 1 {
      BigEndianAt(n / 256, len - 1, k);
      hide *;
      BigEndianStep(n, len, k);
      PowStep(len - 1 - k);
      DivideTwice(n, 256, Pow256(len - 2 - k));
    } else {
      hide *;
      LastOfBigEndian(n, len);
    }
  }

  lemma BigEndianStep(n: nat, len: nat, k: nat)
    requires k < len - 1
    ensures BigEndian(n, len)[k] == BigEndian(n / 256, len - 1)[k]
  {
  }

  lemma LastOfBigEndian(n: nat, len: nat)
    requires len > 0
    ensures BigEndian(n, len)[len - 1] as int == n / Pow256(0) % 256
  {
  }

  lemma PowStep(k: nat)
    requires k > 0
    ensures Pow256(k) == 256 * Pow256(k - 1) && Pow256(k - 1) >= 1
  {
  }

  /** A numeral is its digits from the most significant down. */
  lemma DigitsStep(n: nat, d: nat)
    requires d < 10
    ensures Numbers.Digits(d) == [Ascii("0123456789")[d]]
    ensures n > 0 ==> Numbers.Digits(10 * n + d) == Numbers.Digits(n) + [Ascii("0123456789")[d]]
  {
    assert Ascii("0123456789")[d] == 0x30 + d;
    if n > 0 { assert (10 * n + d) / 10 == n && (10 * n + d) % 10 == d; }
  }

  lemma SignedNumeral(i: int)
    ensures i >= 0 ==> Numbers.IntLiteral(i) == Numbers.Digits(i)
    ensures i < 0 ==> Numbers.IntLiteral(i) == Ascii("-") + Numbers.Digits(-i)
  {
    assert Ascii("-") == [0x2D];
  }

  // ----- Hex -----

  /** The lowercase digits, and the uppercase ones a reader knows too. */
  lemma HexDigits(n: nat)
    requires n < 16
    ensures HexDigit(n) == Ascii("0123456789abcdef")[n]
    ensures HexValue(Ascii("0123456789abcdef")[n]) == n && HexValue(Ascii("0123456789ABCDEF")[n]) == n
  {
  }

  /** Two digits a byte, the high half first. */
  lemma {:induction false} HexAt(b: bytes, k: nat)
    requires k < |b|
    ensures TextEncodings.Hex(b)[2 * k] == Ascii("0123456789abcdef")[b[k] / 16]
    ensures TextEncodings.Hex(b)[2 * k + 1] == Ascii("0123456789abcdef")[b[k] % 16]
  {
    hide HexDigit;
    if k == 0 {
      HexDigits(b[0] / 16);
      HexDigits(b[0] % 16);
    } else {
      HexAt(b[1..], k - 1);
      assert TextEncodings.Hex(b)[2..] == TextEncodings.Hex(b[1..]);
      assert TextEncodings.Hex(b)[2 * k] == TextEncodings.Hex(b)[2..][2 * k - 2];
      assert TextEncodings.Hex(b)[2 * k + 1] == TextEncodings.Hex(b)[2..][2 * k - 1];
    }
  }

  /** Which bytes are lowercase hex digits. */
  lemma LowerHexExactly(c: byte)
    ensures TextEncodings.IsLowerHex(c) <==> exists n: nat :: n < 16 && Ascii("0123456789abcdef")[n] == c
  {
    var digits := Ascii("0123456789abcdef");
    assert forall n: nat :: n < 16 ==> digits[n] == if n < 10 then 0x30 + n else 0x57 + n;
    if TextEncodings.IsLowerHex(c) {
      var n: nat := if c < 0x40 then c - 0x30 else c as int - 0x57;
      assert digits[n] == c;
    }
  }

  // ----- Base64 -----

  function Alphabet(): (a: bytes)
    ensures |a| == 64
  {
    Ascii("ABCDEFGHIJKLMNOPQRSTUVWXYZ") + Ascii("abcdefghijklmnopqrstuvwxyz") + Ascii("0123456789+/")
  }

  lemma LetterIsAlphabet(n: nat)
    requires n < 64
    ensures TextEncodings.Letter(n) == Alphabet()[n]
  {
    hide TextEncodings.Letter, Ascii;
    if n < 26 {
      Capitals(n);
    } else if n < 52 {
      Smalls(n - 26);
    } else {
      OtherLetters(n - 52);
    }
  }

  lemma Capitals(n: nat)
    requires n < 26
    ensures TextEncodings.Letter(n) == Ascii("ABCDEFGHIJKLMNOPQRSTUVWXYZ")[n]
  {
  }

  lemma Smalls(n: nat)
    requires n < 26
    ensures TextEncodings.Letter(26 + n) == Ascii("abcdefghijklmnopqrstuvwxyz")[n]
  {
  }

  lemma OtherLetters(n: nat)
    requires n < 12
    ensures TextEncodings.Letter(52 + n) == Ascii("0123456789+/")[n]
  {
  }

  /** Three bytes are the four letters whose places in the alphabet, as digits of base 64,
      make the same number. */
  lemma GroupIsNumber(x: byte, y: byte, z: byte, a: nat, b: nat, c: nat, d: nat)
    requires a < 64 && b < 64 && c < 64 && d < 64
    requires x as int * 0x1_0000 + y as int * 0x100 + z as int == a * 0x4_0000 + b * 0x1000 + c * 0x40 + d
    ensures TextEncodings.Group(x, y, z) == [Alphabet()[a], Alphabet()[b], Alphabet()[c], Alphabet()[d]]
  {
    hide TextEncodings.Letter, Alphabet;
    assert a == x as int / 4 && b == x as int % 4 * 16 + y as int / 16;
    assert c == y as int % 16 * 4 + z as int / 64 && d == z as int % 64;
    LetterIsAlphabet(a);
    LetterIsAlphabet(b);
    LetterIsAlphabet(c);
    LetterIsAlphabet(d);
  }

  /** One or two bytes left over are padded with zero bits and with equals signs. */
  lemma PaddedGroups(x: byte, y: byte)
    ensures TextEncodings.Base64([]) == []
    ensures TextEncodings.Base64([x]) == TextEncodings.Group(x, 0, 0)[..2] + Ascii("==")
    ensures TextEncodings.Base64([x, y]) == TextEncodings.Group(x, y, 0)[..3] + Ascii("=")
  {
    hide TextEncodings.Group;
    assert Ascii("=") == [0x3D] && Ascii("==") == [0x3D, 0x3D];
  }

  lemma WholeGroups(x: byte, y: byte, z: byte, rest: bytes)
    ensures TextEncodings.Base64([x, y, z] + rest) == TextEncodings.Group(x, y, z) + TextEncodings.Base64(rest)
  {
    hide TextEncodings.Group;
    assert ([x, y, z] + rest)[3..] == rest;
  }

  // ----- UTF-8 -----

  /** A character takes as many bytes as its bits need, the leading byte says how many, and
      six bits go into each byte that follows, high bits first. */
  lemma ShortForms(a: nat, b: nat)
    ensures b <= 0x7F ==> Utf8.Encode(b) == [b]
    ensures 2 <= a < 32 && b < 64 ==> Utf8.Encode(a * 64 + b) == [192 + a, 128 + b]
  {
    if 2 <= a < 32 && b < 64 { assert (a * 64 + b) / 64 == a && (a * 64 + b) % 64 == b; }
  }

  lemma ThreeByteForm(a: nat, b: nat, c: nat)
    requires a < 16 && b < 64 && c < 64
    requires a * 4096 + b * 64 + c > 0x7FF && Utf8.IsScalar(a * 4096 + b * 64 + c)
    ensures Utf8.Encode(a * 4096 + b * 64 + c) == [224 + a, 128 + b, 128 + c]
  {
    var n := a * 4096 + b * 64 + c;
    assert n / 4096 == a && n / 64 % 64 == b && n % 64 == c;
  }

  lemma FourByteForm(a: nat, b: nat, c: nat, d: nat)
    requires a < 8 && b < 64 && c < 64 && d < 64
    requires a * 262144 + b * 4096 + c * 64 + d > 0xFFFF && Utf8.IsScalar(a * 262144 + b * 4096 + c * 64 + d)
    ensures Utf8.Encode(a * 262144 + b * 4096 + c * 64 + d) == [240 + a, 128 + b, 128 + c, 128 + d]
  {
    hide *;
    var n := a * 262144 + b * 4096 + c * 64 + d;
    SixBits(a * 4096 + b * 64 + c, d);
    SixBits(a * 64 + b, c);
    SixBits(a, b);
    Quarters(n);
    FourBytes(n, n / 64, n / 4096);
  }

  lemma SixBits(high: nat, low: nat)
    requires low < 64
    ensures (high * 64 + low) / 64 == high && (high * 64 + low) % 64 == low
  {
  }

  lemma Quarters(n: nat)
    ensures n / 64 / 64 == n / 4096 && n / 4096 / 64 == n / 262144
  {
  }

  lemma FourBytes(n: nat, x: nat, y: nat)
    requires n > 0xFFFF && Utf8.IsScalar(n) && x == n / 64 && y == n / 4096
    ensures Utf8.Encode(n) == [240 + n / 262144, 128 + y % 64, 128 + x % 64, 128 + n % 64]
  {
    hide Utf8.CharLen;
  }

  /** A character is well-formed exactly if it is spelled as encoding spells some scalar
      value: no surrogates, no overlong forms, nothing beyond U+10FFFF. */
  lemma WellFormedExactly(s: bytes, n: nat)
    requires 0 < n <= |s|
    ensures Utf8.CharLen(s) == n <==> exists c: nat :: Utf8.IsScalar(c) && Utf8.Encode(c) == s[..n]
  {
    hide *;
    assert s == s[..n] + s[n..];
    if Utf8.CharLen(s) == n {
      Utf8.CodePointExact(s);
      assert Utf8.IsScalar(Utf8.CodePoint(s)) && Utf8.Encode(Utf8.CodePoint(s)) == s[..n];
    }
    if c: nat :| Utf8.IsScalar(c) && Utf8.Encode(c) == s[..n] {
      Utf8.CharLenPrefix(Utf8.Encode(c), s[n..]);
      assert Utf8.Encode(c) + s[n..] == s;
    }
  }

  /** Which numbers are characters. */
  lemma ScalarsExactly(c: nat)
    ensures Utf8.IsScalar(c) <==> c <= 0xD7FF || 0xE000 <= c <= 0x10FFFF
  {
  }

  // ----- JSON strings -----

  /** Which bytes are escaped, and how: the quote, the backslash and five control
      characters by a letter, the other control characters by their code in hex, nothing
      else. */
  lemma EscapesExactly(b: byte)
    ensures b < 0x20 || b == 0x22 || b == 0x5C || EscapeByte(b) == [b]
    ensures EscapeByte(0x22) == Ascii("\\\"") && EscapeByte(0x5C) == Ascii("\\\\")
    ensures EscapeByte(8) == Ascii("\\b") && EscapeByte(9) == Ascii("\\t") && EscapeByte(10) == Ascii("\\n")
    ensures EscapeByte(12) == Ascii("\\f") && EscapeByte(13) == Ascii("\\r")
    ensures b < 0x20 && b !in {8, 9, 10, 12, 13} ==> EscapeByte(b) == Ascii("\\u00") + TextEncodings.Hex([b])
  {
    assert TextEncodings.Hex([b]) == [HexDigit(b / 16), HexDigit(b % 16)] + TextEncodings.Hex([]);
    hide HexDigit;
  }

  /** `\u` and the four hex digits of a 16-bit code unit. */
  function UnitEscape(u: nat): (s: bytes)
    requires u <= 0xFFFF
    ensures |s| == 6
  {
    Ascii("\\u") + TextEncodings.Hex(BigEndian(u, 2))
  }

  lemma UnitEscapeReads(u: nat, rest: bytes)
    requires u <= 0xFFFF
    ensures StartsUnit(UnitEscape(u) + rest) && CodeUnit(UnitEscape(u) + rest) == u
    ensures (UnitEscape(u) + rest)[6..] == rest
  {
    var s := UnitEscape(u) + rest;
    UnitDigits(u);
    hide HexValue, TextEncodings.Hex, BigEndian;
    assert s[..6] == UnitEscape(u);
  }

  lemma UnitDigits(u: nat)
    requires u <= 0xFFFF
    ensures var s := UnitEscape(u);
            && s[0] == 0x5C && s[1] == 0x75
            && HexValue(s[2]) * 4096 + HexValue(s[3]) * 256 + HexValue(s[4]) * 16 + HexValue(s[5]) == u
  {
    var b := BigEndian(u, 2);
    TwoBytes(u);
    hide BigEndian;
    HexAt(b, 0);
    HexAt(b, 1);
    HexDigits(b[0] / 16);
    HexDigits(b[0] % 16);
    HexDigits(b[1] / 16);
    HexDigits(b[1] % 16);
    hide HexValue, TextEncodings.Hex;
    var s := UnitEscape(u);
    assert Ascii("\\u") == [0x5C, 0x75];
    assert s[2..] == TextEncodings.Hex(b);
    assert s[2] == s[2..][0] && s[3] == s[2..][1] && s[4] == s[2..][2] && s[5] == s[2..][3];
  }

  lemma TwoBytes(u: nat)
    requires u <= 0xFFFF
    ensures |BigEndian(u, 2)| == 2 && BigEndian(u, 2)[0] as int * 256 + BigEndian(u, 2)[1] as int == u
  {
    BigEndianAt(u, 2, 0);
    BigEndianAt(u, 2, 1);
    assert Pow256(1) == 256 && Pow256(0) == 1;
  }

  lemma {:induction false} DecodedUnit(raw: bytes)
    requires StartsUnit(raw) && !StartsPair(raw)
    ensures Decoded(raw) ==
            (if Utf8.IsScalar(CodeUnit(raw)) then Utf8.Encode(CodeUnit(raw)) else Utf8.REPLACEMENT) + Decoded(raw[6..])
  {
    hide CodeUnit, Utf8.Encode;
  }

  lemma {:induction false} DecodedPair(raw: bytes)
    requires StartsPair(raw)
    ensures Decoded(raw) ==
            Utf8.Encode(0x1_0000 + (CodeUnit(raw) - 0xD800) * 0x400 + (CodeUnit(raw[6..]) - 0xDC00))
            + Decoded(raw[12..])
  {
    hide CodeUnit, Utf8.Encode;
  }

  /** Reading an escaped 16-bit character gives that character. */
  lemma EscapedCharacter(c: nat, rest: bytes)
    requires Utf8.IsScalar(c) && c <= 0xFFFF
    ensures Decoded(UnitEscape(c) + rest) == Utf8.Encode(c) + Decoded(rest)
  {
    UnitEscapeReads(c, rest);
    hide CodeUnit, UnitEscape, Utf8.Encode;
    DecodedUnit(UnitEscape(c) + rest);
  }

  /** Reading an escaped surrogate pair gives the one character the pair stands for. */
  lemma EscapedPair(c: nat, rest: bytes)
    requires Utf8.IsScalar(c) && c > 0xFFFF
    ensures var d := c - 0x1_0000;
            Decoded(UnitEscape(0xD800 + d / 0x400) + (UnitEscape(0xDC00 + d % 0x400) + rest)) ==
            Utf8.Encode(c) + Decoded(rest)
  {
    var d := c - 0x1_0000;
    SurrogatesOf(c);
    PairReads(0xD800 + d / 0x400, 0xDC00 + d % 0x400, rest, c);
  }

  lemma SurrogatesOf(c: nat)
    requires 0xFFFF < c <= 0x10FFFF
    ensures var d := c - 0x1_0000;
            && d / 0x400 < 0x400 && d % 0x400 < 0x400 && d / 0x400 * 0x400 + d % 0x400 == d
  {
  }

  lemma PairReads(high: nat, low: nat, rest: bytes, c: nat)
    requires 0xD800 <= high < 0xDC00 <= low < 0xE000 && c == 0x1_0000 + (high - 0xD800) * 0x400 + (low - 0xDC00)
    requires Utf8.IsScalar(c)
    ensures Decoded(UnitEscape(high) + (UnitEscape(low) + rest)) == Utf8.Encode(c) + Decoded(rest)
  {
    var tail := UnitEscape(low) + rest;
    var raw := UnitEscape(high) + tail;
    UnitEscapeReads(high, tail);
    UnitEscapeReads(low, rest);
    hide CodeUnit, UnitEscape, Utf8.Encode, StartsUnit, Decoded;
    assert raw[6..] == tail && raw[12..] == tail[6..] == rest;
    DecodedPair(raw);
  }

  /** A surrogate without its partner is replaced. */
  lemma EscapedSurrogate(u: nat, rest: bytes)
    requires 0xD800 <= u <= 0xDFFF
    requires u >= 0xDC00 || !StartsUnit(rest) || !(0xDC00 <= CodeUnit(rest) <= 0xDFFF)
    ensures Decoded(UnitEscape(u) + rest) == [0xEF, 0xBF, 0xBD] + Decoded(rest)
  {
    UnitEscapeReads(u, rest);
    hide CodeUnit, UnitEscape, Utf8.Encode;
    DecodedUnit(UnitEscape(u) + rest);
  }

  /** What the eight escapes by a letter or sign stand for. */
  const SIGNS: bytes := [0x22, 0x5C, 0x2F, 8, 12, 10, 13, 9]

  lemma {:induction false} EscapedSigns(k: nat, rest: bytes)
    requires k < 8
    ensures Decoded([0x5C, Ascii("\"\\/bfnrt")[k]] + rest) ==
            [SIGNS[k]] + Decoded(rest)
  {
    var raw: bytes := [0x5C, Ascii("\"\\/bfnrt")[k]] + rest;
    assert raw[2..] == rest;
  }

  /** What is not escaped is read as it stands. */
  lemma {:induction false} PlainCharacter(c: nat, rest: bytes)
    requires Utf8.IsScalar(c) && c != 0x5C
    ensures Decoded(Utf8.Encode(c) + rest) == Utf8.Encode(c) + Decoded(rest)
  {
    var raw := Utf8.Encode(c) + rest;
    Utf8.CharLenPrefix(Utf8.Encode(c), rest);
    assert raw[..|Utf8.Encode(c)|] == Utf8.Encode(c) && raw[|Utf8.Encode(c)|..] == rest;
    assert raw[0] == Utf8.Encode(c)[0] != 0x5C;
    hide Utf8.CharLen, Utf8.Encode;
  }

  /** A byte that belongs to no character is replaced, each on its own. */
  lemma {:induction false} StrayByte(raw: bytes)
    requires raw != [] && raw[0] != 0x5C && forall n, c: nat ::
               0 < n <= |raw| && Utf8.IsScalar(c) ==> Utf8.Encode(c) != raw[..n]
    ensures Decoded(raw) == [0xEF, 0xBF, 0xBD] + Decoded(raw[1..])
  {
    hide Utf8.CharLen, Utf8.Encode, Utf8.IsScalar;
    var n := Utf8.CharLen(raw);
    if n > 0 { WellFormedExactly(raw, n); }
  }

  // ----- CBOR heads -----

  /** The additional information of a head (RFC 8949 section 3): the argument itself, or
      the code of its width, or of indefinite length. */
  function Information(f: CborSyntax.Form, arg: nat): nat {
    match f
    case Tiny => arg
    case One => 24
    case Two => 25
    case Four => 26
    case Eight => 27
    case Open => 31
  }

  /** A head is three bits of major type, five of additional information, and the argument
      in as many big-endian bytes as those say. */
  lemma HeadLayout(major: nat, f: CborSyntax.Form, arg: CborSyntax.uint64)
    requires major < 8 && CborSyntax.Fits(f, arg)
    ensures var b := CborSyntax.HeadBytes(major, f, arg);
            && b[0] as int == 32 * major + Information(f, arg)
            && |b| == (match f case One => 2 case Two => 3 case Four => 5 case Eight => 9 case _ => 1)
            && forall k :: 1 <= k < |b| ==> b[k] as int == arg / Pow256(|b| - 1 - k) % 256
  {
    hide CborSyntax.Fits;
    var b, len := CborSyntax.HeadBytes(major, f, arg), CborSyntax.ArgLen(f);
    forall k | 1 <= k < |b| ensures b[k] as int == arg / Pow256(|b| - 1 - k) % 256 {
      BigEndianAt(arg, len, k - 1);
    }
  }

  /** The marker in front of a bundle is the head of tag 55799. */
  lemma MarkerIsTag()
    ensures CborSyntax.Fits(CborSyntax.Two, 55799)
    ensures BundleDecode.SELF_DESCRIBED == CborSyntax.HeadBytes(6, CborSyntax.Two, 55799)
  {
    BigEndianAt(55799, 2, 0);
    BigEndianAt(55799, 2, 1);
    assert Pow256(1) == 256 && Pow256(0) == 1;
  }

  /** The encoder's heads are the shortest there are for their arguments. */
  lemma ShortestExactly(arg: CborSyntax.uint64, g: CborSyntax.Form)
    requires CborSyntax.Fits(g, arg) && g != CborSyntax.Open
    ensures var f := BundleEncode.Shortest(arg);
            && f != CborSyntax.Open && CborSyntax.Fits(f, arg) && CborSyntax.ArgLen(f) <= CborSyntax.ArgLen(g)
            && (CborSyntax.ArgLen(f) == CborSyntax.ArgLen(g) ==> f == g)
  {
  }

  lemma {:induction false} ChunksEnd(text: bool, chunks: seq<CborSyntax.Chunk>)
    requires CborSyntax.ChunksWellFormed(chunks)
    ensures var b := CborSyntax.ChunksBytes(text, chunks); b != [] && b[|b| - 1] == 0xFF
  {
    if chunks != [] { ChunksEnd(text, chunks[1..]); }
  }

  lemma {:induction false} ItemsEnd(items: seq<CborSyntax.Item>)
    requires CborSyntax.ItemsWellFormed(items)
    ensures var b := CborSyntax.ItemsBytes(items, true); b != [] && b[|b| - 1] == 0xFF
  {
    hide CborSyntax.Serial, CborSyntax.WellFormed;
    if items != [] { ItemsEnd(items[1..]); }
  }

  /** The major type of every kind of item. */
  lemma ItemStarts(i: CborSyntax.Item)
    requires CborSyntax.WellFormed(i)
    ensures CborSyntax.Serial(i) != []
    ensures CborSyntax.Serial(i)[0] / 32 == match i
                                            case Number(negative, _, _) => if negative then 1 else 0
                                            case Whole(text, _, _) => if text then 3 else 2
                                            case Chunked(text, _) => if text then 3 else 2
                                            case List(_, _) => 4
                                            case Table(_, _) => 5
                                            case Tag(_, _, _) => 6
                                            case _ => 7
  {
    hide CborSyntax.BodyBytes;
  }

  /** What is of indefinite length ends with the break byte. */
  lemma ItemEnds(i: CborSyntax.Item)
    requires CborSyntax.WellFormed(i)
    requires i.Chunked? || ((i.List? || i.Table?) && i.form == CborSyntax.Open)
    ensures var b := CborSyntax.Serial(i); b != [] && b[|b| - 1] == 0xFF
  {
    hide CborSyntax.HeadBytes;
    match i
    case Chunked(text, chunks) => ChunksEnd(text, chunks);
    case List(_, items) => ItemsEnd(items);
    case Table(_, items) => ItemsEnd(items);
    case _ =>
  }

  // ----- Doubles -----

  /** A double is infinite or not a number if its exponent bits are all ones: the bit
      patterns from 7FF0000000000000 up, with either sign. */
  lemma FiniteExactly(x: CborSyntax.uint64)
    ensures BundleValue.Finite(x) <==>
            x < 0x7FF0_0000_0000_0000 || 0x8000_0000_0000_0000 <= x < 0xFFF0_0000_0000_0000
  {
  }
}
