/**
 Whole texts stated apart from the functions that scan them: which bytes are UTF-8, what
 the repair writes, and which texts are base64.
 */
module StandardText {
  import opened Bytes
  import StandardForms
  import TextEncodings
  import Utf8

  // ----- UTF-8 -----

  /** The characters of a UTF-8 string. */
  function CodePoints(s: bytes): seq<int> {
    var n := Utf8.CharLen(s);
    if n == 0 then [] else [Utf8.CodePoint(s)] + CodePoints(s[n..])
  }

  predicate AllScalars(cs: seq<int>) {
    forall k :: 0 <= k < |cs| ==> cs[k] >= 0 && Utf8.IsScalar(cs[k])
  }

  /** The characters written one after another. */
  function Spelled(cs: seq<int>): bytes
    requires AllScalars(cs)
  {
    if cs == [] then [] else Utf8.Encode(cs[0]) + Spelled(cs[1..])
  }

  lemma NoPoints()
    ensures CodePoints([]) == []
  {
  }

  lemma PointsStep(s: bytes)
    requires Utf8.CharLen(s) > 0
    ensures CodePoints(s) == [Utf8.CodePoint(s)] + CodePoints(s[Utf8.CharLen(s)..])
  {
  }

  lemma SpelledStep(c: nat, cs: seq<int>)
    requires Utf8.IsScalar(c) && AllScalars(cs)
    ensures AllScalars([c] + cs) && Spelled([c] + cs) == Utf8.Encode(c) + Spelled(cs)
  {
    assert ([c] + cs)[1..] == cs;
  }

  lemma NothingSpelled()
    ensures AllScalars([]) && Spelled([]) == []
  {
  }

  /** The characters of a UTF-8 string are scalar values that spell it. */
  lemma {:induction false} PointsSpell(s: bytes)
    requires Utf8.Valid(s)
    ensures AllScalars(CodePoints(s)) && s == Spelled(CodePoints(s))
    decreases |s|
  {
    hide *;
    if s == [] {
      NoPoints();
      NothingSpelled();
    } else {
      FirstValid(s);
      var n := Utf8.CharLen(s);
      Utf8.CodePointExact(s);
      PointsSpell(s[n..]);
      PointsStep(s);
      SpelledStep(Utf8.CodePoint(s), CodePoints(s[n..]));
      assert s == s[..n] + s[n..];
    }
  }

  lemma FirstValid(s: bytes)
    requires Utf8.Valid(s) && s != []
    ensures Utf8.CharLen(s) > 0 && Utf8.Valid(s[Utf8.CharLen(s)..])
  {
  }

  lemma {:induction false} SpelledIsValid(cs: seq<int>)
    requires AllScalars(cs)
    ensures Utf8.Valid(Spelled(cs))
  {
    if cs != [] {
      SpelledIsValid(cs[1..]);
      Utf8.ValidChar(Utf8.Encode(cs[0]));
      Utf8.ValidConcat(Utf8.Encode(cs[0]), Spelled(cs[1..]));
      hide Utf8.Encode, Utf8.Valid;
    }
  }

  /** UTF-8 is exactly what scalar values spell. */
  lemma ValidExactly(s: bytes)
    ensures Utf8.Valid(s) <==> exists cs :: AllScalars(cs) && s == Spelled(cs)
  {
    hide *;
    if Utf8.Valid(s) { PointsSpell(s); }
    forall cs | AllScalars(cs) && s == Spelled(cs) ensures Utf8.Valid(s) {
      SpelledIsValid(cs);
    }
  }

  // ----- Repair -----

  /** No character starts in `bad`, whatever `rest` follows it, and one starts right after,
      if anything does. */
  ghost predicate IsRun(bad: bytes, rest: bytes) {
    && bad != []
    && (forall k :: 0 <= k < |bad| ==> Utf8.CharLen(bad[k..] + rest) == 0)
    && (rest == [] || Utf8.CharLen(rest) > 0)
  }

  lemma {:induction false} InsideRun(bad: bytes, rest: bytes)
    requires bad == [] || IsRun(bad, rest)
    requires rest == [] || Utf8.CharLen(rest) > 0
    ensures Utf8.Repaired(bad + rest, true) == Utf8.Repaired(rest, false)
  {
    hide Utf8.CharLen;
    if bad == [] {
      assert bad + rest == rest;
    } else {
      assert bad[0..] == bad;
      var more := bad[1..];
      assert (bad + rest)[1..] == more + rest;
      assert forall k :: 0 <= k < |more| ==> more[k..] == bad[k + 1..];
      InsideRun(more, rest);
      assert [] + Utf8.Repaired(more + rest, true) == Utf8.Repaired(more + rest, true);
    }
  }

  /** A run of bytes that are no part of a character becomes one U+FFFD. */
  lemma {:induction false} RunRepaired(bad: bytes, rest: bytes)
    requires IsRun(bad, rest)
    ensures Utf8.Repaired(bad + rest, false) == [0xEF, 0xBF, 0xBD] + Utf8.Repaired(rest, false)
  {
    hide Utf8.CharLen;
    assert bad[0..] == bad;
    var more := bad[1..];
    assert (bad + rest)[1..] == more + rest;
    assert forall k :: 0 <= k < |more| ==> more[k..] == bad[k + 1..];
    InsideRun(more, rest);
  }

  /** Characters are kept. */
  lemma {:induction false} CharacterKept(c: nat, rest: bytes)
    requires Utf8.IsScalar(c)
    ensures Utf8.Repaired(Utf8.Encode(c) + rest, false) == Utf8.Encode(c) + Utf8.Repaired(rest, false)
  {
    var e := Utf8.Encode(c);
    Utf8.CharLenPrefix(e, rest);
    assert (e + rest)[..|e|] == e && (e + rest)[|e|..] == rest;
    hide Utf8.CharLen, Utf8.Encode;
  }

  // ----- Base64 -----

  /** Letters of the alphabet in groups of four, of which the last may end in one or two
      equals signs. */
  ghost predicate IsBase64(s: bytes, padding: nat) {
    && |s| % 4 == 0 && padding <= 2 && padding <= |s|
    && (forall k :: 0 <= k < |s| - padding ==> s[k] in StandardForms.Alphabet())
    && forall k :: |s| - padding <= k < |s| ==> s[k] == 0x3D
  }

  lemma LettersExactly(c: byte)
    ensures TextEncodings.IsLetter(c) <==> c in StandardForms.Alphabet()
    ensures c in StandardForms.Alphabet() ==> c != 0x3D
  {
    hide StandardForms.Alphabet;
    if TextEncodings.IsLetter(c) {
      StandardForms.LetterIsAlphabet(TextEncodings.LetterValue(c));
    }
    forall n: nat | n < 64 ensures TextEncodings.IsLetter(StandardForms.Alphabet()[n]) {
      StandardForms.LetterIsAlphabet(n);
      TextEncodings.LetterRoundTrip(n);
    }
    hide TextEncodings.LetterValue;
  }

  /** Which texts are read as base64, line breaks aside, and to how many bytes. */
  lemma {:induction false} UngroupedExactly(s: bytes)
    ensures TextEncodings.Ungrouped(s).Some? <==> exists padding: nat :: IsBase64(s, padding)
    ensures forall padding: nat :: IsBase64(s, padding) && TextEncodings.Ungrouped(s).Some? ==>
              |TextEncodings.Ungrouped(s).value| == |s| / 4 * 3 - padding
    decreases |s|
  {
    hide *;
    if s == [] {
      NoGroups();
    } else if |s| < 4 {
      ShortText(s);
    } else if |s| == 4 {
      LastGroup(s);
    } else {
      UngroupedExactly(s[4..]);
      FirstGroup(s);
    }
  }

  lemma NoGroups()
    ensures TextEncodings.Ungrouped([]) == Some([]) && IsBase64([], 0)
    ensures forall padding: nat :: IsBase64([], padding) ==> padding == 0
  {
  }

  lemma ShortText(s: bytes)
    requires 0 < |s| < 4
    ensures TextEncodings.Ungrouped(s).None? && forall padding: nat :: !IsBase64(s, padding)
  {
  }

  lemma {:induction false} LastGroup(s: bytes)
    requires |s| == 4
    ensures TextEncodings.Ungrouped(s).Some? <==> exists padding: nat :: IsBase64(s, padding)
    ensures forall padding: nat :: IsBase64(s, padding) && TextEncodings.Ungrouped(s).Some? ==>
              |TextEncodings.Ungrouped(s).value| == 3 - padding
  {
    hide StandardForms.Alphabet, TextEncodings.IsLetter, TextEncodings.LetterValue;
    LettersExactly(s[0]);
    LettersExactly(s[1]);
    LettersExactly(s[2]);
    LettersExactly(s[3]);
    assert s[4..] == [];
    if TextEncodings.Ungrouped(s).Some? {
      var padding: nat := if s[2] == 0x3D then 2 else if s[3] == 0x3D then 1 else 0;
      assert s[0] in StandardForms.Alphabet() && s[1] in StandardForms.Alphabet();
      assert padding <= 1 ==> s[2] in StandardForms.Alphabet();
      assert padding == 0 ==> s[3] in StandardForms.Alphabet();
      assert IsBase64(s, padding);
    }
  }

  lemma {:induction false} FirstGroup(s: bytes)
    requires |s| > 4
    requires TextEncodings.Ungrouped(s[4..]).Some? <==> exists padding: nat :: IsBase64(s[4..], padding)
    requires forall padding: nat :: IsBase64(s[4..], padding) && TextEncodings.Ungrouped(s[4..]).Some? ==>
               |TextEncodings.Ungrouped(s[4..]).value| == |s[4..]| / 4 * 3 - padding
    ensures TextEncodings.Ungrouped(s).Some? <==> exists padding: nat :: IsBase64(s, padding)
    ensures forall padding: nat :: IsBase64(s, padding) && TextEncodings.Ungrouped(s).Some? ==>
              |TextEncodings.Ungrouped(s).value| == |s| / 4 * 3 - padding
  {
    GroupUngrouped(s);
    forall padding: nat ensures IsBase64(s, padding) <==>
      TextEncodings.IsLetter(s[0]) && TextEncodings.IsLetter(s[1]) && TextEncodings.IsLetter(s[2])
      && TextEncodings.IsLetter(s[3]) && IsBase64(s[4..], padding)
    {
      GroupsSplit(s, padding);
    }
    hide IsBase64, TextEncodings.Ungrouped, TextEncodings.IsLetter;
  }

  lemma {:induction false} GroupUngrouped(s: bytes)
    requires |s| > 4
    ensures TextEncodings.Ungrouped(s).Some? <==>
            TextEncodings.IsLetter(s[0]) && TextEncodings.IsLetter(s[1]) && TextEncodings.IsLetter(s[2])
            && TextEncodings.IsLetter(s[3]) && TextEncodings.Ungrouped(s[4..]).Some?
    ensures TextEncodings.Ungrouped(s).Some? ==>
              |TextEncodings.Ungrouped(s).value| == 3 + |TextEncodings.Ungrouped(s[4..]).value|
  {
    hide TextEncodings.IsLetter, TextEncodings.LetterValue;
    PadIsNoLetter();
  }

  lemma PadIsNoLetter()
    ensures !TextEncodings.IsLetter(0x3D)
  {
  }

  lemma GroupsSplit(s: bytes, padding: nat)
    requires |s| > 4
    ensures IsBase64(s, padding) <==>
            TextEncodings.IsLetter(s[0]) && TextEncodings.IsLetter(s[1]) && TextEncodings.IsLetter(s[2])
            && TextEncodings.IsLetter(s[3]) && IsBase64(s[4..], padding)
  {
    hide StandardForms.Alphabet, TextEncodings.IsLetter;
    LettersExactly(s[0]);
    LettersExactly(s[1]);
    LettersExactly(s[2]);
    LettersExactly(s[3]);
    assert forall k :: 0 <= k < |s[4..]| ==> s[4..][k] == s[k + 4];
    assert forall k :: 4 <= k < |s| ==> s[k] == s[4..][k - 4];
  }

  /** A letter of the alphabet counts for its place. */
  lemma LetterReads(n: nat)
    requires n < 64
    ensures TextEncodings.IsLetter(StandardForms.Alphabet()[n])
    ensures TextEncodings.LetterValue(StandardForms.Alphabet()[n]) == n && StandardForms.Alphabet()[n] != 0x3D
  {
    hide StandardForms.Alphabet;
    StandardForms.LetterIsAlphabet(n);
    TextEncodings.LetterRoundTrip(n);
    PadIsNoLetter();
    hide TextEncodings.LetterValue, TextEncodings.Letter;
  }

  lemma {:induction false} WholeGroup(s: bytes, a: nat, b: nat, c: nat, d: nat)
    requires |s| >= 4 && s[3] != 0x3D && s[2] != 0x3D && forall k :: 0 <= k < 4 ==> TextEncodings.IsLetter(s[k])
    requires a == TextEncodings.LetterValue(s[0]) && b == TextEncodings.LetterValue(s[1])
    requires c == TextEncodings.LetterValue(s[2]) && d == TextEncodings.LetterValue(s[3])
    ensures TextEncodings.Ungrouped(s) ==
            match TextEncodings.Ungrouped(s[4..])
            case None => None
            case Some(more) => Some([a * 4 + b / 16, b % 16 * 16 + c / 4, c % 4 * 64 + d] + more)
  {
    hide TextEncodings.IsLetter, TextEncodings.LetterValue;
  }

  lemma {:induction false} PaddedGroup(s: bytes, a: nat, b: nat, c: nat)
    requires |s| == 4 && s[3] == 0x3D && TextEncodings.IsLetter(s[0]) && TextEncodings.IsLetter(s[1])
    requires a == TextEncodings.LetterValue(s[0]) && b == TextEncodings.LetterValue(s[1])
    ensures s[2] == 0x3D ==> TextEncodings.Ungrouped(s) == Some([a * 4 + b / 16])
    ensures s[2] != 0x3D && TextEncodings.IsLetter(s[2]) && c == TextEncodings.LetterValue(s[2]) ==>
              TextEncodings.Ungrouped(s) == Some([a * 4 + b / 16, b % 16 * 16 + c / 4])
  {
    hide TextEncodings.IsLetter, TextEncodings.LetterValue;
  }

  /** Four letters are three bytes, as numbers in base 64 and 256. */
  lemma GroupReads(a: nat, b: nat, c: nat, d: nat, x: byte, y: byte, z: byte, rest: bytes)
    requires a < 64 && b < 64 && c < 64 && d < 64
    requires a * 0x4_0000 + b * 0x1000 + c * 0x40 + d == x as int * 0x1_0000 + y as int * 0x100 + z as int
    ensures var alphabet := StandardForms.Alphabet();
            TextEncodings.Ungrouped([alphabet[a], alphabet[b], alphabet[c], alphabet[d]] + rest) ==
            match TextEncodings.Ungrouped(rest) case None => None case Some(more) => Some([x, y, z] + more)
  {
    hide *;
    LetterReads(a);
    LetterReads(b);
    LetterReads(c);
    LetterReads(d);
    SplitGroup(a, b, c, d, x, y, z);
    var alphabet := StandardForms.Alphabet();
    var s := [alphabet[a], alphabet[b], alphabet[c], alphabet[d]] + rest;
    assert s[0] == alphabet[a] && s[1] == alphabet[b] && s[2] == alphabet[c] && s[3] == alphabet[d];
    assert s[4..] == rest;
    WholeGroup(s, a, b, c, d);
  }

  lemma SplitGroup(a: nat, b: nat, c: nat, d: nat, x: byte, y: byte, z: byte)
    requires a < 64 && b < 64 && c < 64 && d < 64
    requires a * 0x4_0000 + b * 0x1000 + c * 0x40 + d == x as int * 0x1_0000 + y as int * 0x100 + z as int
    ensures x as int == a * 4 + b / 16 && y as int == b % 16 * 16 + c / 4 && z as int == c % 4 * 64 + d
  {
  }

  /** Two letters before the padding are one byte and three are two; the bits left over do
      not count. */
  lemma PaddedReads(a: nat, b: nat, c: nat)
    requires a < 64 && b < 64 && c < 64
    ensures var alphabet := StandardForms.Alphabet();
            && TextEncodings.Ungrouped([alphabet[a], alphabet[b], 0x3D, 0x3D]) == Some([(a * 64 + b) / 16])
            && TextEncodings.Ungrouped([alphabet[a], alphabet[b], alphabet[c], 0x3D]) ==
               Some([(a * 4096 + b * 64 + c) / 4 / 256, (a * 4096 + b * 64 + c) / 4 % 256])
  {
    hide *;
    LetterReads(a);
    LetterReads(b);
    LetterReads(c);
    var alphabet := StandardForms.Alphabet();
    PaddedGroup([alphabet[a], alphabet[b], 0x3D, 0x3D], a, b, c);
    PaddedGroup([alphabet[a], alphabet[b], alphabet[c], 0x3D], a, b, c);
    SplitPadded(a, b, c);
  }

  lemma SplitPadded(a: nat, b: nat, c: nat)
    requires a < 64 && b < 64 && c < 64
    ensures (a * 64 + b) / 16 == a * 4 + b / 16
    ensures (a * 4096 + b * 64 + c) / 4 / 256 == a * 4 + b / 16
    ensures (a * 4096 + b * 64 + c) / 4 % 256 == b % 16 * 16 + c / 4
  {
  }

  /** Line breaks, and nothing else, are skipped. */
  lemma {:induction false} NewlinesSkipped(a: bytes, c: byte, b: bytes)
    ensures TextEncodings.WithoutNewlines(a + ([c] + b)) ==
            TextEncodings.WithoutNewlines(a) + ((if c == 10 || c == 13 then [] else [c])
                                                + TextEncodings.WithoutNewlines(b))
    ensures TextEncodings.WithoutNewlines([]) == []
  {
    if a == [] {
      assert a + ([c] + b) == [c] + b && ([c] + b)[1..] == b;
    } else {
      assert (a + ([c] + b))[1..] == a[1..] + ([c] + b);
      NewlinesSkipped(a[1..], c, b);
    }
  }
}
