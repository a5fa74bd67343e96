/**
 Which strings the canonicalizer accepts (RFC 8785 section 3.2.2.2): those that spell
 characters, plainly or escaped, and no lone surrogate or stray byte.
 */
module JcsIntact {
  import opened Bytes
  import opened JsonText
  import opened JsonTree
  import opened JcsCanonicalize
  import opened StandardText
  import StandardForms
  import Utf8

  /** `p` spells character `c`: as itself, by one of the eight short escapes, by its code
      in hex, or by the codes of its surrogate pair. */
  predicate SpellsOne(p: bytes, c: nat)
    requires Utf8.IsScalar(c)
  {
    || (c >= 0x20 && c != 0x22 && c != 0x5C && p == Utf8.Encode(c))
    || (|p| == 2 && p[0] == 0x5C && IsShortEscape(p[1]) && c == ShortEscape(p[1]))
    || (|p| == 6 && StartsUnit(p) && CodeUnit(p) == c)
    || (|p| == 12 && StartsPair(p) && c == 0x1_0000 + (CodeUnit(p) - 0xD800) * 0x400 + (CodeUnit(p[6..]) - 0xDC00))
  }

  /** `raw` spells the characters `cs`, one after another. */
  ghost predicate Spells(raw: bytes, cs: seq<int>)
    requires AllScalars(cs)
    decreases |cs|
  {
    if cs == [] then raw == []
    else exists n: nat :: n <= |raw| && SpellsOne(raw[..n], cs[0]) && Spells(raw[n..], cs[1..])
  }

  lemma UnitPrefix(p: bytes, rest: bytes)
    requires StartsUnit(p)
    ensures StartsUnit(p + rest) && CodeUnit(p + rest) == CodeUnit(p)
    ensures |p| >= 6 && p[..6] + (p + rest)[6..] == p + rest
  {
    hide HexValue;
  }

  /** The first character of what `raw` spells. */
  lemma {:induction false} FirstSpelled(p: bytes, c: nat, rest: bytes)
    requires Utf8.IsScalar(c) && SpellsOne(p, c)
    ensures p != [] && (IntactString(p + rest) <==> IntactString(rest))
    ensures Decoded(p + rest) == Utf8.Encode(c) + Decoded(rest)
  {
    hide *;
    if c >= 0x20 && c != 0x22 && c != 0x5C && p == Utf8.Encode(c) {
      PlainSpelled(c, rest);
    } else if |p| == 2 && p[0] == 0x5C && IsShortEscape(p[1]) && c == ShortEscape(p[1]) {
      SignSpelled(p, c, rest);
    } else if |p| == 6 && StartsUnit(p) && CodeUnit(p) == c {
      UnitSpelled(p, c, rest);
    } else {
      OnlyPairLeft(p, c);
      PairSpelled(p, c, rest);
    }
  }

  lemma OnlyPairLeft(p: bytes, c: nat)
    requires Utf8.IsScalar(c) && SpellsOne(p, c)
    requires !(c >= 0x20 && c != 0x22 && c != 0x5C && p == Utf8.Encode(c))
    requires !(|p| == 2 && p[0] == 0x5C && IsShortEscape(p[1]) && c == ShortEscape(p[1]))
    requires !(|p| == 6 && StartsUnit(p) && CodeUnit(p) == c)
    ensures |p| == 12 && StartsPair(p)
    ensures c == 0x1_0000 + (CodeUnit(p) - 0xD800) * 0x400 + (CodeUnit(p[6..]) - 0xDC00)
  {
  }

  lemma {:induction false} PlainSpelled(c: nat, rest: bytes)
    requires Utf8.IsScalar(c) && c != 0x5C
    ensures Utf8.Encode(c) != [] && (IntactString(Utf8.Encode(c) + rest) <==> IntactString(rest))
    ensures Decoded(Utf8.Encode(c) + rest) == Utf8.Encode(c) + Decoded(rest)
  {
    StandardForms.PlainCharacter(c, rest);
    var e := Utf8.Encode(c);
    Utf8.CharLenPrefix(e, rest);
    assert (e + rest)[|e|..] == rest && (e + rest)[0] == e[0] != 0x5C;
    hide Utf8.CharLen, Utf8.Encode, Decoded;
  }

  lemma {:induction false} SignSpelled(p: bytes, c: nat, rest: bytes)
    requires Utf8.IsScalar(c) && |p| == 2 && p[0] == 0x5C && IsShortEscape(p[1]) && c == ShortEscape(p[1])
    ensures IntactString(p + rest) <==> IntactString(rest)
    ensures Decoded(p + rest) == Utf8.Encode(c) + Decoded(rest)
  {
    var raw := p + rest;
    assert raw[2..] == rest && raw[0] == 0x5C && raw[1] == p[1] && !StartsUnit(raw);
    assert Utf8.Encode(c) == [ShortEscape(p[1])];
    hide Utf8.Encode;
  }

  lemma {:induction false} UnitSpelled(p: bytes, c: nat, rest: bytes)
    requires Utf8.IsScalar(c) && |p| == 6 && StartsUnit(p) && CodeUnit(p) == c
    ensures IntactString(p + rest) <==> IntactString(rest)
    ensures Decoded(p + rest) == Utf8.Encode(c) + Decoded(rest)
  {
    var raw := p + rest;
    UnitPrefix(p, rest);
    assert raw[6..] == rest;
    hide CodeUnit, Utf8.Encode;
    StandardForms.DecodedUnit(raw);
    hide Decoded;
  }

  lemma {:induction false} PairSpelled(p: bytes, c: nat, rest: bytes)
    requires Utf8.IsScalar(c) && |p| == 12 && StartsPair(p)
    requires c == 0x1_0000 + (CodeUnit(p) - 0xD800) * 0x400 + (CodeUnit(p[6..]) - 0xDC00)
    ensures IntactString(p + rest) <==> IntactString(rest)
    ensures Decoded(p + rest) == Utf8.Encode(c) + Decoded(rest)
  {
    var raw := p + rest;
    UnitPrefix(p, rest);
    UnitPrefix(p[6..], rest);
    assert raw[6..] == p[6..] + rest && raw[12..] == rest;
    hide CodeUnit, StartsUnit, Utf8.Encode;
    StandardForms.DecodedPair(raw);
    hide Decoded;
  }

  /** What spells characters is accepted, and is read as those characters. */
  lemma {:induction false} SpelledIsIntact(raw: bytes, cs: seq<int>)
    requires AllScalars(cs) && Spells(raw, cs)
    ensures IntactString(raw) && Decoded(raw) == Spelled(cs)
    decreases |cs|
  {
    hide *;
    if cs == [] {
      NothingSpelt(raw);
    } else {
      var n := SpeltFirst(raw, cs);
      SpelledIsIntact(raw[n..], cs[1..]);
      FirstSpelled(raw[..n], cs[0], raw[n..]);
      assert raw == raw[..n] + raw[n..];
      SpelledStep(cs[0], cs[1..]);
      assert cs == [cs[0]] + cs[1..];
    }
  }

  lemma SpeltFirst(raw: bytes, cs: seq<int>) returns (n: nat)
    requires AllScalars(cs) && cs != [] && Spells(raw, cs)
    ensures n <= |raw| && cs[0] >= 0 && Utf8.IsScalar(cs[0]) && SpellsOne(raw[..n], cs[0])
    ensures AllScalars(cs[1..]) && Spells(raw[n..], cs[1..])
  {
    hide SpellsOne;
    var k: nat :| k <= |raw| && SpellsOne(raw[..k], cs[0]) && Spells(raw[k..], cs[1..]);
    n := k;
  }

  lemma NothingSpelt(raw: bytes)
    requires AllScalars([]) && Spells(raw, [])
    ensures IntactString(raw) && Decoded(raw) == Spelled([])
  {
  }

  /** The characters an accepted string spells. */
  lemma {:induction false} IntactSpells(raw: bytes) returns (cs: seq<int>)
    requires WellSpelled(raw) && IntactString(raw)
    ensures AllScalars(cs) && Spells(raw, cs)
    decreases |raw|
  {
    hide *;
    if raw == [] {
      cs := [];
      NothingSpells();
    } else {
      var n, c := FirstIntact(raw);
      var more := IntactSpells(raw[n..]);
      cs := [c] + more;
      ConsSpells(raw, n, c, more);
    }
  }

  lemma NothingSpells()
    ensures AllScalars([]) && Spells([], [])
  {
  }

  lemma ConsSpells(raw: bytes, n: nat, c: nat, more: seq<int>)
    requires n <= |raw| && Utf8.IsScalar(c) && SpellsOne(raw[..n], c) && AllScalars(more) && Spells(raw[n..], more)
    ensures AllScalars([c] + more) && Spells(raw, [c] + more)
  {
    hide SpellsOne;
    assert ([c] + more)[1..] == more && ([c] + more)[0] == c;
  }

  lemma {:induction false} FirstIntact(raw: bytes) returns (n: nat, c: nat)
    requires raw != [] && WellSpelled(raw) && IntactString(raw)
    ensures 0 < n <= |raw| && Utf8.IsScalar(c) && SpellsOne(raw[..n], c)
    ensures WellSpelled(raw[n..]) && IntactString(raw[n..])
  {
    hide *;
    if raw[0] != BACKSLASH {
      n, c := FirstPlain(raw);
    } else if StartsPair(raw) {
      n, c := FirstPair(raw);
    } else if StartsUnit(raw) {
      n, c := FirstUnit(raw);
    } else {
      n, c := FirstSign(raw);
    }
  }

  lemma {:induction false} FirstPlain(raw: bytes) returns (n: nat, c: nat)
    requires raw != [] && raw[0] != BACKSLASH && WellSpelled(raw) && IntactString(raw)
    ensures 0 < n <= |raw| && Utf8.IsScalar(c) && SpellsOne(raw[..n], c)
    ensures WellSpelled(raw[n..]) && IntactString(raw[n..])
  {
    n, c := Utf8.CharLen(raw), Utf8.CodePoint(raw);
    Utf8.CodePointExact(raw);
    PlainRange(raw);
    PlainAfter(raw, n);
    hide WellSpelled, Utf8.CharLen, Utf8.CodePoint, Utf8.Encode;
  }

  lemma PlainRange(raw: bytes)
    requires Utf8.CharLen(raw) > 0 && raw[0] >= 0x20 && raw[0] != QUOTE && raw[0] != BACKSLASH
    ensures Utf8.CodePoint(raw) >= 0x20 && Utf8.CodePoint(raw) != 0x22 && Utf8.CodePoint(raw) != 0x5C
  {
    hide Utf8.CharLen;
    Utf8.CodePointExact(raw);
    if Utf8.CharLen(raw) == 1 { assert raw[..1] == [raw[0]]; }
  }

  ghost predicate AllPlain(s: bytes) {
    forall i :: 0 <= i < |s| ==> s[i] >= 0x20 && s[i] != QUOTE && s[i] != BACKSLASH
  }

  lemma {:induction false} SkipPlain(plain: bytes, raw: bytes)
    requires AllPlain(plain) && WellSpelled(plain + raw)
    ensures WellSpelled(raw)
  {
    hide *;
    if plain == [] {
      assert plain + raw == raw;
    } else {
      FirstIsPlain(plain);
      PlainStep(plain + raw);
      assert (plain + raw)[1..] == plain[1..] + raw;
      SkipPlain(plain[1..], raw);
    }
  }

  lemma FirstIsPlain(plain: bytes)
    requires AllPlain(plain) && plain != []
    ensures plain[0] >= 0x20 && plain[0] != QUOTE && plain[0] != BACKSLASH && AllPlain(plain[1..])
  {
  }

  lemma PlainStep(raw: bytes)
    requires WellSpelled(raw) && raw != [] && raw[0] >= 0x20 && raw[0] != QUOTE && raw[0] != BACKSLASH
    ensures WellSpelled(raw[1..])
  {
    assert SpellLen(raw) == 1;
  }

  lemma PlainBytes(raw: bytes)
    requires Utf8.CharLen(raw) > 0 && raw[0] >= 0x20 && raw[0] != QUOTE && raw[0] != BACKSLASH
    ensures AllPlain(raw[..Utf8.CharLen(raw)])
  {
  }

  lemma {:induction false} PlainAfter(raw: bytes, n: nat)
    requires raw != [] && raw[0] != BACKSLASH && WellSpelled(raw) && IntactString(raw) && n == Utf8.CharLen(raw)
    ensures n > 0 && WellSpelled(raw[n..]) && IntactString(raw[n..])
    ensures raw[0] >= 0x20 && raw[0] != QUOTE
  {
    hide Utf8.CharLen;
    assert SpellLen(raw) > 0;
    PlainBytes(raw);
    assert raw == raw[..n] + raw[n..];
    SkipPlain(raw[..n], raw[n..]);
    hide WellSpelled;
  }

  lemma {:induction false} FirstSign(raw: bytes) returns (n: nat, c: nat)
    requires raw != [] && raw[0] == BACKSLASH && WellSpelled(raw) && IntactString(raw) && !StartsUnit(raw)
    ensures 0 < n <= |raw| && Utf8.IsScalar(c) && SpellsOne(raw[..n], c)
    ensures WellSpelled(raw[n..]) && IntactString(raw[n..])
  {
    n, c := 2, ShortEscape(raw[1]);
    assert SpellLen(raw) == 2 && IsShortEscape(raw[1]);
    hide Utf8.Encode;
  }

  lemma {:induction false} UnitCut(raw: bytes)
    requires StartsUnit(raw)
    ensures StartsUnit(raw[..6]) && CodeUnit(raw[..6]) == CodeUnit(raw)
  {
    hide HexValue;
  }

  lemma {:induction false} AfterUnit(raw: bytes)
    requires StartsUnit(raw) && WellSpelled(raw)
    ensures WellSpelled(raw[6..])
  {
    assert SpellLen(raw) == 6;
  }

  lemma {:induction false} FirstUnit(raw: bytes) returns (n: nat, c: nat)
    requires StartsUnit(raw) && !StartsPair(raw) && WellSpelled(raw) && IntactString(raw)
    ensures 0 < n <= |raw| && Utf8.IsScalar(c) && SpellsOne(raw[..n], c)
    ensures WellSpelled(raw[n..]) && IntactString(raw[n..])
  {
    n, c := 6, CodeUnit(raw);
    UnitCut(raw);
    AfterUnit(raw);
    hide WellSpelled, CodeUnit, Utf8.Encode;
  }

  lemma {:induction false} FirstPair(raw: bytes) returns (n: nat, c: nat)
    requires StartsPair(raw) && WellSpelled(raw) && IntactString(raw)
    ensures 0 < n <= |raw| && Utf8.IsScalar(c) && SpellsOne(raw[..n], c)
    ensures WellSpelled(raw[n..]) && IntactString(raw[n..])
  {
    n, c := 12, 0x1_0000 + (CodeUnit(raw) - 0xD800) * 0x400 + (CodeUnit(raw[6..]) - 0xDC00);
    AfterUnit(raw);
    AfterUnit(raw[6..]);
    assert raw[6..][6..] == raw[12..];
    PairCut(raw);
    hide WellSpelled, CodeUnit, StartsUnit, Utf8.Encode;
  }

  lemma PairCut(raw: bytes)
    requires StartsPair(raw)
    ensures |raw| >= 12 && StartsPair(raw[..12]) && CodeUnit(raw[..12]) == CodeUnit(raw)
    ensures CodeUnit(raw[..12][6..]) == CodeUnit(raw[6..])
  {
    assert raw[..12][6..] == raw[6..][..6] && raw[..12][..6] == raw[..6];
    UnitCut(raw);
    UnitCut(raw[6..]);
    UnitCut(raw[..12]);
  }

  /** A string is accepted if and only if it spells characters; then it is read as those. */
  lemma IntactExactly(raw: bytes)
    requires WellSpelled(raw)
    ensures IntactString(raw) <==> exists cs :: AllScalars(cs) && Spells(raw, cs)
    ensures forall cs :: AllScalars(cs) && Spells(raw, cs) ==> Decoded(raw) == Spelled(cs)
  {
    hide *;
    if IntactString(raw) {
      var cs := IntactSpells(raw);
    }
    forall cs | AllScalars(cs) && Spells(raw, cs) ensures IntactString(raw) && Decoded(raw) == Spelled(cs) {
      SpelledIsIntact(raw, cs);
    }
  }
}
