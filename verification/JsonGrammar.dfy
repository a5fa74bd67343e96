/** The tokens of JSON as RFC 8259 gives them, apart from the functions that scan them. */
module JsonGrammar {
  import opened Bytes
  import opened JsonText

  // ----- Tokens -----

  /** The structural characters and the three literal names. */
  lemma TokensExactly()
    ensures [QUOTE, BACKSLASH] == Ascii("\"\\") && [COMMA, COLON] == Ascii(",:")
    ensures [OPEN_ARRAY, CLOSE_ARRAY, OPEN_OBJECT, CLOSE_OBJECT] == Ascii("[]{}")
    ensures NULL == Ascii("null") && TRUE == Ascii("true") && FALSE == Ascii("false")
  {
  }

  lemma SpacesExactly(b: byte)
    ensures IsSpace(b) <==> b in Ascii(" \t\n\r")
  {
    assert Ascii(" \t\n\r") == [32, 9, 10, 13];
  }

  // ----- Numbers -----

  predicate AllDigits(s: bytes) {
    forall i :: 0 <= i < |s| ==> '0' <= s[i] as char <= '9'
  }

  /** A zero, or digits that do not start with one. */
  predicate IsWhole(s: bytes) {
    s == Ascii("0") || (s != [] && s[0] != Ascii("0")[0] && AllDigits(s))
  }

  predicate IsFrac(s: bytes) {
    s == [] || (|s| >= 2 && s[0] == Ascii(".")[0] && AllDigits(s[1..]))
  }

  predicate IsExp(s: bytes) {
    || s == []
    || (&& |s| >= 2 && s[0] in Ascii("eE")
        && (AllDigits(s[1..]) || (|s| >= 3 && s[1] in Ascii("+-") && AllDigits(s[2..]))))
  }

  /** `lit` is a number of these parts: an optional minus sign, an integer part, and an
      optional fraction and exponent. */
  predicate HasParts(lit: bytes, negative: bool, whole: bytes, frac: bytes, exp: bytes) {
    && IsWhole(whole) && IsFrac(frac) && IsExp(exp)
    && lit == (if negative then Ascii("-") else []) + (whole + (frac + exp))
  }

  lemma DigitsAre(b: byte)
    ensures IsDigit(b) <==> '0' <= b as char <= '9'
  {
  }

  lemma DigitsExactly(s: bytes)
    ensures AllDigits(s) <==> CountWhile(s, IsDigit) == |s|
  {
    if AllDigits(s) {
      CountWhileExact(s, [], IsDigit);
      assert s + [] == s;
    }
  }

  /** A fraction or exponent does not start with a digit, so the scan stops before it. */
  lemma ScanStops(digits: bytes, rest: bytes)
    requires AllDigits(digits) && (rest != [] ==> !IsDigit(rest[0]))
    ensures CountWhile(digits + rest, IsDigit) == |digits|
    ensures (digits + rest)[|digits|..] == rest && (digits + rest)[..|digits|] == digits
  {
    CountWhileExact(digits, rest, IsDigit);
  }

  lemma ExponentExactly(s: bytes)
    ensures IsExponent(s) <==> IsExp(s)
  {
    if |s| >= 2 {
      DigitsExactly(s[1..]);
      DigitsExactly(s[2..]);
    }
    assert Ascii("eE") == [0x65, 0x45] && Ascii("+-") == [0x2B, 0x2D];
    hide CountWhile;
  }

  lemma ExpStarts(s: bytes)
    requires IsExp(s) && s != []
    ensures s[0] == 0x65 || s[0] == 0x45
  {
    assert Ascii("eE") == [0x65, 0x45];
  }

  lemma FracStarts(s: bytes)
    requires IsFrac(s) && s != []
    ensures s[0] == 0x2E && |s| >= 2 && AllDigits(s[1..])
  {
  }

  lemma FractionExactly(s: bytes)
    ensures IsFraction(s) <==> exists frac, exp :: IsFrac(frac) && IsExp(exp) && s == frac + exp
  {
    hide CountWhile, IsExponent, IsExp, IsFrac;
    if IsFraction(s) {
      if s != [] && s[0] == 0x2E {
        var n := CountWhile(s[1..], IsDigit);
        ExponentExactly(s[1 + n..]);
        Dotted(s[..1 + n]);
        assert s == s[..1 + n] + s[1 + n..];
        assert IsFrac(s[..1 + n]) && IsExp(s[1 + n..]);
      } else {
        ExponentExactly(s);
        Dotted([]);
        assert s == [] + s;
      }
    }
    forall frac, exp | IsFrac(frac) && IsExp(exp) && s == frac + exp ensures IsFraction(s) {
      FractionOf(s, frac, exp);
    }
  }

  lemma Dotted(s: bytes)
    requires s == [] || (|s| >= 2 && s[0] == 0x2E && forall i :: 1 <= i < |s| ==> IsDigit(s[i]))
    ensures IsFrac(s)
  {
    assert Ascii(".") == [0x2E];
  }

  lemma FractionOf(s: bytes, frac: bytes, exp: bytes)
    requires IsFrac(frac) && IsExp(exp) && s == frac + exp
    ensures IsFraction(s)
  {
    ExponentExactly(exp);
    if exp != [] { ExpStarts(exp); }
    hide IsExponent, IsExp;
    if frac == [] {
      assert s == exp;
    } else {
      FracStarts(frac);
      assert s[1..] == frac[1..] + exp;
      ScanStops(frac[1..], exp);
      assert s[|frac|..] == exp;
    }
  }

  /** Number literals are exactly what the grammar of section 6 gives. */
  lemma NumberExactly(lit: bytes)
    ensures IsNumber(lit) <==> exists negative, whole, frac, exp :: HasParts(lit, negative, whole, frac, exp)
  {
    hide *;
    if IsNumber(lit) {
      var negative, whole, frac, exp := NumberParts(lit);
    }
    forall negative, whole, frac, exp | HasParts(lit, negative, whole, frac, exp) ensures IsNumber(lit) {
      PartsNumber(lit, negative, whole, frac, exp);
    }
  }

  lemma NumberParts(lit: bytes) returns (negative: bool, whole: bytes, frac: bytes, exp: bytes)
    requires IsNumber(lit)
    ensures HasParts(lit, negative, whole, frac, exp)
  {
    hide *;
    var s, n;
    negative, s, n := NumberSplits(lit);
    FractionExactly(s[n..]);
    var f, e :| IsFrac(f) && IsExp(e) && s[n..] == f + e;
    whole, frac, exp := s[..n], f, e;
    WholeIs(whole);
    PartsJoin(lit, negative, s, n, f, e);
  }

  lemma NumberSplits(lit: bytes) returns (negative: bool, s: bytes, n: nat)
    requires IsNumber(lit)
    ensures lit == (if negative then Ascii("-") else []) + s
    ensures 1 <= n <= |s| && (s[0] == 0x30 ==> n == 1) && IsFraction(s[n..])
    ensures forall i :: 0 <= i < |s[..n]| ==> IsDigit(s[..n][i])
  {
    hide IsFraction;
    negative := lit != [] && lit[0] == 0x2D;
    s := if negative then lit[1..] else lit;
    n := CountWhile(s, IsDigit);
    assert Ascii("-") == [0x2D];
  }

  lemma WholeIs(whole: bytes)
    requires whole != [] && (whole[0] == 0x30 ==> |whole| == 1) && forall i :: 0 <= i < |whole| ==> IsDigit(whole[i])
    ensures IsWhole(whole)
  {
    assert Ascii("0") == [0x30];
  }

  lemma PartsJoin(lit: bytes, negative: bool, s: bytes, n: nat, frac: bytes, exp: bytes)
    requires n <= |s| && s[n..] == frac + exp && lit == (if negative then Ascii("-") else []) + s
    requires IsWhole(s[..n]) && IsFrac(frac) && IsExp(exp)
    ensures HasParts(lit, negative, s[..n], frac, exp)
  {
    hide IsWhole, IsFrac, IsExp, Ascii;
    assert s == s[..n] + (frac + exp);
  }

  lemma PartsNumber(lit: bytes, negative: bool, whole: bytes, frac: bytes, exp: bytes)
    requires HasParts(lit, negative, whole, frac, exp)
    ensures IsNumber(lit)
  {
    hide IsFraction, CountWhile;
    var s := whole + (frac + exp);
    PartsBytes(whole, frac, exp);
    FractionExactly(frac + exp);
    WholeStarts(whole);
    ScanStops(whole, frac + exp);
    assert Ascii("-") == [0x2D] && Ascii("0") == [0x30];
    hide IsFrac, IsExp;
    if negative {
      assert lit[0] == 0x2D && lit[1..] == s;
    } else {
      assert lit == s && s[0] == whole[0];
    }
    assert s[0] == whole[0];
  }

  lemma WholeStarts(whole: bytes)
    requires IsWhole(whole)
    ensures AllDigits(whole) && whole != [] && IsDigit(whole[0])
  {
    assert Ascii("0") == [0x30];
  }

  lemma PartsBytes(whole: bytes, frac: bytes, exp: bytes)
    requires IsWhole(whole) && IsFrac(frac) && IsExp(exp)
    ensures var s := whole + (frac + exp); forall i :: 0 <= i < |s| ==> IsNumByte(s[i])
    ensures frac + exp != [] ==> !IsDigit((frac + exp)[0])
  {
    WholeBytes(whole);
    FracBytes(frac);
    ExpBytes(exp);
    hide *;
    assert frac == [] ==> frac + exp == exp;
  }

  lemma WholeBytes(whole: bytes)
    requires IsWhole(whole)
    ensures forall i :: 0 <= i < |whole| ==> IsNumByte(whole[i])
  {
    assert Ascii("0") == [0x30];
  }

  lemma FracBytes(frac: bytes)
    requires IsFrac(frac)
    ensures forall i :: 0 <= i < |frac| ==> IsNumByte(frac[i])
    ensures frac != [] ==> !IsDigit(frac[0])
  {
    assert Ascii(".") == [0x2E];
    assert forall i :: 1 <= i < |frac| ==> frac[i] == frac[1..][i - 1];
  }

  lemma ExpBytes(exp: bytes)
    requires IsExp(exp)
    ensures forall i :: 0 <= i < |exp| ==> IsNumByte(exp[i])
    ensures exp != [] ==> !IsDigit(exp[0])
  {
    assert Ascii("eE") == [0x65, 0x45] && Ascii("+-") == [0x2B, 0x2D];
    assert forall i :: 1 <= i < |exp| ==> exp[i] == exp[1..][i - 1];
    assert forall i :: 2 <= i < |exp| ==> exp[i] == exp[2..][i - 2];
  }

  // ----- Strings -----

  predicate IsHexDigit(b: byte) {
    b in Ascii("0123456789abcdefABCDEF")
  }

  /** One character between quotes (section 7): a byte that need not be escaped, a
      backslash with one of eight characters, or with u and four hex digits. */
  predicate IsPiece(s: bytes) {
    || (|s| == 1 && s[0] >= 0x20 && s[0] !in Ascii("\"\\"))
    || (|s| == 2 && s[0] == Ascii("\\")[0] && s[1] in Ascii("\"\\/bfnrt"))
    || (&& |s| == 6 && s[..2] == Ascii("\\u")
        && IsHexDigit(s[2]) && IsHexDigit(s[3]) && IsHexDigit(s[4]) && IsHexDigit(s[5]))
  }

  function Flat(pieces: seq<bytes>): bytes {
    if pieces == [] then [] else pieces[0] + Flat(pieces[1..])
  }

  ghost predicate AllPieces(pieces: seq<bytes>) {
    forall k :: 0 <= k < |pieces| ==> IsPiece(pieces[k])
  }

  lemma HexExactly(b: byte)
    ensures IsHex(b) <==> IsHexDigit(b)
  {
    var digits := Ascii("0123456789abcdefABCDEF");
    assert forall n: nat :: n < 22 ==> digits[n] == if n < 10 then 0x30 + n else if n < 16 then 0x57 + n else 0x31 + n;
    if IsHex(b) {
      var n: nat := if b < 0x40 then b - 0x30 else if b < 0x50 then b as int - 0x31 else b as int - 0x57;
      assert digits[n] == b;
    }
  }

  lemma PieceLength(p: bytes, rest: bytes)
    requires IsPiece(p)
    ensures SpellLen(p + rest) == |p| > 0 && (p + rest)[|p|..] == rest
  {
    hide IsHexDigit, SpellLen, Ascii;
    if |p| == 6 { CodePieceLength(p, rest); } else { ShortPieceLength(p, rest); }
  }

  lemma ShortPieceLength(p: bytes, rest: bytes)
    requires IsPiece(p) && |p| < 6
    ensures SpellLen(p + rest) == |p| > 0
  {
    assert Ascii("\"\\") == [0x22, 0x5C] && Ascii("\\") == [0x5C];
    assert Ascii("\"\\/bfnrt") == [0x22, 0x5C, 0x2F, 0x62, 0x66, 0x6E, 0x72, 0x74];
    hide IsHexDigit;
  }

  lemma CodePieceLength(p: bytes, rest: bytes)
    requires IsPiece(p) && |p| == 6
    ensures SpellLen(p + rest) == 6
  {
    HexExactly(p[2]);
    HexExactly(p[3]);
    HexExactly(p[4]);
    HexExactly(p[5]);
    hide IsHex, IsHexDigit;
    assert Ascii("\\u") == [0x5C, 0x75];
    assert p[0] == p[..2][0] && p[1] == p[..2][1];
    assert forall i :: 2 <= i < 6 ==> IsHex((p + rest)[i]);
  }

  lemma LengthPiece(s: bytes)
    requires SpellLen(s) > 0
    ensures IsPiece(s[..SpellLen(s)])
  {
    assert Ascii("\"\\") == [0x22, 0x5C] && Ascii("\\") == [0x5C] && Ascii("\\u") == [0x5C, 0x75];
    assert Ascii("\"\\/bfnrt") == [0x22, 0x5C, 0x2F, 0x62, 0x66, 0x6E, 0x72, 0x74];
    if SpellLen(s) == 6 {
      HexExactly(s[2]);
      HexExactly(s[3]);
      HexExactly(s[4]);
      HexExactly(s[5]);
      hide IsHex, IsHexDigit;
      assert s[..6][..2] == [s[0], s[1]];
    }
  }

  /** What stands between quotes is exactly a sequence of such characters. */
  lemma StringExactly(raw: bytes)
    ensures WellSpelled(raw) <==> exists pieces :: AllPieces(pieces) && raw == Flat(pieces)
  {
    hide *;
    if WellSpelled(raw) {
      var pieces := Pieces(raw);
    }
    forall pieces | AllPieces(pieces) && raw == Flat(pieces) ensures WellSpelled(raw) {
      FlatIsSpelled(pieces);
    }
  }

  lemma {:induction false} Pieces(raw: bytes) returns (pieces: seq<bytes>)
    requires WellSpelled(raw)
    ensures AllPieces(pieces) && raw == Flat(pieces)
    decreases |raw|
  {
    hide SpellLen, IsPiece;
    if raw == [] {
      pieces := [];
    } else {
      var n := SpellLen(raw);
      LengthPiece(raw);
      var more := Pieces(raw[n..]);
      pieces := [raw[..n]] + more;
      assert pieces[1..] == more && raw == raw[..n] + raw[n..];
    }
  }

  lemma {:induction false} FlatIsSpelled(pieces: seq<bytes>)
    requires AllPieces(pieces)
    ensures WellSpelled(Flat(pieces))
  {
    hide SpellLen, IsPiece;
    if pieces != [] {
      FlatIsSpelled(pieces[1..]);
      PieceLength(pieces[0], Flat(pieces[1..]));
    }
  }
}
