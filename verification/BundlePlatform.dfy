/**
 The properties asked of the platform's float and number routines do not contradict
 each other: a simple platform has them all.
 */
module BundlePlatform {
  import opened Bytes
  import opened CborSyntax
  import opened JsonText
  import opened BundleValue
  import opened BundleRoundTrip
  import opened BundleDeterministic
  import opened BundleInverse
  import JcsCanon
  import JcsMeaning
  import JcsMentions
  import Numbers

  const DOT: byte := 0x2E
  const ZERO: byte := 0x30

  /** Only doubles hold finite values, each its own. */
  function Widen(f: Form, bits: uint64): uint64 {
    if f == Eight then bits else 0x7FF0_0000_0000_0000
  }

  /** The bit pattern in decimal, with a fraction. */
  function Literal(x: uint64): bytes {
    Numbers.Digits(x) + [DOT, ZERO]
  }

  function ReadBack(lit: bytes): Option<uint64> {
    if |lit| < 2 || lit[|lit| - 2..] != [DOT, ZERO] || !Numbers.AllDigits(lit[..|lit| - 2]) then None
    else
      var n: int := Numbers.DigitsValue(lit[..|lit| - 2]);
      if n < 0x1_0000_0000_0000_0000 && Finite(n) then Some(n) else None
  }

  function Doubles(): FloatFormat {
    FloatFormat(Widen, (x: uint64) => (Eight, x), Literal, ReadBack)
  }

  lemma LiteralIsFloat(x: uint64)
    ensures IsFloatLiteral(Literal(x))
  {
    var d: bytes := Numbers.Digits(x);
    var lit := Literal(x);
    forall i | 0 <= i < |lit| ensures IsNumByte(lit[i]) {
      if i < |d| { assert IsDigit(d[i]); }
    }
    assert IsDigit(d[0]);
    CountWhileExact(d, [DOT, ZERO], IsDigit);
    assert lit[|d|..] == [DOT, ZERO];
    FractionOfZero();
    assert d[0] == ZERO ==> |d| == 1;
    assert lit[|d|] == DOT;
    hide IsFraction, CountWhile, Numbers.Digits;
  }

  lemma FractionOfZero()
    ensures IsFraction([DOT, ZERO])
  {
    var s: bytes := [DOT, ZERO];
    assert s[1..] == [ZERO];
    CountWhileExact([ZERO], [], IsDigit);
    assert [ZERO] + [] == [ZERO];
    assert s[2..] == [];
  }

  lemma LiteralReadsBack(x: uint64)
    requires Finite(x)
    ensures ReadBack(Literal(x)) == Some(x)
  {
    hide Finite, Numbers.Digits, Numbers.DigitsValue;
    Numbers.DigitsRoundTrip(x);
    var lit := Literal(x);
    assert lit[|lit| - 2..] == [DOT, ZERO] && lit[..|lit| - 2] == Numbers.Digits(x);
  }

  lemma DoublesAreFaithful()
    ensures Faithful(Doubles())
  {
    hide IsFloatLiteral, Literal, ReadBack, Finite, IsNumber;
    forall x: uint64 | Finite(x) ensures IsFloatLiteral(Literal(x)) && ReadBack(Literal(x)) == Some(x) {
      LiteralIsFloat(x);
      LiteralReadsBack(x);
    }
    forall lit | ReadBack(lit).Some? ensures Finite(ReadBack(lit).value) {
      ReadIsFinite(lit);
    }
  }

  lemma ReadIsFinite(lit: bytes)
    ensures ReadBack(lit).Some? ==> Finite(ReadBack(lit).value)
  {
    hide Finite, Numbers.DigitsValue, Numbers.AllDigits;
  }

  lemma InfinityIsNotFinite()
    ensures !Finite(0x7FF0_0000_0000_0000)
  {
  }

  lemma DoublesNarrow()
    ensures Narrows(Doubles())
  {
    hide Finite, Literal, ReadBack;
    InfinityIsNotFinite();
  }

  lemma DoublesSeparate()
    ensures Separates(Doubles())
  {
    hide Finite, Literal, ReadBack;
    InfinityIsNotFinite();
  }

  /** All that is asked of floats holds of `Doubles`. */
  lemma DoublesQualify()
    ensures Faithful(Doubles()) && Narrows(Doubles()) && Separates(Doubles())
  {
    hide *;
    DoublesAreFaithful();
    DoublesNarrow();
    DoublesSeparate();
  }

  /** Writing every number as it is spelled has what is asked of number formats. */
  lemma SpellingQualifies()
    ensures var f: JcsCanon.Format := (lit: bytes) => Some(lit); JcsMentions.WritesNumbers(f) && JcsMeaning.Stable(f)
  {
  }
}
