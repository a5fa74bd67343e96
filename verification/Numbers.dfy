/** Number literals: integers by value, everything else by spelling. */
module Numbers {
  import opened Bytes
  import opened JsonText

  const MINUS: byte := 0x2D

  function Digits(n: nat): (s: bytes)
    ensures s != [] && AllDigits(s)
    ensures n > 0 ==> s[0] != 0x30
    ensures n == 0 ==> s == [0x30]
  {
    if n < 10 then [0x30 + n] else Digits(n / 10) + [0x30 + n % 10]
  }

  predicate AllDigits(s: bytes) {
    forall i :: 0 <= i < |s| ==> IsDigit(s[i])
  }

  function DigitsValue(s: bytes): nat
    requires AllDigits(s)
  {
    if s == [] then 0
    else
      var last: int := s[|s| - 1];
      assert IsDigit(s[|s| - 1]);
      10 * DigitsValue(s[..|s| - 1]) + (last - 0x30)
  }

  /** The decimal text of an integer. */
  function IntLiteral(i: int): bytes {
    if i < 0 then [MINUS] + Digits(-i) else Digits(i)
  }

  /** A literal without fraction or exponent. */
  predicate IsIntLiteral(lit: bytes) {
    IsNumber(lit) && 0x2E !in lit && 0x65 !in lit && 0x45 !in lit
  }

  function Magnitude(lit: bytes): bytes {
    if lit != [] && lit[0] == MINUS then lit[1..] else lit
  }

  /** An optional minus sign and decimal digits without leading zeros. */
  predicate IsDecimal(lit: bytes) {
    var s := Magnitude(lit);
    s != [] && (s[0] == 0x30 ==> |s| == 1) && AllDigits(s)
  }

  /** The integer a decimal literal spells. */
  function IntValue(lit: bytes): int
    requires IsDecimal(lit)
  {
    var n: int := DigitsValue(Magnitude(lit));
    if lit[0] == MINUS then -n else n
  }

  lemma AllDigitsCount(s: bytes)
    requires AllDigits(s)
    ensures CountWhile(s, IsDigit) == |s|
  {
    CountWhileExact(s, [], IsDigit);
    assert s + [] == s;
  }

  /** Integer literals are exactly the plain decimals. */
  lemma IntLiteralIsDecimal(lit: bytes)
    ensures IsIntLiteral(lit) <==> IsDecimal(lit)
  {
    var s := Magnitude(lit);
    var n := CountWhile(s, IsDigit);
    if IsDecimal(lit) {
      AllDigitsCount(s);
      assert s[n..] == [];
      DecimalBytes(lit);
    }
  }

  lemma DecimalBytes(lit: bytes)
    requires IsDecimal(lit)
    ensures forall i :: 0 <= i < |lit| ==> lit[i] == MINUS || IsDigit(lit[i])
  {
    var s := Magnitude(lit);
    forall i | 0 <= i < |lit| ensures lit[i] == MINUS || IsDigit(lit[i]) {
      if lit[0] == MINUS && i > 0 { assert lit[i] == s[i - 1]; }
    }
  }

  lemma {:induction false} DigitsRoundTrip(n: nat)
    ensures DigitsValue(Digits(n)) == n
  {
    if n >= 10 {
      DigitsRoundTrip(n / 10);
      var s := Digits(n);
      assert s[..|s| - 1] == Digits(n / 10);
    }
  }

  lemma {:induction false} DigitsCanonical(s: bytes)
    requires s != [] && AllDigits(s) && (s[0] == 0x30 ==> |s| == 1)
    ensures Digits(DigitsValue(s)) == s
    ensures s != [0x30] ==> DigitsValue(s) > 0
  {
    LastDigit(s);
    var t, d := s[..|s| - 1], s[|s| - 1];
    if t == [] {
      OneDigit(d);
    } else {
      hide *;
      DigitsCanonical(t);
      AppendDigit(DigitsValue(t), d);
    }
  }

  lemma LastDigit(s: bytes)
    requires s != [] && AllDigits(s) && (s[0] == 0x30 ==> |s| == 1)
    ensures var t, d := s[..|s| - 1], s[|s| - 1];
            && s == t + [d] && IsDigit(d) && AllDigits(t)
            && DigitsValue(s) == 10 * DigitsValue(t) + (d as int - 0x30)
            && (t != [] ==> t[0] != 0x30)
  {
    hide DigitsValue;
    assert DigitsValue(s) == 10 * DigitsValue(s[..|s| - 1]) + (s[|s| - 1] as int - 0x30) by { ValueStep(s); }
  }

  lemma ValueStep(s: bytes)
    requires s != [] && AllDigits(s)
    ensures DigitsValue(s) == 10 * DigitsValue(s[..|s| - 1]) + (s[|s| - 1] as int - 0x30)
  {
  }

  lemma OneDigit(d: byte)
    requires IsDigit(d)
    ensures DigitsValue([]) == 0 && Digits(d as int - 0x30) == [d]
  {
  }

  lemma AppendDigit(n: nat, d: byte)
    requires n > 0 && IsDigit(d)
    ensures Digits(10 * n + (d as int - 0x30)) == Digits(n) + [d]
  {
    assert (10 * n + (d as int - 0x30)) / 10 == n;
  }

  /** An integer reads back from its own text. */
  lemma IntRoundTrip(i: int)
    ensures IsDecimal(IntLiteral(i)) && IntValue(IntLiteral(i)) == i
  {
    if i < 0 {
      var lit := IntLiteral(i);
      assert Magnitude(lit) == Digits(-i);
      DigitsRoundTrip(-i);
    } else {
      DigitsRoundTrip(i);
      assert IsDigit(Digits(i)[0]) && Magnitude(IntLiteral(i)) == Digits(i);
    }
  }

  /** An integer literal is the text of its value, byte for byte, unless it is -0. */
  lemma IntLiteralCanonical(lit: bytes)
    requires IsDecimal(lit)
    ensures IntLiteral(IntValue(lit)) == lit <==> lit != [MINUS, 0x30]
  {
    if lit[0] == MINUS {
      var s := Magnitude(lit);
      DigitsCanonical(s);
      assert lit == [MINUS] + s;
    } else {
      DigitsCanonical(lit);
    }
  }
}
