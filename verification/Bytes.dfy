/** Byte strings, their big-endian and text forms, and shared option types. */
module Bytes {
  type byte = x: int | 0 <= x < 256
  type bytes = seq<byte>

  datatype Option<+T> = None | Some(value: T)

  datatype Result<+T, +E> = Ok(value: T) | Err(error: E)

  /** The bytes of an ASCII string. */
  function Ascii(s: string): (b: bytes)
    ensures |b| == |s|
  {
    seq(|s|, i requires 0 <= i < |s| => if s[i] as int < 128 then s[i] as int else 0x3F)
  }

  /** `n` in exactly `len` big-endian bytes, higher digits dropped. */
  function BigEndian(n: nat, len: nat): (b: bytes)
    ensures |b| == len
  {
    if len == 0 then [] else BigEndian(n / 256, len - 1) + [n % 256]
  }

  function FromBigEndian(b: bytes): nat
  {
    if b == [] then 0 else 256 * FromBigEndian(b[..|b| - 1]) + b[|b| - 1]
  }

  function Pow256(len: nat): (p: nat)
    ensures p >= 1
  {
    if len == 0 then 1 else 256 * Pow256(len - 1)
  }

  lemma {:induction false} BigEndianRoundTrip(n: nat, len: nat)
    requires n < Pow256(len)
    ensures FromBigEndian(BigEndian(n, len)) == n
  {
    if len > 0 {
      BigEndianRoundTrip(n / 256, len - 1);
      var b := BigEndian(n, len);
      assert b[..|b| - 1] == BigEndian(n / 256, len - 1);
    }
  }

  lemma {:induction false} FromBigEndianRoundTrip(b: bytes)
    ensures FromBigEndian(b) < Pow256(|b|)
    ensures BigEndian(FromBigEndian(b), |b|) == b
  {
    if b != [] {
      FromBigEndianRoundTrip(b[..|b| - 1]);
      assert b == b[..|b| - 1] + [b[|b| - 1]];
    }
  }

  // ----- Sequences -----

  lemma AppendStep<T>(a: seq<T>, b: seq<T>)
    ensures a == [] ==> a + b == b
    ensures a != [] ==> a + b != [] && (a + b)[0] == a[0] && (a + b)[1..] == a[1..] + b
  {
  }

  lemma Associate<T>(a: seq<T>, b: seq<T>, c: seq<T>)
    ensures a + (b + c) == (a + b) + c && [] + c == c
  {
  }

  // ----- Division -----

  lemma DivideTwice(x: nat, a: nat, p: nat)
    requires a >= 1 && p >= 1
    ensures a * p >= 1 && x / a / p == x / (a * p)
  {
    var y, q := x / a, x / a / p;
    var r := y % p;
    MoreTimes(1, a, p);
    MoreTimes(r + 1, p, a);
    Regrouped(x, a, p, y, q, r, x % a);
    QuotientIs(x, a * p, q, r * a + x % a);
  }

  lemma Regrouped(x: nat, a: nat, p: nat, y: nat, q: nat, r: nat, t: nat)
    requires x == y * a + t && y == q * p + r && t < a && (r + 1) * a <= p * a
    ensures x == q * (a * p) + (r * a + t) && r * a + t < a * p
  {
    assert y * a == q * p * a + r * a;
    assert q * p * a == q * (a * p);
  }

  lemma QuotientIs(x: nat, d: nat, q: nat, r: nat)
    requires d >= 1 && x == q * d + r && r < d
    ensures x / d == q
  {
    OneQuotient(d, x / d, x % d, q, r);
  }

  lemma OneQuotient(d: nat, q: nat, r: nat, p: nat, t: nat)
    requires q * d + r == p * d + t && r < d && t < d
    ensures q == p
  {
    if q < p {
      MoreTimes(q + 1, p, d);
    } else if p < q {
      MoreTimes(p + 1, q, d);
    }
  }

  lemma MoreTimes(a: nat, b: nat, d: nat)
    requires a <= b
    ensures a * d <= b * d
  {
    assert (b - a) * d >= 0;
  }
}
