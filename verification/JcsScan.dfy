/**
 Finding the integers that a double cannot hold.  A document is its decoder's tokens:
 number literals and everything between them.
 */
module JcsScan {
  import opened Bytes
  import opened JsonText
  import opened JcsSplice
  import Numbers

  // ----- Classification -----

  const MAX_EXACT_INTEGER := 0x20_0000_0000_0000

  function Abs(i: int): nat {
    if i < 0 then -i else i
  }

  /** An integer literal beyond `limit`. */
  predicate Exceeds(lit: bytes, limit: nat) {
    && Numbers.IsIntLiteral(lit)
    && (Numbers.IntLiteralIsDecimal(lit); Abs(Numbers.IntValue(lit)) > limit)
  }

  /** An integer literal that a double may not represent. */
  predicate Oversized(lit: bytes) {
    Exceeds(lit, MAX_EXACT_INTEGER)
  }

  /** `big.Int.SetString` in base 10: an optional sign and digits. */
  function BigInt(lit: bytes): Option<int> {
    var s := if lit != [] && (lit[0] == 0x2B || lit[0] == Numbers.MINUS) then lit[1..] else lit;
    if s == [] || !Numbers.AllDigits(s) then None
    else
      var n: int := Numbers.DigitsValue(s);
      Some(if lit[0] == Numbers.MINUS then -n else n)
  }

  /** The test both walks make: long enough, an integer, and over the limit. */
  predicate Flagged(lit: bytes, limit: nat) {
    |Numbers.Magnitude(lit)| > 15 && BigInt(lit).Some? && Abs(BigInt(lit).value) > limit
  }

  function Pow10(n: nat): (p: nat)
    ensures p >= 1
  {
    if n == 0 then 1 else 10 * Pow10(n - 1)
  }

  lemma {:induction false} Pow10Grows(m: nat, n: nat)
    requires m <= n
    ensures Pow10(m) <= Pow10(n)
    decreases n
  {
    if m < n { Pow10Grows(m, n - 1); }
  }

  lemma {:induction false} DigitsBound(s: bytes)
    requires Numbers.AllDigits(s)
    ensures Numbers.DigitsValue(s) < Pow10(|s|)
  {
    if s != [] {
      DigitsBound(s[..|s| - 1]);
      assert IsDigit(s[|s| - 1]);
    }
  }

  lemma SafeShort()
    ensures Pow10(15) < 0x1F_FFFF_FFFF_FFFF
  {
    assert Pow10(3) == 1000;
    assert Pow10(6) == 1000 * Pow10(3);
    assert Pow10(9) == 1000 * Pow10(6);
    assert Pow10(12) == 1000 * Pow10(9);
    assert Pow10(15) == 1000 * Pow10(12);
  }

  /** The 15-digit shortcut and the base-10 parse classify number literals exactly. */
  lemma FlaggedExactly(lit: bytes, limit: nat)
    requires IsNumber(lit) && limit >= 0x1F_FFFF_FFFF_FFFF
    ensures Flagged(lit, limit) <==> Exceeds(lit, limit)
  {
    var s := Numbers.Magnitude(lit);
    Numbers.IntLiteralIsDecimal(lit);
    assert lit != [] && IsNumByte(lit[0]) && lit[0] != 0x2B;
    if Numbers.IsDecimal(lit) {
      hide IsNumber, Numbers.IsIntLiteral;
      assert BigInt(lit) == Some(Numbers.IntValue(lit));
      if |s| <= 15 {
        DigitsBound(s);
        Pow10Grows(|s|, 15);
        SafeShort();
      }
    } else {
      DigitsAreDecimal(lit);
      assert BigInt(lit).None?;
    }
  }

  lemma DigitsAreDecimal(lit: bytes)
    requires IsNumber(lit)
    ensures Numbers.AllDigits(Numbers.Magnitude(lit)) ==> Numbers.IsDecimal(lit)
  {
    var s := Numbers.Magnitude(lit);
    if Numbers.AllDigits(s) { Numbers.AllDigitsCount(s); }
  }

  // ----- Tokens -----

  datatype Piece = Plain(text: bytes) | Numeral(lit: bytes)

  function DocPieces(d: Doc): seq<Piece>
    decreases d, 0
  {
    match d
    case Num(lit) => [Numeral(lit)]
    case Arr(es, gap) => [Plain([OPEN_ARRAY])] + (if es == [] then [Plain(gap + [CLOSE_ARRAY])] else ElemsPieces(es))
    case Obj(ms, gap) =>
      [Plain([OPEN_OBJECT])] + (if ms == [] then [Plain(gap + [CLOSE_OBJECT])] else MembersPieces(ms))
    case _ => [Plain(Text(d))]
  }

  function ElemPieces(e: Elem): seq<Piece>
    decreases e, 1
  {
    [Plain(e.pre)] + DocPieces(e.val) + [Plain(e.post)]
  }

  function ElemsPieces(es: seq<Elem>): seq<Piece>
    requires es != []
    decreases es, 2
  {
    ElemPieces(es[0]) + if |es| == 1 then [Plain([CLOSE_ARRAY])] else [Plain([COMMA])] + ElemsPieces(es[1..])
  }

  function MemberPieces(m: Member): seq<Piece>
    decreases m, 2
  {
    [Plain(KeyText(m.key))] + ElemPieces(m.elem)
  }

  function MembersPieces(ms: seq<Member>): seq<Piece>
    requires ms != []
    decreases ms, 3
  {
    MemberPieces(ms[0]) + if |ms| == 1 then [Plain([CLOSE_OBJECT])] else [Plain([COMMA])] + MembersPieces(ms[1..])
  }

  function PieceText(piece: Piece): bytes {
    match piece
    case Plain(text) => text
    case Numeral(lit) => lit
  }

  function PiecesText(ps: seq<Piece>): bytes {
    if ps == [] then [] else PieceText(ps[0]) + PiecesText(ps[1..])
  }

  lemma PiecesTextStep(ps: seq<Piece>)
    ensures PiecesText(ps) == if ps == [] then [] else PieceText(ps[0]) + PiecesText(ps[1..])
  {
  }

  lemma {:induction false} PiecesTextConcat(a: seq<Piece>, b: seq<Piece>)
    ensures PiecesText(a + b) == PiecesText(a) + PiecesText(b)
  {
    hide *;
    AppendStep(a, b);
    PiecesTextStep(a);
    if a == [] {
      Associate([], [], PiecesText(b));
    } else {
      PiecesTextStep(a + b);
      PiecesTextConcat(a[1..], b);
      Associate(PieceText(a[0]), PiecesText(a[1..]), PiecesText(b));
    }
  }

  // ----- Spans -----

  /** Where a literal stands in the input. */
  datatype Span = Span(start: nat, end: nat, lit: bytes)

  /** The spans of the oversized literals among the tokens, the first at offset `at`. */
  function Spans(ps: seq<Piece>, at: nat): seq<Span> {
    if ps == [] then []
    else
      var end := at + |PieceText(ps[0])|;
      (if ps[0].Numeral? && Oversized(ps[0].lit) then [Span(at, end, ps[0].lit)] else []) + Spans(ps[1..], end)
  }

  /** Each span lies in the input, holds its literal, and starts where the last ended or later. */
  predicate Located(data: bytes, spans: seq<Span>, from: nat) {
    if spans == [] then from <= |data|
    else
      && from <= spans[0].start <= spans[0].end <= |data|
      && data[spans[0].start..spans[0].end] == spans[0].lit
      && Located(data, spans[1..], spans[0].end)
  }

  function Literals(spans: seq<Span>): (lits: seq<bytes>)
    ensures |lits| == |spans|
    ensures forall k :: 0 <= k < |spans| ==> lits[k] == spans[k].lit
  {
    if spans == [] then [] else [spans[0].lit] + Literals(spans[1..])
  }

  lemma {:induction false} SpansLocated(data: bytes, ps: seq<Piece>, at: nat, from: nat)
    requires from <= at <= |data| && data[at..] == PiecesText(ps)
    ensures Located(data, Spans(ps, at), from)
    decreases |ps|
  {
    hide *;
    if ps == [] {
      NothingLocated(data, at, from);
    } else {
      var end := at + |PieceText(ps[0])|;
      PieceSpan(data, ps, at);
      SpansUnfold(ps, at);
      if ps[0].Numeral? && Oversized(ps[0].lit) {
        SpansLocated(data, ps[1..], end, end);
        NumeralText(ps[0]);
        LocatedCons(data, Span(at, end, ps[0].lit), Spans(ps[1..], end), from);
      } else {
        SpansLocated(data, ps[1..], end, from);
      }
    }
  }

  lemma NothingLocated(data: bytes, at: nat, from: nat)
    requires from <= |data|
    ensures Located(data, Spans([], at), from)
  {
  }

  lemma NumeralText(piece: Piece)
    requires piece.Numeral?
    ensures PieceText(piece) == piece.lit
  {
  }

  lemma {:induction false} SpansUnfold(ps: seq<Piece>, at: nat)
    requires ps != []
    ensures var end := at + |PieceText(ps[0])|;
            Spans(ps, at) == if ps[0].Numeral? && Oversized(ps[0].lit)
                             then [Span(at, end, ps[0].lit)] + Spans(ps[1..], end) else Spans(ps[1..], end)
  {
    hide Oversized;
    assert [] + Spans(ps[1..], at + |PieceText(ps[0])|) == Spans(ps[1..], at + |PieceText(ps[0])|);
  }

  lemma {:induction false} LocatedCons(data: bytes, sp: Span, rest: seq<Span>, from: nat)
    requires from <= sp.start <= sp.end <= |data| && data[sp.start..sp.end] == sp.lit && Located(data, rest, sp.end)
    ensures Located(data, [sp] + rest, from)
  {
    assert ([sp] + rest)[1..] == rest;
  }

  lemma PieceSpan(data: bytes, ps: seq<Piece>, at: nat)
    requires at <= |data| && ps != [] && data[at..] == PiecesText(ps)
    ensures var end := at + |PieceText(ps[0])|;
            end <= |data| && data[at..end] == PieceText(ps[0]) && data[end..] == PiecesText(ps[1..])
  {
    hide PieceText;
    var t := PieceText(ps[0]);
    assert |data[at..]| == |t| + |PiecesText(ps[1..])|;
    assert data[at..][..|t|] == t && data[at..][|t|..] == PiecesText(ps[1..]);
  }

  // ----- The scanner -----

  /** The decoder's tokens one by one: numbers with the offset just past them. */
  method ScanIntegers(data: bytes, ps: seq<Piece>) returns (spans: seq<Span>)
    requires data == PiecesText(ps) && forall k :: 0 <= k < |ps| && ps[k].Numeral? ==> IsNumber(ps[k].lit)
    ensures spans == Spans(ps, 0)
  {
    hide IsNumber, Flagged, Exceeds, PiecesText, Spans, Oversized, PieceText;
    spans := [];
    var offset: nat := 0;
    var k := 0;
    assert ps[0..] == ps && data[0..] == data;
    while k < |ps|
      invariant 0 <= k <= |ps| && offset <= |data| && data[offset..] == PiecesText(ps[k..])
      invariant Spans(ps, 0) == spans + Spans(ps[k..], offset)
    {
      ScanStep(data, ps, k, offset, spans);
      var piece := ps[k];
      offset := offset + |PieceText(piece)|;
      k := k + 1;
      if piece.Plain? {
        continue;
      }
      var lit := piece.lit;
      if !Flagged(lit, MAX_EXACT_INTEGER) {
        continue;
      }
      var start := offset - |lit|;
      if start < 0 || data[start..offset] != lit {
        assert false;
      }
      spans := spans + [Span(start, offset, lit)];
    }
    assert ps[|ps|..] == [];
    NoSpans(offset);
  }

  lemma NoSpans(at: nat)
    ensures Spans([], at) == []
  {
  }

  lemma {:induction false} ScanStep(data: bytes, ps: seq<Piece>, k: nat, at: nat, spans: seq<Span>)
    requires k < |ps| && at <= |data| && data[at..] == PiecesText(ps[k..])
    requires ps[k].Numeral? ==> IsNumber(ps[k].lit)
    ensures var end := at + |PieceText(ps[k])|;
            && end <= |data| && data[at..end] == PieceText(ps[k]) && data[end..] == PiecesText(ps[k + 1..])
            && spans + Spans(ps[k..], at) ==
               if ps[k].Numeral? && Flagged(ps[k].lit, MAX_EXACT_INTEGER)
               then spans + [Span(at, end, ps[k].lit)] + Spans(ps[k + 1..], end)
               else spans + Spans(ps[k + 1..], end)
    ensures ps[k].Numeral? ==> PieceText(ps[k]) == ps[k].lit
  {
    hide PiecesText, IsNumber, Flagged, Exceeds;
    var rest, more := ps[k..], ps[k + 1..];
    assert rest[1..] == more && rest[0] == ps[k];
    PieceSpan(data, rest, at);
    if ps[k].Numeral? { FlaggedExactly(ps[k].lit, MAX_EXACT_INTEGER); }
    var end := at + |PieceText(ps[k])|;
    assert spans + ([Span(at, end, PieceText(ps[k]))] + Spans(more, end)) ==
      spans + [Span(at, end, PieceText(ps[k]))] + Spans(more, end);
    assert spans + ([] + Spans(more, end)) == spans + Spans(more, end);
  }

  // ----- The report -----

  function Value(lit: bytes): int {
    match BigInt(lit)
    case None => 0
    case Some(n) => n
  }

  function Inserted(sp: Span, sorted: seq<Span>): (r: seq<Span>)
    ensures |r| == |sorted| + 1
  {
    if sorted == [] || Value(sp.lit) <= Value(sorted[0].lit) then [sp] + sorted
    else [sorted[0]] + Inserted(sp, sorted[1..])
  }

  /** A stable sort by value. */
  function StableSorted(spans: seq<Span>): (r: seq<Span>)
    ensures |r| == |spans|
  {
    if spans == [] then [] else Inserted(spans[0], StableSorted(spans[1..]))
  }

  predicate Ascending(spans: seq<Span>) {
    |spans| <= 1 || (Value(spans[0].lit) <= Value(spans[1].lit) && Ascending(spans[1..]))
  }

  lemma {:induction false} InsertedAscends(sp: Span, sorted: seq<Span>)
    requires Ascending(sorted)
    ensures Ascending(Inserted(sp, sorted))
  {
    hide Value;
    if sorted != [] && !(Value(sp.lit) <= Value(sorted[0].lit)) {
      InsertedAscends(sp, sorted[1..]);
      var r := Inserted(sp, sorted[1..]);
      assert ([sorted[0]] + r)[1..] == r;
      assert r[0] == sp || r[0] == sorted[1];
    } else {
      assert ([sp] + sorted)[1..] == sorted;
    }
  }

  lemma {:induction false} SortedAscends(spans: seq<Span>)
    ensures Ascending(StableSorted(spans))
  {
    if spans != [] {
      SortedAscends(spans[1..]);
      InsertedAscends(spans[0], StableSorted(spans[1..]));
    }
  }

  lemma {:induction false} AscendingAt(spans: seq<Span>, i: nat, j: nat)
    requires Ascending(spans) && i < j < |spans|
    ensures Value(spans[i].lit) <= Value(spans[j].lit)
    decreases j
  {
    hide Value;
    if i > 0 { AscendingAt(spans[1..], i - 1, j - 1); } else if j > 1 { AscendingAt(spans[1..], 0, j - 1); }
  }

  lemma LiteralsCons(sp: Span, rest: seq<Span>)
    ensures multiset(Literals([sp] + rest)) == multiset{sp.lit} + multiset(Literals(rest))
  {
    assert ([sp] + rest)[1..] == rest;
    assert Literals([sp] + rest) == [sp.lit] + Literals(rest);
  }

  lemma {:induction false} InsertedLiterals(sp: Span, sorted: seq<Span>)
    ensures multiset(Literals(Inserted(sp, sorted))) == multiset{sp.lit} + multiset(Literals(sorted))
  {
    hide Value, Literals;
    LiteralsCons(sp, sorted);
    if sorted != [] && !(Value(sp.lit) <= Value(sorted[0].lit)) {
      InsertedLiterals(sp, sorted[1..]);
      LiteralsCons(sorted[0], Inserted(sp, sorted[1..]));
      LiteralsCons(sorted[0], sorted[1..]);
      assert sorted == [sorted[0]] + sorted[1..];
    }
  }

  lemma {:induction false} SortedLiterals(spans: seq<Span>)
    ensures multiset(Literals(StableSorted(spans))) == multiset(Literals(spans))
  {
    hide Literals;
    if spans != [] {
      SortedLiterals(spans[1..]);
      InsertedLiterals(spans[0], StableSorted(spans[1..]));
      LiteralsCons(spans[0], spans[1..]);
      assert spans == [spans[0]] + spans[1..];
    }
  }

  /** One entry per occurrence, numerically ascending. */
  method LiteralsAscending(spans: seq<Span>) returns (lits: seq<bytes>)
    ensures multiset(lits) == multiset(Literals(spans))
    ensures forall i, j :: 0 <= i < j < |lits| ==> Value(lits[i]) <= Value(lits[j])
  {
    hide Value, StableSorted, Literals, Ascending;
    var ordered := StableSorted(spans);
    SortedAscends(spans);
    lits := [];
    for i := 0 to |ordered|
      invariant |lits| == i && forall k :: 0 <= k < i ==> lits[k] == ordered[k].lit
    {
      lits := lits + [ordered[i].lit];
    }
    assert lits == Literals(ordered);
    SortedLiterals(spans);
    forall i, j | 0 <= i < j < |lits| ensures Value(lits[i]) <= Value(lits[j]) {
      AscendingAt(ordered, i, j);
    }
  }

  // ----- Splicing -----

  /** The input with the spans cut out, numbered from `i`. */
  function Cutout(data: bytes, spans: seq<Span>, i: nat, from: nat): Spliced
    requires Located(data, spans, from)
  {
    if spans == [] then End(data[from..])
    else Cut(data[from..spans[0].start], i, Cutout(data, spans[1..], i + 1, spans[0].end))
  }

  method Splice(data: bytes, spans: seq<Span>, p: bytes) returns (spliced: bytes)
    requires Located(data, spans, 0)
    ensures spliced == Stub(p, Cutout(data, spans, 0, 0))
  {
    spliced := [];
    var prev: nat := 0;
    assert spans[0..] == spans;
    for i := 0 to |spans|
      invariant Located(data, spans[i..], prev)
      invariant Stub(p, Cutout(data, spans, 0, 0)) == spliced + Stub(p, Cutout(data, spans[i..], i, prev))
    {
      hide Token;
      ghost var rest := spans[i..];
      assert rest[1..] == spans[i + 1..];
      var sp := spans[i];
      ghost var more := Stub(p, Cutout(data, spans[i + 1..], i + 1, sp.end));
      assert spliced + (data[prev..sp.start] + (Token(p, i) + more)) ==
        spliced + data[prev..sp.start] + Token(p, i) + more;
      spliced := spliced + data[prev..sp.start];
      spliced := spliced + Token(p, i);
      prev := sp.end;
    }
    assert spans[|spans|..] == [];
    spliced := spliced + data[prev..];
  }

  /** The holes are numbered in order, and filling them gives the input back. */
  lemma {:induction false} CutoutFills(data: bytes, spans: seq<Span>, lits: seq<bytes>, i: nat, from: nat)
    requires Located(data, spans, from) && i + |spans| == |lits|
    requires forall k :: 0 <= k < |spans| ==> lits[i + k] == spans[k].lit
    ensures Fill(lits, Cutout(data, spans, i, from)) == data[from..]
    ensures |Holes(Cutout(data, spans, i, from))| == |spans|
    ensures forall k :: 0 <= k < |spans| ==> Holes(Cutout(data, spans, i, from))[k] == i + k
    decreases |spans|
  {
    if spans != [] {
      var sp := spans[0];
      forall k | 0 <= k < |spans[1..]| ensures lits[i + 1 + k] == spans[1..][k].lit {
        assert lits[i + (k + 1)] == spans[k + 1].lit;
      }
      CutoutFills(data, spans[1..], lits, i + 1, sp.end);
      assert lits[i + 0] == sp.lit;
      assert data[from..] == data[from..sp.start] + (data[sp.start..sp.end] + data[sp.end..]);
      var h := Holes(Cutout(data, spans[1..], i + 1, sp.end));
      forall k | 0 <= k < |spans| ensures ([i] + h)[k] == i + k {
        if k > 0 { assert h[k - 1] == i + 1 + (k - 1); }
      }
    }
  }

  lemma {:induction false} CountingExactly(h: seq<nat>, n: nat)
    requires |h| == n && forall k :: 0 <= k < n ==> h[k] == k
    ensures Exactly(h, n)
    decreases n
  {
    if n > 0 {
      var g := h[..n - 1];
      CountingExactly(g, n - 1);
      assert h == g + [n - 1];
      forall i: nat ensures multiset(h)[i] == if i < n then 1 else 0 {
        assert multiset(g)[i] == if i < n - 1 then 1 else 0;
      }
    } else {
      assert h == [];
    }
  }

  /** Splicing spans out of any text and restoring them gives the text back, provided it
      is free of the placeholder; otherwise the restore refuses. */
  lemma SpliceRestores(p: bytes, data: bytes, spans: seq<Span>)
    requires IsPlaceholder(p) && Located(data, spans, 0)
    ensures var back := Restored(p, Literals(spans), Stub(p, Cutout(data, spans, 0, 0)));
            if Occurs(p, data) then back.Err? else back == Ok(data)
  {
    hide Restored, Stub, Fill, Occurs, IsPlaceholder;
    CutoutFills(data, spans, Literals(spans), 0, 0);
    var x := Cutout(data, spans, 0, 0);
    CountingExactly(Holes(x), |spans|);
    assert data[0..] == data;
    RestoreExact(p, Literals(spans), x);
  }
}
