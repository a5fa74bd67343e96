/**
 Cutting integer literals out of a text and putting them back.  A text with some
 stretches cut out is a list of runs and holes; a hole is written either as a
 placeholder string or as the literal it stands for.
 */
module JcsSplice {
  import opened Bytes
  import opened JsonText
  import Numbers

  // ----- Substrings -----

  predicate At(s: bytes, i: nat, pat: bytes) {
    i + |pat| <= |s| && s[i..i + |pat|] == pat
  }

  ghost predicate Occurs(pat: bytes, s: bytes) {
    exists i: nat :: At(s, i, pat)
  }

  /** Where `pat` first occurs in `s`. */
  function Index(s: bytes, pat: bytes): (r: Option<nat>)
    ensures r.Some? ==> At(s, r.value, pat) && forall i: nat :: i < r.value ==> !At(s, i, pat)
    ensures r.None? ==> !Occurs(pat, s)
  {
    if At(s, 0, pat) then Some(0)
    else if s == [] then None
    else
      AtTail(s, pat);
      match Index(s[1..], pat)
      case None => None
      case Some(i) => Some(i + 1)
  }

  lemma AtTail(s: bytes, pat: bytes)
    requires s != []
    ensures forall i: nat :: i > 0 ==> (At(s, i, pat) <==> At(s[1..], i - 1, pat))
    ensures forall i: nat :: At(s[1..], i, pat) ==> At(s, i + 1, pat)
  {
    forall i: nat | i > 0 ensures At(s, i, pat) <==> At(s[1..], i - 1, pat) {
      if i + |pat| <= |s| { assert s[1..][i - 1..i - 1 + |pat|] == s[i..i + |pat|]; }
    }
    forall i: nat | At(s[1..], i, pat) ensures At(s, i + 1, pat) {
      assert s[1..][i..i + |pat|] == s[i + 1..i + 1 + |pat|];
    }
  }

  lemma AtBytes(s: bytes, i: nat, pat: bytes)
    requires At(s, i, pat)
    ensures i + |pat| <= |s| && forall j :: 0 <= j < |pat| ==> s[i + j] == pat[j]
  {
    forall j | 0 <= j < |pat| ensures s[i + j] == pat[j] {
      assert s[i..i + |pat|][j] == s[i + j];
    }
  }

  lemma OccursInside(pat: bytes, a: bytes, s: bytes, b: bytes)
    requires Occurs(pat, s)
    ensures Occurs(pat, a + s + b)
  {
    var i: nat :| At(s, i, pat);
    assert (a + s + b)[|a| + i..|a| + i + |pat|] == s[i..i + |pat|];
    assert At(a + s + b, |a| + i, pat);
  }

  lemma OccursBefore(pat: bytes, s: bytes, b: bytes)
    requires Occurs(pat, s)
    ensures Occurs(pat, s + b)
  {
    OccursInside(pat, [], s, b);
    assert [] + s + b == s + b;
  }

  // ----- Placeholders -----

  predicate IsAlphanumeric(b: byte) {
    0x30 <= b <= 0x39 || 0x41 <= b <= 0x5A || 0x61 <= b <= 0x7A
  }

  /** The shape of a placeholder, TSJCS and hex digits: it starts with a capital T
      and holds only letters and digits. */
  predicate IsPlaceholder(p: bytes) {
    p != [] && p[0] == 0x54 && forall i :: 0 <= i < |p| ==> IsAlphanumeric(p[i])
  }

  const DASH: byte := 0x2D

  function Marker(p: bytes): bytes {
    [QUOTE] + p + [DASH]
  }

  /** The i-th placeholder as the JSON string spliced into the input. */
  function Token(p: bytes, i: nat): bytes {
    [QUOTE] + p + [DASH] + Numbers.Digits(i) + [QUOTE]
  }

  lemma MarkerParts(p: bytes, s: bytes, k: nat)
    requires At(s, k, Marker(p))
    ensures s[k] == QUOTE && At(s, k + 1, p) && k + 1 + |p| < |s|
  {
    var m := Marker(p);
    var t := s[k..k + |m|];
    assert t == m && s[k] == t[0];
    forall j | 0 <= j < |p| ensures s[k + 1..k + 1 + |p|][j] == p[j] {
      assert s[k + 1 + j] == t[1 + j] == m[1 + j];
    }
  }

  // ----- Texts with holes -----

  datatype Spliced = End(run: bytes) | Cut(run: bytes, hole: nat, rest: Spliced)

  /** With every hole written as its placeholder. */
  function Stub(p: bytes, x: Spliced): bytes {
    match x
    case End(run) => run
    case Cut(run, i, rest) => run + (Token(p, i) + Stub(p, rest))
  }

  /** With every hole written as its literal. */
  function Fill(lits: seq<bytes>, x: Spliced): bytes {
    match x
    case End(run) => run
    case Cut(run, i, rest) => run + ((if i < |lits| then lits[i] else []) + Fill(lits, rest))
  }

  function Holes(x: Spliced): seq<nat> {
    match x
    case End(_) => []
    case Cut(_, i, rest) => [i] + Holes(rest)
  }

  // ----- Restoring -----

  /** `strconv.Atoi` on a short text: an optional sign and decimal digits. */
  function Atoi(s: bytes): Option<int> {
    var t := if s != [] && (s[0] == 0x2B || s[0] == 0x2D) then s[1..] else s;
    if t == [] || !Numbers.AllDigits(t) then None
    else
      var n: int := Numbers.DigitsValue(t);
      Some(if s[0] == 0x2D then -n else n)
  }

  datatype RestoreError = Unterminated | Unexpected(index: bytes) | Missing(i: nat) | Survived

  datatype Found = NoMarker | NoQuote | Hit(at: nat, index: bytes, after: bytes)

  /** The next marker in `rest`, the text up to its closing quote, and what follows. */
  function Find(p: bytes, rest: bytes): (f: Found)
    ensures f.Hit? ==> f.at <= |rest| && |f.after| < |rest|
  {
    match Index(rest, Marker(p))
    case None => NoMarker
    case Some(at) =>
      var tail := rest[at + |Marker(p)|..];
      match Index(tail, [QUOTE])
      case None => NoQuote
      case Some(end) => Hit(at, tail[..end], tail[end + 1..])
  }

  /** The hole a marker names, if there is one and it has not been filled. */
  function OpenHole(lits: seq<bytes>, filled: set<nat>, index: bytes): (i: Option<nat>)
    ensures i.Some? ==> i.value < |lits| && i.value !in filled
  {
    match Atoi(index)
    case None => None
    case Some(i) => if i < 0 || i >= |lits| || i in filled then None else Some(i)
  }

  /** The pass over the canonical text: literals put back so far in `out`, their
      indices in `filled`. */
  function RestoreLoop(p: bytes, lits: seq<bytes>, rest: bytes, filled: set<nat>, out: bytes)
    : Result<(bytes, set<nat>), RestoreError>
    decreases |rest|
  {
    match Find(p, rest)
    case NoMarker => Ok((out + rest, filled))
    case NoQuote => Err(Unterminated)
    case Hit(at, index, after) =>
      match OpenHole(lits, filled, index)
      case None => Err(Unexpected(index))
      case Some(i) => RestoreLoop(p, lits, after, filled + {i}, out + rest[..at] + lits[i])
  }

  function Restored(p: bytes, lits: seq<bytes>, canonical: bytes): Result<bytes, RestoreError> {
    match RestoreLoop(p, lits, canonical, {}, [])
    case Err(e) => Err(e)
    case Ok((out, filled)) =>
      if exists i: nat :: i < |lits| && i !in filled then Err(Missing(FirstMissing(lits, filled, 0)))
      else if Index(out, p).Some? then Err(Survived)
      else Ok(out)
  }

  function FirstMissing(lits: seq<bytes>, filled: set<nat>, i: nat): nat
    requires exists k: nat :: i <= k < |lits| && k !in filled
    decreases |lits| - i
  {
    if i !in filled then i else FirstMissing(lits, filled, i + 1)
  }

  /** The single forward pass over the canonicalized document. */
  method Restore(canonical: bytes, p: bytes, lits: seq<bytes>) returns (res: Result<bytes, RestoreError>)
    ensures res == Restored(p, lits, canonical)
  {
    hide Atoi, RestoreLoop, FirstMissing, Marker;
    var marker := Marker(p);
    var restored: bytes := [];
    var filled: set<nat> := {};
    var rest := canonical;
    while true
      invariant RestoreLoop(p, lits, rest, filled, restored) == RestoreLoop(p, lits, canonical, {}, [])
      decreases |rest|
    {
      LoopUnfold(p, lits, rest, filled, restored);
      var at := Index(rest, marker);
      if at.None? {
        break;
      }
      restored := restored + rest[..at.value];
      rest := rest[at.value + |marker|..];
      var end := Index(rest, [QUOTE]);
      if end.None? {
        return Err(Unterminated);
      }
      var i := Atoi(rest[..end.value]);
      if i.None? || i.value < 0 || i.value >= |lits| || i.value in filled {
        return Err(Unexpected(rest[..end.value]));
      }
      filled := filled + {i.value};
      restored := restored + lits[i.value];
      rest := rest[end.value + 1..];
    }
    LoopUnfold(p, lits, rest, filled, restored);
    restored := restored + rest;
    for i := 0 to |lits|
      invariant forall k: nat :: k < i ==> k in filled
    {
      if i !in filled {
        MissingIs(lits, filled, 0, i);
        return Err(Missing(i));
      }
    }
    if Index(restored, p).Some? {
      return Err(Survived);
    }
    return Ok(restored);
  }

  lemma {:induction false} LoopUnfold(p: bytes, lits: seq<bytes>, rest: bytes, filled: set<nat>, out: bytes)
    ensures RestoreLoop(p, lits, rest, filled, out) ==
            match Find(p, rest)
            case NoMarker => Ok((out + rest, filled))
            case NoQuote => Err(Unterminated)
            case Hit(at, index, after) =>
              match OpenHole(lits, filled, index)
              case None => Err(Unexpected(index))
              case Some(i) => RestoreLoop(p, lits, after, filled + {i}, out + rest[..at] + lits[i])
  {
    hide Find, OpenHole;
  }

  lemma {:induction false} MissingIs(lits: seq<bytes>, filled: set<nat>, i: nat, m: nat)
    requires i <= m < |lits| && m !in filled && forall k: nat :: i <= k < m ==> k in filled
    ensures FirstMissing(lits, filled, i) == m
    decreases m - i
  {
    if i < m { MissingIs(lits, filled, i + 1, m); }
  }

  // ----- Restoring undoes splicing exactly when the placeholder does not occur -----

  /** The pass ends in an error, or with the placeholder in what it has written. */
  ghost predicate Fails(p: bytes, lits: seq<bytes>, rest: bytes, filled: set<nat>, out: bytes) {
    match RestoreLoop(p, lits, rest, filled, out)
    case Err(_) => true
    case Ok((o, _)) => Occurs(p, o)
  }

  lemma {:induction false} OutGrows(p: bytes, lits: seq<bytes>, rest: bytes, filled: set<nat>, out: bytes)
    ensures var r := RestoreLoop(p, lits, rest, filled, out); r.Ok? ==> out <= r.value.0
    decreases |rest|
  {
    hide RestoreLoop, Find, OpenHole;
    LoopUnfold(p, lits, rest, filled, out);
    var f := Find(p, rest);
    if f.Hit? && OpenHole(lits, filled, f.index).Some? {
      var i := OpenHole(lits, filled, f.index).value;
      OutGrows(p, lits, f.after, filled + {i}, out + rest[..f.at] + lits[i]);
    }
  }

  lemma OutFails(p: bytes, lits: seq<bytes>, rest: bytes, filled: set<nat>, out: bytes)
    requires Occurs(p, out)
    ensures Fails(p, lits, rest, filled, out)
  {
    hide RestoreLoop, Occurs;
    OutGrows(p, lits, rest, filled, out);
    var r := RestoreLoop(p, lits, rest, filled, out);
    if r.Ok? {
      OccursInside(p, [], out, r.value.0[|out|..]);
      assert r.value.0 == [] + out + r.value.0[|out|..];
    }
  }

  /** A placeholder that has lost its opening quote is never replaced. */
  lemma {:induction false} LeftoverFails(p: bytes, lits: seq<bytes>, rest: bytes, filled: set<nat>, out: bytes)
    requires IsPlaceholder(p) && At(rest, 0, p)
    ensures Fails(p, lits, rest, filled, out)
  {
    hide *;
    LeftoverStays(p, rest, out);
    LoopUnfold(p, lits, rest, filled, out);
    FailsUnfold(p, lits, rest, filled, out);
    var f := Find(p, rest);
    if f.Hit? && OpenHole(lits, filled, f.index).Some? {
      var i := OpenHole(lits, filled, f.index).value;
      var out' := out + rest[..f.at] + lits[i];
      OccursBefore(p, out + rest[..f.at], lits[i]);
      OutFails(p, lits, f.after, filled + {i}, out');
      FailsUnfold(p, lits, f.after, filled + {i}, out');
    }
  }

  lemma {:induction false} FailsUnfold(p: bytes, lits: seq<bytes>, rest: bytes, filled: set<nat>, out: bytes)
    ensures var r := RestoreLoop(p, lits, rest, filled, out);
            Fails(p, lits, rest, filled, out) == (r.Err? || Occurs(p, r.value.0))
  {
  }

  /** The bytes before the next marker include a placeholder at the very start. */
  lemma LeftoverStays(p: bytes, rest: bytes, out: bytes)
    requires IsPlaceholder(p) && At(rest, 0, p)
    ensures Occurs(p, out + rest)
    ensures Find(p, rest).Hit? ==> Occurs(p, out + rest[..Find(p, rest).at])
  {
    assert At(out + rest, |out|, p);
    var f := Find(p, rest);
    if f.Hit? {
      MarkerParts(p, rest, f.at);
      AtBytes(rest, 0, p);
      assert f.at >= |p|;
      assert (out + rest[..f.at])[|out|..|out| + |p|] == rest[..|p|];
      assert At(out + rest[..f.at], |out|, p);
    }
  }

  /** The first `k` bytes of the first run dropped. */
  function DropRun(x: Spliced, k: nat): Spliced
    requires k <= |x.run|
  {
    match x
    case End(run) => End(run[k..])
    case Cut(run, i, rest) => Cut(run[k..], i, rest)
  }

  lemma DropRunStub(p: bytes, x: Spliced, k: nat)
    requires k <= |x.run|
    ensures k <= |Stub(p, x)| && Stub(p, DropRun(x, k)) == Stub(p, x)[k..] && Holes(DropRun(x, k)) == Holes(x)
  {
    if x.Cut? {
      var tail := Token(p, x.hole) + Stub(p, x.rest);
      assert Stub(p, x) == x.run + tail && Stub(p, DropRun(x, k)) == x.run[k..] + tail;
      hide *;
      DropLeft(x.run, tail, k);
    }
  }

  lemma DropLeft(a: bytes, b: bytes, k: nat)
    requires k <= |a|
    ensures (a + b)[k..] == a[k..] + b
  {
  }

  lemma TokenParts(p: bytes, i: nat)
    ensures Token(p, i) == Marker(p) + (Numbers.Digits(i) + [QUOTE])
    ensures Token(p, i)[0] == QUOTE && At(Token(p, i), 1, p)
  {
    var t := Token(p, i);
    assert t[1..1 + |p|] == p;
  }

  /** A marker inside the first run ends inside it. */
  lemma MarkerStaysInside(p: bytes, x: Spliced, k: nat)
    requires IsPlaceholder(p) && x.Cut? && k < |x.run| && At(Stub(p, x), k, Marker(p))
    ensures k + |Marker(p)| <= |x.run|
  {
    var s, m := Stub(p, x), Marker(p);
    TokenParts(p, x.hole);
    assert s[|x.run|] == QUOTE;
    AtBytes(s, k, m);
    assert forall j :: 0 < j < |m| ==> s[k + j] == m[j] != QUOTE;
    assert s[k + (|x.run| - k)] == QUOTE;
  }

  /** What a marker met before the next token leaves over. */
  lemma SpuriousRest(p: bytes, x: Spliced) returns (x': Spliced)
    requires IsPlaceholder(p) && Find(p, Stub(p, x)).Hit?
    requires x.Cut? ==> Find(p, Stub(p, x)).at < |x.run|
    ensures var after := Find(p, Stub(p, x)).after;
            || At(after, 0, p)
            || (after == Stub(p, x') && Holes(x') == Holes(x))
  {
    hide *;
    var s, f := Stub(p, x), Find(p, Stub(p, x));
    var from, end := HitShape(p, s);
    if x.Cut? { MarkerStaysInside(p, x, f.at); }
    x' := x;
    if from + end + 1 <= |x.run| {
      x' := DropRun(x, from + end + 1);
      DropRunStub(p, x, from + end + 1);
    } else {
      OpeningQuoteUsed(p, x, from, end);
    }
  }

  lemma HitShape(p: bytes, s: bytes) returns (from: nat, end: nat)
    requires Find(p, s).Hit?
    ensures At(s, Find(p, s).at, Marker(p)) && from == Find(p, s).at + |Marker(p)| <= |s|
    ensures Index(s[from..], [QUOTE]) == Some(end)
    ensures from + end + 1 <= |s| && Find(p, s).after == s[from + end + 1..]
  {
    hide Marker;
    from := Find(p, s).at + |Marker(p)|;
    end := Index(s[from..], [QUOTE]).value;
  }

  lemma QuoteAt(s: bytes, k: nat)
    requires k < |s| && s[k] == QUOTE
    ensures At(s, k, [QUOTE])
  {
  }

  /** The token's text stands right after the first run. */
  lemma TokenInStub(p: bytes, x: Spliced)
    requires x.Cut?
    ensures var s := Stub(p, x);
            && |x.run| + 1 + |p| <= |s| && s[|x.run|] == QUOTE && s[|x.run| + 1..][..|p|] == p
            && At(s, |x.run|, Marker(p))
  {
    hide *;
    StubLayout(p, x);
    TokenBehind(p, x.run, Numbers.Digits(x.hole) + [QUOTE] + Stub(p, x.rest));
  }

  lemma StubLayout(p: bytes, x: Spliced)
    requires x.Cut?
    ensures Stub(p, x) == x.run + ([QUOTE] + (p + ([DASH] + (Numbers.Digits(x.hole) + [QUOTE] + Stub(p, x.rest)))))
  {
    hide Numbers.Digits;
    var d, rest := Numbers.Digits(x.hole), Stub(p, x.rest);
    assert Stub(p, x) == x.run + (Token(p, x.hole) + rest);
    hide Stub;
    assert Token(p, x.hole) + rest == [QUOTE] + (p + ([DASH] + (d + [QUOTE] + rest)));
  }

  lemma TokenBehind(p: bytes, r: bytes, t: bytes)
    ensures var s := r + ([QUOTE] + (p + ([DASH] + t)));
            && |r| + 1 + |p| <= |s| && s[|r|] == QUOTE && s[|r| + 1..][..|p|] == p
            && At(s, |r|, Marker(p))
  {
    var s := r + ([QUOTE] + (p + ([DASH] + t)));
    assert s[|r| + 1..] == p + ([DASH] + t);
    assert s[|r|..|r| + |Marker(p)|] == Marker(p);
  }

  lemma OpeningQuoteUsed(p: bytes, x: Spliced, from: nat, end: nat)
    requires from <= |Stub(p, x)| && Index(Stub(p, x)[from..], [QUOTE]) == Some(end)
    requires from + end + 1 > |x.run| && (x.Cut? ==> from <= |x.run|)
    ensures from + end + 1 <= |Stub(p, x)| && At(Stub(p, x)[from + end + 1..], 0, p)
  {
    var s := Stub(p, x);
    var tail := s[from..];
    assert At(tail, end, [QUOTE]);
    assert x.Cut?;
    TokenInStub(p, x);
    hide Stub, Index, Marker;
    QuoteAt(tail, |x.run| - from);
    assert from + end == |x.run|;
  }

  /** A marker met before the next token makes the pass fail, or consumes an index and
      leaves the tokens ahead as they were. */
  lemma {:induction false} Spurious(p: bytes, lits: seq<bytes>, x: Spliced, filled: set<nat>, out: bytes)
    returns (i: nat, x': Spliced, out': bytes)
    requires IsPlaceholder(p) && Find(p, Stub(p, x)) != NoMarker
    requires x.Cut? && Find(p, Stub(p, x)).Hit? ==> Find(p, Stub(p, x)).at < |x.run|
    ensures Fails(p, lits, Stub(p, x), filled, out)
         || (&& i < |lits| && i !in filled && Holes(x') == Holes(x) && |Stub(p, x')| < |Stub(p, x)|
             && RestoreLoop(p, lits, Stub(p, x), filled, out) == RestoreLoop(p, lits, Stub(p, x'), filled + {i}, out'))
  {
    hide *;
    var s := Stub(p, x);
    i, x', out' := 0, x, out;
    LoopUnfold(p, lits, s, filled, out);
    FailsUnfold(p, lits, s, filled, out);
    var f := Find(p, s);
    if f.Hit? && OpenHole(lits, filled, f.index).Some? {
      i := OpenHole(lits, filled, f.index).value;
      out' := out + s[..f.at] + lits[i];
      x' := SpuriousRest(p, x);
      if At(f.after, 0, p) {
        LeftoverFails(p, lits, f.after, filled + {i}, out');
        FailsUnfold(p, lits, f.after, filled + {i}, out');
      }
    }
  }

  lemma DigitsEnd(n: nat, rest: bytes)
    ensures Index(Numbers.Digits(n) + ([QUOTE] + rest), [QUOTE]) == Some(|Numbers.Digits(n)|)
    ensures Atoi(Numbers.Digits(n)) == Some(n)
  {
    var d := Numbers.Digits(n);
    var s := d + ([QUOTE] + rest);
    assert s[|d|..|d| + 1] == [QUOTE];
    assert At(s, |d|, [QUOTE]);
    forall k: nat | k < |d| ensures !At(s, k, [QUOTE]) {
      assert IsDigit(d[k]) && s[k] != QUOTE;
      if At(s, k, [QUOTE]) { AtBytes(s, k, [QUOTE]); }
    }
    assert IsDigit(d[0]);
    Numbers.DigitsRoundTrip(n);
  }

  lemma Layout(run: bytes, m: bytes, d: bytes, rest: bytes)
    ensures (run + ((m + (d + [QUOTE])) + rest))[|run| + |m|..] == d + ([QUOTE] + rest)
  {
  }

  lemma AfterQuote(d: bytes, rest: bytes)
    ensures var tail := d + ([QUOTE] + rest); tail[..|d|] == d && tail[|d| + 1..] == rest
  {
  }

  /** The next token is found, when no marker comes before it. */
  lemma FindToken(p: bytes, x: Spliced)
    requires x.Cut? && Index(Stub(p, x), Marker(p)) == Some(|x.run|)
    ensures Find(p, Stub(p, x)) == Hit(|x.run|, Numbers.Digits(x.hole), Stub(p, x.rest))
  {
    hide Index, Atoi, Stub, Marker, Token, Numbers.Digits, Numbers.AllDigits;
    StubToken(p, x);
    var d, rest := Numbers.Digits(x.hole), Stub(p, x.rest);
    DigitsEnd(x.hole, rest);
    Layout(x.run, Marker(p), d, rest);
    AfterQuote(d, rest);
  }

  lemma StubToken(p: bytes, x: Spliced)
    requires x.Cut?
    ensures Stub(p, x) == x.run + ((Marker(p) + (Numbers.Digits(x.hole) + [QUOTE])) + Stub(p, x.rest))
  {
    TokenParts(p, x.hole);
  }

  /** When the next marker is the next token's, the pass puts back its literal. */
  lemma {:induction false} TokenStep(p: bytes, lits: seq<bytes>, x: Spliced, filled: set<nat>, out: bytes)
    requires x.Cut? && Find(p, Stub(p, x)) == Hit(|x.run|, Numbers.Digits(x.hole), Stub(p, x.rest))
    ensures var r := RestoreLoop(p, lits, Stub(p, x), filled, out);
            if x.hole >= |lits| || x.hole in filled then r.Err?
            else r == RestoreLoop(p, lits, Stub(p, x.rest), filled + {x.hole}, out + x.run + lits[x.hole])
  {
    hide RestoreLoop, Find, Atoi;
    var s := Stub(p, x);
    LoopUnfold(p, lits, s, filled, out);
    DigitsEnd(x.hole, []);
    assert s[..|x.run|] == x.run;
  }

  /** The next marker is the next token's, or one inside the run before it. */
  lemma MarkerAtToken(p: bytes, x: Spliced)
    requires IsPlaceholder(p) && x.Cut?
    ensures var f, k := Find(p, Stub(p, x)), Index(Stub(p, x), Marker(p));
            k.Some? && k.value <= |x.run| &&
            if k.value == |x.run| then f == Hit(|x.run|, Numbers.Digits(x.hole), Stub(p, x.rest))
            else f != NoMarker && (f.Hit? ==> f.at == k.value)
  {
    hide Stub, Marker;
    TokenInStub(p, x);
    if Index(Stub(p, x), Marker(p)).value == |x.run| { FindToken(p, x); }
  }

  /** A hole whose index has already been used up makes the pass fail. */
  lemma {:induction false} LateHole(p: bytes, lits: seq<bytes>, x: Spliced, filled: set<nat>, out: bytes, h: nat)
    requires IsPlaceholder(p) && h in filled && h in Holes(x)
    ensures Fails(p, lits, Stub(p, x), filled, out)
    decreases |Stub(p, x)|
  {
    hide *;
    HolesHead(p, x, h);
    MarkerAtToken(p, x);
    FailsUnfold(p, lits, Stub(p, x), filled, out);
    if Find(p, Stub(p, x)) == Hit(|x.run|, Numbers.Digits(x.hole), Stub(p, x.rest)) {
      TokenStep(p, lits, x, filled, out);
      if x.hole < |lits| && x.hole !in filled {
        var out' := out + x.run + lits[x.hole];
        LateHole(p, lits, x.rest, filled + {x.hole}, out', h);
        FailsUnfold(p, lits, Stub(p, x.rest), filled + {x.hole}, out');
      }
    } else {
      var i, x', out' := Spurious(p, lits, x, filled, out);
      if !Fails(p, lits, Stub(p, x), filled, out) {
        LateHole(p, lits, x', filled + {i}, out', h);
        FailsUnfold(p, lits, Stub(p, x'), filled + {i}, out');
      }
    }
  }

  lemma HolesHead(p: bytes, x: Spliced, h: nat)
    requires h in Holes(x)
    ensures x.Cut? && (h == x.hole || h in Holes(x.rest)) && |Stub(p, x.rest)| < |Stub(p, x)|
  {
  }

  ghost predicate RunHas(p: bytes, x: Spliced) {
    Occurs(p, x.run) || (x.Cut? && RunHas(p, x.rest))
  }

  /** A placeholder among the runs makes the pass fail, once every index is spoken for. */
  lemma {:induction false} DirtyRun(p: bytes, lits: seq<bytes>, x: Spliced, filled: set<nat>, out: bytes)
    requires IsPlaceholder(p) && RunHas(p, x)
    requires forall i: nat :: i < |lits| ==> i in filled || i in Holes(x)
    ensures Fails(p, lits, Stub(p, x), filled, out)
    decreases x
  {
    hide RestoreLoop, Find, Index, Marker, IsPlaceholder, Token, Occurs, Fails, OpenHole;
    var f := Find(p, Stub(p, x));
    if x.Cut? { MarkerAtToken(p, x); }
    FailsUnfold(p, lits, Stub(p, x), filled, out);
    if f == NoMarker {
      LoopUnfold(p, lits, Stub(p, x), filled, out);
      OccursInside(p, out, x.run, []);
      assert out + x.run + [] == out + x.run;
    } else if x.Cut? && f == Hit(|x.run|, Numbers.Digits(x.hole), Stub(p, x.rest)) {
      TokenStep(p, lits, x, filled, out);
      if x.hole < |lits| && x.hole !in filled {
        var out' := out + x.run + lits[x.hole];
        if Occurs(p, x.run) {
          OccursInside(p, out, x.run, lits[x.hole]);
          OutFails(p, lits, Stub(p, x.rest), filled + {x.hole}, out');
        } else {
          DirtyRun(p, lits, x.rest, filled + {x.hole}, out');
        }
        FailsUnfold(p, lits, Stub(p, x.rest), filled + {x.hole}, out');
      }
    } else {
      var i, x', out' := Spurious(p, lits, x, filled, out);
      if !Fails(p, lits, Stub(p, x), filled, out) {
        LateHole(p, lits, x', filled + {i}, out', i);
        FailsUnfold(p, lits, Stub(p, x'), filled + {i}, out');
      }
    }
  }

  lemma NextMarker(p: bytes, x: Spliced)
    requires IsPlaceholder(p) && !Occurs(p, x.run)
    ensures Find(p, Stub(p, x)) ==
            if x.Cut? then Hit(|x.run|, Numbers.Digits(x.hole), Stub(p, x.rest)) else NoMarker
  {
    var s := Stub(p, x);
    if x.Cut? { MarkerAtToken(p, x); }
    var k := Index(s, Marker(p));
    if k.Some? && k.value < |x.run| {
      if x.Cut? { MarkerStaysInside(p, x, k.value); }
      MarkerParts(p, s, k.value);
      PrefixAt(x.run, s, k.value + 1, p);
    }
  }

  lemma PrefixAt(a: bytes, s: bytes, k: nat, pat: bytes)
    requires a <= s && k + |pat| <= |a| && At(s, k, pat)
    ensures Occurs(pat, a)
  {
    assert a[k..k + |pat|] == s[k..k + |pat|];
    assert At(a, k, pat);
  }

  lemma {:induction false} CleanRuns(p: bytes, lits: seq<bytes>, x: Spliced, filled: set<nat>, out: bytes)
    requires IsPlaceholder(p) && !RunHas(p, x)
    requires forall i :: i in Holes(x) ==> i < |lits| && i !in filled && multiset(Holes(x))[i] == 1
    ensures RestoreLoop(p, lits, Stub(p, x), filled, out) ==
            Ok((out + Fill(lits, x), filled + (set i | i in Holes(x))))
    decreases x
  {
    hide *;
    CleanRun(p, x);
    NextMarker(p, x);
    if x.Cut? {
      TokenStep(p, lits, x, filled, out);
      HolesStep(x);
      HoleSet(x, filled);
      var more := out + x.run + lits[x.hole];
      CleanRuns(p, lits, x.rest, filled + {x.hole}, more);
      FillStep(lits, x, out);
    } else {
      LoopUnfold(p, lits, Stub(p, x), filled, out);
      LastRun(p, lits, x, filled);
    }
  }

  lemma CleanRun(p: bytes, x: Spliced)
    requires !RunHas(p, x)
    ensures !Occurs(p, x.run) && (x.Cut? ==> !RunHas(p, x.rest))
  {
    hide Occurs;
  }

  lemma HoleSet(x: Spliced, filled: set<nat>)
    requires x.Cut?
    ensures filled + {x.hole} + (set i | i in Holes(x.rest)) == filled + (set i | i in Holes(x))
  {
    assert forall i :: i in Holes(x) <==> i == x.hole || i in Holes(x.rest);
  }

  lemma FillStep(lits: seq<bytes>, x: Spliced, out: bytes)
    requires x.Cut? && x.hole < |lits|
    ensures out + x.run + lits[x.hole] + Fill(lits, x.rest) == out + Fill(lits, x)
  {
    Regroup(out, x.run, lits[x.hole], Fill(lits, x.rest));
  }

  lemma Regroup(a: bytes, b: bytes, c: bytes, d: bytes)
    ensures a + b + c + d == a + (b + (c + d))
  {
  }

  lemma LastRun(p: bytes, lits: seq<bytes>, x: Spliced, filled: set<nat>)
    requires x.End?
    ensures Stub(p, x) == x.run == Fill(lits, x) && filled + (set i | i in Holes(x)) == filled
  {
    assert Holes(x) == [];
  }

  lemma HolesStep(x: Spliced)
    requires x.Cut? && forall i :: i in Holes(x) ==> multiset(Holes(x))[i] == 1
    ensures x.hole in Holes(x)
    ensures forall i :: i in Holes(x.rest) ==> i in Holes(x) && i != x.hole && multiset(Holes(x.rest))[i] == 1
  {
    assert multiset(Holes(x)) == multiset{x.hole} + multiset(Holes(x.rest));
    forall i | i in Holes(x.rest) ensures i in Holes(x) && i != x.hole && multiset(Holes(x.rest))[i] == 1 {
      assert i in multiset(Holes(x.rest));
      assert i in Holes(x);
    }
  }

  lemma {:induction false} RunInFill(p: bytes, lits: seq<bytes>, x: Spliced)
    requires RunHas(p, x)
    ensures Occurs(p, Fill(lits, x))
  {
    hide Occurs;
    if x.End? {
    } else if Occurs(p, x.run) {
      OccursInside(p, [], x.run, (if x.hole < |lits| then lits[x.hole] else []) + Fill(lits, x.rest));
      assert Fill(lits, x) == [] + x.run + ((if x.hole < |lits| then lits[x.hole] else []) + Fill(lits, x.rest));
    } else {
      RunInFill(p, lits, x.rest);
      var lit := if x.hole < |lits| then lits[x.hole] else [];
      OccursInside(p, x.run + lit, Fill(lits, x.rest), []);
      assert Fill(lits, x) == (x.run + lit) + Fill(lits, x.rest) + [];
    }
  }

  /** Every index below `n`, once each, in any order. */
  ghost predicate Exactly(holes: seq<nat>, n: nat) {
    forall i: nat :: multiset(holes)[i] == if i < n then 1 else 0
  }

  /** However the tokens were moved about, restoring puts every literal back at its own
      token, unless the result would contain the placeholder: then it refuses. */
  lemma RestoreExact(p: bytes, lits: seq<bytes>, x: Spliced)
    requires IsPlaceholder(p) && Exactly(Holes(x), |lits|)
    ensures Occurs(p, Fill(lits, x)) ==> Restored(p, lits, Stub(p, x)).Err?
    ensures !Occurs(p, Fill(lits, x)) ==> Restored(p, lits, Stub(p, x)) == Ok(Fill(lits, x))
  {
    hide RestoreLoop, Index, Marker, IsPlaceholder, Token, Occurs, Stub, Fill;
    forall i: nat ensures i < |lits| <==> i in Holes(x) {
      assert multiset(Holes(x))[i] == if i < |lits| then 1 else 0;
      assert i in multiset(Holes(x)) <==> i in Holes(x);
    }
    if RunHas(p, x) {
      RunInFill(p, lits, x);
      DirtyRun(p, lits, x, {}, []);
      FailsIsErr(p, lits, x);
    } else {
      CleanRuns(p, lits, x, {}, []);
      assert [] + Fill(lits, x) == Fill(lits, x);
      IndexFinds(Fill(lits, x), p);
    }
  }

  lemma IndexFinds(s: bytes, pat: bytes)
    ensures Index(s, pat).Some? <==> Occurs(pat, s)
  {
  }

  lemma FailsIsErr(p: bytes, lits: seq<bytes>, x: Spliced)
    requires Fails(p, lits, Stub(p, x), {}, [])
    ensures Restored(p, lits, Stub(p, x)).Err?
  {
    hide RestoreLoop, Index, Stub, Occurs;
    var r := RestoreLoop(p, lits, Stub(p, x), {}, []);
    if r.Ok? { IndexFinds(r.value.0, p); }
  }
}
