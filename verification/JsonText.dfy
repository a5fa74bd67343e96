/**
 JSON text (RFC 8259): a concrete syntax tree that keeps white space and string
 spelling, its text, and a parser that is the exact inverse of that text.
 */
module JsonText {
  import opened Bytes

  const QUOTE: byte := 0x22
  const BACKSLASH: byte := 0x5C
  const COMMA: byte := 0x2C
  const COLON: byte := 0x3A
  const OPEN_ARRAY: byte := 0x5B
  const CLOSE_ARRAY: byte := 0x5D
  const OPEN_OBJECT: byte := 0x7B
  const CLOSE_OBJECT: byte := 0x7D

  const NULL: bytes := [0x6E, 0x75, 0x6C, 0x6C]
  const TRUE: bytes := [0x74, 0x72, 0x75, 0x65]
  const FALSE: bytes := [0x66, 0x61, 0x6C, 0x73, 0x65]

  // ----- Concrete syntax -----

  /** A value as spelled: `raw` is what stands between the quotes of a string,
      `gap` the white space inside an empty array or object. */
  datatype Doc =
    | Null
    | Bool(b: bool)
    | Num(lit: bytes)
    | Str(raw: bytes)
    | Arr(elems: seq<Elem>, gap: bytes)
    | Obj(members: seq<Member>, gap: bytes)

  datatype Elem = Elem(pre: bytes, val: Doc, post: bytes)

  /** A member's name with the white space around it; the colon follows. */
  datatype Key = Key(pre: bytes, raw: bytes, mid: bytes)

  datatype Member = Member(key: Key, elem: Elem)

  function Text(d: Doc): bytes
    decreases d, 0
  {
    match d
    case Null => NULL
    case Bool(b) => if b then TRUE else FALSE
    case Num(lit) => lit
    case Str(raw) => [QUOTE] + raw + [QUOTE]
    case Arr(es, gap) => [OPEN_ARRAY] + (if es == [] then gap + [CLOSE_ARRAY] else ElemsText(es))
    case Obj(ms, gap) => [OPEN_OBJECT] + (if ms == [] then gap + [CLOSE_OBJECT] else MembersText(ms))
  }

  function ElemText(e: Elem): bytes
    decreases e, 1
  {
    e.pre + Text(e.val) + e.post
  }

  /** The elements with their separators, up to and including the bracket. */
  function ElemsText(es: seq<Elem>): bytes
    requires es != []
    decreases es, 2
  {
    ElemText(es[0]) + if |es| == 1 then [CLOSE_ARRAY] else [COMMA] + ElemsText(es[1..])
  }

  function KeyText(k: Key): bytes
  {
    k.pre + ([QUOTE] + k.raw + [QUOTE] + (k.mid + [COLON]))
  }

  function MemberText(m: Member): bytes
    decreases m, 2
  {
    KeyText(m.key) + ElemText(m.elem)
  }

  function MembersText(ms: seq<Member>): bytes
    requires ms != []
    decreases ms, 3
  {
    MemberText(ms[0]) + if |ms| == 1 then [CLOSE_OBJECT] else [COMMA] + MembersText(ms[1..])
  }

  // ----- Lexical grammar -----

  predicate IsSpace(b: byte) {
    b == 0x20 || b == 0x09 || b == 0x0A || b == 0x0D
  }

  predicate IsDigit(b: byte) {
    0x30 <= b <= 0x39
  }

  predicate IsHex(b: byte) {
    IsDigit(b) || 0x41 <= b <= 0x46 || 0x61 <= b <= 0x66
  }

  predicate IsNumByte(b: byte) {
    IsDigit(b) || b == 0x2B || b == 0x2D || b == 0x2E || b == 0x45 || b == 0x65
  }

  function CountWhile(s: bytes, p: byte -> bool): (n: nat)
    ensures n <= |s|
    ensures forall i :: 0 <= i < n ==> p(s[i])
    ensures n < |s| ==> !p(s[n])
  {
    if s != [] && p(s[0]) then 1 + CountWhile(s[1..], p) else 0
  }

  lemma {:induction false} CountWhileExact(a: bytes, rest: bytes, p: byte -> bool)
    requires forall i :: 0 <= i < |a| ==> p(a[i])
    requires rest != [] ==> !p(rest[0])
    ensures CountWhile(a + rest, p) == |a|
  {
    if a == [] {
      assert a + rest == rest;
    } else {
      CountWhileExact(a[1..], rest, p);
      assert (a + rest)[1..] == a[1..] + rest;
    }
  }

  predicate Blank(s: bytes) {
    forall i :: 0 <= i < |s| ==> IsSpace(s[i])
  }

  /** int [ frac ] [ exp ], RFC 8259 section 6. */
  predicate IsNumber(lit: bytes) {
    && (forall i :: 0 <= i < |lit| ==> IsNumByte(lit[i]))
    && var s := if lit != [] && lit[0] == 0x2D then lit[1..] else lit;
       var n := CountWhile(s, IsDigit);
       && n >= 1
       && (s[0] == 0x30 ==> n == 1)
       && IsFraction(s[n..])
  }

  predicate IsFraction(s: bytes) {
    if s != [] && s[0] == 0x2E then
      var n := CountWhile(s[1..], IsDigit);
      n >= 1 && IsExponent(s[1 + n..])
    else IsExponent(s)
  }

  predicate IsExponent(s: bytes) {
    s == []
    || (&& (s[0] == 0x45 || s[0] == 0x65)
        && var t := if |s| > 1 && (s[1] == 0x2B || s[1] == 0x2D) then s[2..] else s[1..];
           t != [] && CountWhile(t, IsDigit) == |t|)
  }

  predicate IsShortEscape(b: byte) {
    b == QUOTE || b == BACKSLASH || b == 0x2F || b == 0x62 || b == 0x66 || b == 0x6E || b == 0x72 || b == 0x74
  }

  /** How many bytes the next character of a spelled string takes: 0 if there is
      none, or it is the closing quote, a control byte or a bad escape. */
  function SpellLen(s: bytes): (n: nat)
    ensures n <= |s|
  {
    if s == [] || s[0] == QUOTE || s[0] < 0x20 then 0
    else if s[0] != BACKSLASH then 1
    else if |s| >= 2 && IsShortEscape(s[1]) then 2
    else if |s| >= 6 && s[1] == 0x75 && forall i :: 2 <= i < 6 ==> IsHex(s[i]) then 6
    else 0
  }

  predicate WellSpelled(raw: bytes)
  {
    raw == [] || (SpellLen(raw) > 0 && WellSpelled(raw[SpellLen(raw)..]))
  }

  /** What stands before the closing quote. */
  function SpellCount(s: bytes): (n: nat)
    ensures n <= |s|
  {
    var n := SpellLen(s);
    if n == 0 then 0 else n + SpellCount(s[n..])
  }

  // ----- Well-formed trees -----

  predicate WellFormed(d: Doc)
    decreases d, 0
  {
    match d
    case Null => true
    case Bool(_) => true
    case Num(lit) => IsNumber(lit)
    case Str(raw) => WellSpelled(raw)
    case Arr(es, gap) => Blank(gap) && (es != [] ==> gap == []) && ElemsWellFormed(es)
    case Obj(ms, gap) => Blank(gap) && (ms != [] ==> gap == []) && MembersWellFormed(ms)
  }

  predicate ElemWellFormed(e: Elem)
    decreases e, 1
  {
    Blank(e.pre) && Blank(e.post) && WellFormed(e.val)
  }

  predicate ElemsWellFormed(es: seq<Elem>)
    decreases es, 2
  {
    es == [] || (ElemWellFormed(es[0]) && ElemsWellFormed(es[1..]))
  }

  predicate MemberWellFormed(m: Member)
    decreases m, 2
  {
    KeyWellFormed(m.key) && ElemWellFormed(m.elem)
  }

  predicate KeyWellFormed(k: Key) {
    Blank(k.pre) && WellSpelled(k.raw) && Blank(k.mid)
  }

  predicate MembersWellFormed(ms: seq<Member>)
    decreases ms, 3
  {
    ms == [] || (MemberWellFormed(ms[0]) && MembersWellFormed(ms[1..]))
  }

  // ----- Parser -----

  function SkipSpace(s: bytes): (r: (bytes, bytes))
    ensures s == r.0 + r.1 && Blank(r.0) && (r.1 != [] ==> !IsSpace(r.1[0]))
  {
    var n := CountWhile(s, IsSpace);
    (s[..n], s[n..])
  }

  function ParseString(s: bytes): (r: Option<(bytes, bytes)>)
    requires s != []
    ensures r.Some? ==> |r.value.1| < |s|
  {
    if s[0] != QUOTE then None
    else
      var n := 1 + SpellCount(s[1..]);
      if n < |s| && s[n] == QUOTE then Some((s[1..n], s[n + 1..])) else None
  }

  function ParseScalar(s: bytes): (r: Option<(Doc, bytes)>)
    ensures r.Some? ==> |r.value.1| < |s|
  {
    if NULL <= s then Some((Null, s[4..]))
    else if TRUE <= s then Some((Bool(true), s[4..]))
    else if FALSE <= s then Some((Bool(false), s[5..]))
    else
      var n := CountWhile(s, IsNumByte);
      if IsNumber(s[..n]) && n > 0 then Some((Num(s[..n]), s[n..])) else None
  }

  /** The value at the start of `s`, which must not be white space, and the rest. */
  function Parse(s: bytes): (r: Option<(Doc, bytes)>)
    ensures r.Some? ==> |r.value.1| < |s|
    decreases |s|, 0
  {
    if s == [] then None
    else if s[0] == QUOTE then
      match ParseString(s)
      case None => None
      case Some((raw, rest)) => Some((Str(raw), rest))
    else if s[0] == OPEN_ARRAY then ParseArray(s[1..])
    else if s[0] == OPEN_OBJECT then ParseObject(s[1..])
    else ParseScalar(s)
  }

  /** An array whose opening bracket has been read. */
  function ParseArray(s: bytes): (r: Option<(Doc, bytes)>)
    ensures r.Some? ==> |r.value.1| < |s|
    decreases |s|, 3
  {
    var (gap, rest) := SkipSpace(s);
    if rest != [] && rest[0] == CLOSE_ARRAY then Some((Arr([], gap), rest[1..]))
    else
      match ParseElems(s)
      case None => None
      case Some((es, rest)) => Some((Arr(es, []), rest))
  }

  function ParseObject(s: bytes): (r: Option<(Doc, bytes)>)
    ensures r.Some? ==> |r.value.1| < |s|
    decreases |s|, 4
  {
    var (gap, rest) := SkipSpace(s);
    if rest != [] && rest[0] == CLOSE_OBJECT then Some((Obj([], gap), rest[1..]))
    else
      match ParseMembers(s)
      case None => None
      case Some((ms, rest)) => Some((Obj(ms, []), rest))
  }

  function ParseElem(s: bytes): (r: Option<(Elem, bytes)>)
    ensures r.Some? ==> |r.value.1| < |s|
    decreases |s|, 1
  {
    var (pre, s1) := SkipSpace(s);
    match Parse(s1)
    case None => None
    case Some((val, s2)) =>
      var (post, s3) := SkipSpace(s2);
      Some((Elem(pre, val, post), s3))
  }

  function ParseElems(s: bytes): (r: Option<(seq<Elem>, bytes)>)
    ensures r.Some? ==> |r.value.1| < |s| && r.value.0 != []
    decreases |s|, 2
  {
    match ParseElem(s)
    case None => None
    case Some((e, rest)) =>
      if rest == [] then None
      else if rest[0] == CLOSE_ARRAY then Some(([e], rest[1..]))
      else if rest[0] != COMMA then None
      else
        match ParseElems(rest[1..])
        case None => None
        case Some((es, end)) => Some(([e] + es, end))
  }

  function ParseKey(s: bytes): (r: Option<(Key, bytes)>)
    ensures r.Some? ==> |r.value.1| < |s|
  {
    var (pre, s1) := SkipSpace(s);
    if s1 == [] then None
    else
      match ParseString(s1)
      case None => None
      case Some((key, s2)) =>
        var (mid, s3) := SkipSpace(s2);
        if s3 == [] || s3[0] != COLON then None else Some((Key(pre, key, mid), s3[1..]))
  }

  function ParseMember(s: bytes): (r: Option<(Member, bytes)>)
    ensures r.Some? ==> |r.value.1| < |s|
    decreases |s|, 2
  {
    match ParseKey(s)
    case None => None
    case Some((k, rest)) =>
      match ParseElem(rest)
      case None => None
      case Some((e, end)) => Some((Member(k, e), end))
  }

  function ParseMembers(s: bytes): (r: Option<(seq<Member>, bytes)>)
    ensures r.Some? ==> |r.value.1| < |s| && r.value.0 != []
    decreases |s|, 3
  {
    match ParseMember(s)
    case None => None
    case Some((m, rest)) =>
      if rest == [] then None
      else if rest[0] == CLOSE_OBJECT then Some(([m], rest[1..]))
      else if rest[0] != COMMA then None
      else
        match ParseMembers(rest[1..])
        case None => None
        case Some((ms, end)) => Some(([m] + ms, end))
  }

  // ----- The parser undoes the text -----

  lemma SkipSpaceExact(a: bytes, rest: bytes)
    requires Blank(a) && (rest != [] ==> !IsSpace(rest[0]))
    ensures SkipSpace(a + rest) == (a, rest)
  {
    CountWhileExact(a, rest, IsSpace);
  }

  lemma SpellLenPrefix(a: bytes, b: bytes)
    requires SpellLen(a) > 0
    ensures SpellLen(a + b) == SpellLen(a)
  {
    var s := a + b;
    assert forall i :: 0 <= i < |a| ==> s[i] == a[i];
  }

  lemma {:induction false} SpellCountExact(raw: bytes, rest: bytes)
    requires WellSpelled(raw)
    ensures SpellCount(raw + [QUOTE] + rest) == |raw|
  {
    var tail := [QUOTE] + rest;
    assert raw + [QUOTE] + rest == raw + tail;
    if raw == [] {
      assert raw + tail == tail;
    } else {
      var n := SpellLen(raw);
      SpellLenPrefix(raw, tail);
      SpellCountExact(raw[n..], rest);
      assert (raw + tail)[n..] == raw[n..] + [QUOTE] + rest;
    }
  }

  lemma ParseStringExact(raw: bytes, rest: bytes)
    requires WellSpelled(raw)
    ensures ParseString([QUOTE] + raw + [QUOTE] + rest) == Some((raw, rest))
  {
    hide WellSpelled, SpellCount;
    SpellCountExact(raw, rest);
    QuotedParts(raw, rest);
  }

  lemma QuotedParts(raw: bytes, rest: bytes)
    ensures var s := [QUOTE] + raw + [QUOTE] + rest;
            && |s| == |raw| + 2 + |rest| && s[0] == QUOTE && s[1..] == raw + [QUOTE] + rest
            && s[1 + |raw|] == QUOTE && s[1..1 + |raw|] == raw && s[|raw| + 2..] == rest
  {
  }

  /** What may follow a value: nothing that a number would swallow. */
  predicate EndsNumber(rest: bytes) {
    rest == [] || !IsNumByte(rest[0])
  }

  predicate EndsElem(rest: bytes) {
    EndsNumber(rest) && (rest == [] || !IsSpace(rest[0]))
  }

  /** `rest` begins where reading `e` stops. */
  predicate Follows(e: Elem, rest: bytes) {
    && (rest == [] || !IsSpace(rest[0]))
    && (e.val.Num? && e.post == [] ==> EndsNumber(rest))
  }

  lemma {:induction false} ParseExact(d: Doc, rest: bytes)
    requires WellFormed(d) && (d.Num? ==> EndsNumber(rest))
    ensures Parse(Text(d) + rest) == Some((d, rest))
    decreases d, 0
  {
    match d
    case Null => WordExact(d, rest);
    case Bool(b) => WordExact(d, rest);
    case Num(lit) => NumExact(lit, rest);
    case Str(raw) => StrExact(raw, rest);
    case Arr(es, gap) =>
      if es == [] {
        EmptyArrayExact(gap, rest);
      } else {
        ElemsDoNotClose(es, rest);
        ParseElemsExact(es, rest);
        ArrayExact(es, rest);
      }
    case Obj(ms, gap) =>
      if ms == [] {
        EmptyObjectExact(gap, rest);
      } else {
        MembersDoNotClose(ms, rest);
        ParseMembersExact(ms, rest);
        ObjectExact(ms, rest);
      }
  }

  lemma WordExact(d: Doc, rest: bytes)
    requires d.Null? || d.Bool?
    ensures Parse(Text(d) + rest) == Some((d, rest))
  {
    var w, s := Text(d), Text(d) + rest;
    assert w <= s && s[|w|..] == rest;
    if d == Bool(true) { assert s[0] != NULL[0]; }
    if d == Bool(false) { assert s[0] != NULL[0] && s[0] != TRUE[0]; }
  }

  lemma NumExact(lit: bytes, rest: bytes)
    requires IsNumber(lit) && EndsNumber(rest)
    ensures Parse(lit + rest) == Some((Num(lit), rest))
  {
    hide *;
    NumberBytes(lit);
    NumberScalar(lit, rest);
    ScalarParsed(lit + rest);
  }

  lemma NumberBytes(lit: bytes)
    requires IsNumber(lit)
    ensures lit != [] && forall i :: 0 <= i < |lit| ==> IsNumByte(lit[i])
  {
    hide IsFraction;
  }

  lemma NumberScalar(lit: bytes, rest: bytes)
    requires IsNumber(lit) && EndsNumber(rest) && lit != [] && forall i :: 0 <= i < |lit| ==> IsNumByte(lit[i])
    ensures ParseScalar(lit + rest) == Some((Num(lit), rest))
    ensures var s := lit + rest; s != [] && IsNumByte(s[0])
  {
    hide IsNumber, CountWhile;
    var s := lit + rest;
    CountWhileExact(lit, rest, IsNumByte);
    assert s[..|lit|] == lit && s[|lit|..] == rest && s[0] == lit[0];
    assert s[0] != NULL[0] && s[0] != TRUE[0] && s[0] != FALSE[0];
  }

  lemma ScalarParsed(s: bytes)
    requires s != [] && IsNumByte(s[0])
    ensures Parse(s) == ParseScalar(s)
  {
    hide ParseScalar, ParseString, ParseArray, ParseObject;
  }

  lemma StrExact(raw: bytes, rest: bytes)
    requires WellSpelled(raw)
    ensures Parse(Text(Str(raw)) + rest) == Some((Str(raw), rest))
  {
    ParseStringExact(raw, rest);
  }

  lemma EmptyArrayExact(gap: bytes, rest: bytes)
    requires Blank(gap)
    ensures Parse(Text(Arr([], gap)) + rest) == Some((Arr([], gap), rest))
  {
    SkipSpaceExact(gap, [CLOSE_ARRAY] + rest);
    assert Text(Arr([], gap)) + rest == [OPEN_ARRAY] + (gap + ([CLOSE_ARRAY] + rest));
  }

  lemma EmptyObjectExact(gap: bytes, rest: bytes)
    requires Blank(gap)
    ensures Parse(Text(Obj([], gap)) + rest) == Some((Obj([], gap), rest))
  {
    SkipSpaceExact(gap, [CLOSE_OBJECT] + rest);
    assert Text(Obj([], gap)) + rest == [OPEN_OBJECT] + (gap + ([CLOSE_OBJECT] + rest));
  }

  lemma ArrayExact(es: seq<Elem>, rest: bytes)
    requires es != []
    requires var after := SkipSpace(ElemsText(es) + rest).1; after != [] && after[0] != CLOSE_ARRAY
    requires ParseElems(ElemsText(es) + rest) == Some((es, rest))
    ensures Parse(Text(Arr(es, [])) + rest) == Some((Arr(es, []), rest))
  {
    hide SkipSpace, ParseElems, ElemsText;
    assert Text(Arr(es, [])) + rest == [OPEN_ARRAY] + (ElemsText(es) + rest);
  }

  lemma ObjectExact(ms: seq<Member>, rest: bytes)
    requires ms != []
    requires var after := SkipSpace(MembersText(ms) + rest).1; after != [] && after[0] != CLOSE_OBJECT
    requires ParseMembers(MembersText(ms) + rest) == Some((ms, rest))
    ensures Parse(Text(Obj(ms, [])) + rest) == Some((Obj(ms, []), rest))
  {
    hide SkipSpace, ParseMembers, MembersText;
    assert Text(Obj(ms, [])) + rest == [OPEN_OBJECT] + (MembersText(ms) + rest);
  }

  lemma TextStart(d: Doc)
    requires WellFormed(d)
    ensures Text(d) != [] && !IsSpace(Text(d)[0]) && Text(d)[0] != CLOSE_ARRAY
  {
    if d.Num? { assert IsNumByte(d.lit[0]); }
  }

  lemma ElemsDoNotClose(es: seq<Elem>, rest: bytes)
    requires es != [] && ElemWellFormed(es[0])
    ensures var after := SkipSpace(ElemsText(es) + rest).1;
            after != [] && after[0] != CLOSE_ARRAY
  {
    hide *;
    var e := es[0];
    var tail := FirstElemText(es, rest);
    ElemParts(e, tail);
    TextStart(e.val);
    SkipSpaceExact(e.pre, Text(e.val) + (e.post + tail));
  }

  lemma FirstElemText(es: seq<Elem>, rest: bytes) returns (tail: bytes)
    requires es != []
    ensures ElemsText(es) + rest == ElemText(es[0]) + tail
  {
    hide ElemText;
    tail := ElemsText(es)[|ElemText(es[0])|..] + rest;
  }

  lemma ElemParts(e: Elem, tail: bytes)
    requires ElemWellFormed(e)
    ensures ElemText(e) + tail == e.pre + (Text(e.val) + (e.post + tail))
    ensures Blank(e.pre) && WellFormed(e.val)
  {
    hide Text, WellFormed, Blank;
  }

  lemma MembersDoNotClose(ms: seq<Member>, rest: bytes)
    requires ms != [] && MemberWellFormed(ms[0])
    ensures var after := SkipSpace(MembersText(ms) + rest).1;
            after != [] && after[0] != CLOSE_OBJECT
  {
    var all := MembersText(ms) + rest;
    var pre := ms[0].key.pre;
    assert MemberText(ms[0]) <= all;
    assert KeyText(ms[0].key) <= MemberText(ms[0]);
    assert pre + [QUOTE] <= KeyText(ms[0].key);
    var tail := all[|pre| + 1..];
    assert all == pre + ([QUOTE] + tail);
    SkipSpaceExact(pre, [QUOTE] + tail);
  }

  lemma {:induction false} ParseElemExact(e: Elem, rest: bytes)
    requires ElemWellFormed(e) && Follows(e, rest)
    ensures ParseElem(ElemText(e) + rest) == Some((e, rest))
    decreases e, 1
  {
    TextStart(e.val);
    assert ElemText(e) + rest == e.pre + (Text(e.val) + (e.post + rest));
    SkipSpaceExact(e.pre, Text(e.val) + (e.post + rest));
    PostEndsNumber(e, rest);
    ParseExact(e.val, e.post + rest);
    SkipSpaceExact(e.post, rest);
    hide Text, Parse, SkipSpace, ElemText;
  }

  lemma PostEndsNumber(e: Elem, rest: bytes)
    requires Blank(e.post) && Follows(e, rest)
    ensures e.val.Num? ==> EndsNumber(e.post + rest)
  {
    if e.post == [] {
      assert e.post + rest == rest;
    } else {
      assert IsSpace(e.post[0]);
    }
  }

  lemma {:induction false} ParseElemsExact(es: seq<Elem>, rest: bytes)
    requires es != [] && ElemsWellFormed(es)
    ensures ParseElems(ElemsText(es) + rest) == Some((es, rest))
    decreases es, 2
  {
    hide ParseElem, ElemText;
    var e := es[0];
    if |es| == 1 {
      assert ElemsText(es) + rest == ElemText(e) + ([CLOSE_ARRAY] + rest);
      ParseElemExact(e, [CLOSE_ARRAY] + rest);
      assert es == [e];
    } else {
      var tail := ElemsText(es[1..]) + rest;
      assert ElemsText(es) + rest == ElemText(e) + ([COMMA] + tail);
      ParseElemExact(e, [COMMA] + tail);
      ParseElemsExact(es[1..], rest);
      assert ([COMMA] + tail)[1..] == tail && es == [e] + es[1..];
    }
  }

  lemma ParseKeyExact(k: Key, rest: bytes)
    requires KeyWellFormed(k)
    ensures ParseKey(KeyText(k) + rest) == Some((k, rest))
  {
    var s2 := k.mid + ([COLON] + rest);
    var s1 := [QUOTE] + k.raw + [QUOTE] + s2;
    KeyLayout(k, rest);
    SkipSpaceExact(k.pre, s1);
    ParseStringExact(k.raw, s2);
    SkipSpaceExact(k.mid, [COLON] + rest);
    KeySteps(k, k.pre + s1, s1, s2, rest);
  }

  lemma KeySteps(k: Key, s: bytes, s1: bytes, s2: bytes, rest: bytes)
    requires SkipSpace(s) == (k.pre, s1) && s1 != [] && ParseString(s1) == Some((k.raw, s2))
    requires SkipSpace(s2) == (k.mid, [COLON] + rest)
    ensures ParseKey(s) == Some((k, rest))
  {
    hide SkipSpace, ParseString;
    assert ([COLON] + rest)[1..] == rest;
  }

  lemma KeyLayout(k: Key, rest: bytes)
    ensures KeyText(k) + rest == k.pre + ([QUOTE] + k.raw + [QUOTE] + (k.mid + ([COLON] + rest)))
  {
  }

  lemma {:induction false} ParseMemberExact(m: Member, rest: bytes)
    requires MemberWellFormed(m) && EndsElem(rest)
    ensures ParseMember(MemberText(m) + rest) == Some((m, rest))
    decreases m, 2
  {
    hide KeyText, ElemText, MemberText, ParseKey, ParseElem;
    ParseElemExact(m.elem, rest);
    ParseKeyExact(m.key, ElemText(m.elem) + rest);
    MemberLayout(m, rest);
  }

  lemma MemberLayout(m: Member, rest: bytes)
    ensures MemberText(m) + rest == KeyText(m.key) + (ElemText(m.elem) + rest)
  {
    hide KeyText, ElemText;
  }

  lemma {:induction false} ParseMembersExact(ms: seq<Member>, rest: bytes)
    requires ms != [] && MembersWellFormed(ms)
    ensures ParseMembers(MembersText(ms) + rest) == Some((ms, rest))
    decreases ms, 3
  {
    hide ParseMember, MemberText, MemberWellFormed;
    var m := ms[0];
    if |ms| == 1 {
      assert MembersText(ms) + rest == MemberText(m) + ([CLOSE_OBJECT] + rest);
      ParseMemberExact(m, [CLOSE_OBJECT] + rest);
      assert ms == [m];
    } else {
      var tail := MembersText(ms[1..]) + rest;
      assert MembersText(ms) + rest == MemberText(m) + ([COMMA] + tail);
      ParseMemberExact(m, [COMMA] + tail);
      ParseMembersExact(ms[1..], rest);
      assert ([COMMA] + tail)[1..] == tail && ms == [m] + ms[1..];
    }
  }

  // ----- The text undoes the parser -----

  lemma {:induction false} SpellCountSpells(s: bytes)
    ensures WellSpelled(s[..SpellCount(s)])
    decreases |s|
  {
    var n := SpellLen(s);
    if n > 0 {
      var t := s[n..];
      SpellCountSpells(t);
      var raw := s[..SpellCount(s)];
      SpellLenIsLocal(s, raw);
      assert raw[n..] == t[..SpellCount(t)];
    }
  }

  lemma SpellLenIsLocal(s: bytes, raw: bytes)
    requires SpellLen(s) <= |raw| <= |s| && raw == s[..|raw|] && SpellLen(s) > 0
    ensures SpellLen(raw) == SpellLen(s)
  {
  }

  lemma ParseStringSpells(s: bytes)
    requires s != [] && ParseString(s).Some?
    ensures var (raw, rest) := ParseString(s).value;
            WellSpelled(raw) && s == [QUOTE] + raw + [QUOTE] + rest
  {
    SpellCountSpells(s[1..]);
    var n := 1 + SpellCount(s[1..]);
    assert s[1..n] == s[1..][..n - 1];
  }

  lemma {:induction false} TextExact(s: bytes)
    requires Parse(s).Some?
    ensures WellFormed(Parse(s).value.0) && s == Text(Parse(s).value.0) + Parse(s).value.1
    decreases |s|, 0
  {
    if s[0] == QUOTE {
      ParseStringSpells(s);
    } else if s[0] == OPEN_ARRAY {
      ArrayTextExact(s[1..]);
      assert s == [OPEN_ARRAY] + s[1..];
      assert Parse(s) == ParseArray(s[1..]);
      hide *;
    } else if s[0] == OPEN_OBJECT {
      ObjectTextExact(s[1..]);
      assert s == [OPEN_OBJECT] + s[1..];
      assert Parse(s) == ParseObject(s[1..]);
      hide *;
    } else {
      ScalarTextExact(s);
    }
  }

  lemma ScalarTextExact(s: bytes)
    requires ParseScalar(s).Some?
    ensures WellFormed(ParseScalar(s).value.0) && s == Text(ParseScalar(s).value.0) + ParseScalar(s).value.1
  {
    hide IsNumber;
  }

  lemma {:induction false} ArrayTextExact(s: bytes)
    requires ParseArray(s).Some?
    ensures var (d, rest) := ParseArray(s).value; d.Arr? && WellFormed(d) && [OPEN_ARRAY] + s == Text(d) + rest
    decreases |s|, 3
  {
    hide *;
    var (gap, rest) := SkipSpace(s);
    if rest != [] && rest[0] == CLOSE_ARRAY {
      EmptyArrayText(s, gap, rest);
    } else {
      ArrayParsed(s, gap, rest);
      ElemsTextExact(s);
      var (es, end) := ParseElems(s).value;
      ArrayOpens(es, end);
    }
  }

  lemma EmptyArrayText(s: bytes, gap: bytes, rest: bytes)
    requires SkipSpace(s) == (gap, rest) && rest != [] && rest[0] == CLOSE_ARRAY
    ensures ParseArray(s).Some?
    ensures var (d, end) := ParseArray(s).value; d.Arr? && WellFormed(d) && [OPEN_ARRAY] + s == Text(d) + end
  {
    hide SkipSpace, Blank;
    assert rest == [CLOSE_ARRAY] + rest[1..] && s == gap + rest;
  }

  lemma ArrayParsed(s: bytes, gap: bytes, rest: bytes)
    requires SkipSpace(s) == (gap, rest) && !(rest != [] && rest[0] == CLOSE_ARRAY) && ParseArray(s).Some?
    ensures ParseElems(s).Some?
    ensures ParseArray(s) == Some((Arr(ParseElems(s).value.0, []), ParseElems(s).value.1))
  {
    hide SkipSpace, ParseElems;
  }

  lemma ArrayOpens(es: seq<Elem>, end: bytes)
    requires es != []
    ensures Text(Arr(es, [])) + end == [OPEN_ARRAY] + (ElemsText(es) + end)
    ensures WellFormed(Arr(es, [])) == ElemsWellFormed(es)
  {
    hide ElemsText, ElemsWellFormed;
  }

  lemma {:induction false} ObjectTextExact(s: bytes)
    requires ParseObject(s).Some?
    ensures var (d, rest) := ParseObject(s).value; d.Obj? && WellFormed(d) && [OPEN_OBJECT] + s == Text(d) + rest
    decreases |s|, 4
  {
    hide *;
    var (gap, rest) := SkipSpace(s);
    if rest != [] && rest[0] == CLOSE_OBJECT {
      EmptyObjectText(s, gap, rest);
    } else {
      ObjectParsed(s, gap, rest);
      MembersTextExact(s);
      var (ms, end) := ParseMembers(s).value;
      ObjectOpens(ms, end);
    }
  }

  lemma EmptyObjectText(s: bytes, gap: bytes, rest: bytes)
    requires SkipSpace(s) == (gap, rest) && rest != [] && rest[0] == CLOSE_OBJECT
    ensures ParseObject(s).Some?
    ensures var (d, end) := ParseObject(s).value; d.Obj? && WellFormed(d) && [OPEN_OBJECT] + s == Text(d) + end
  {
    hide SkipSpace, Blank;
    assert rest == [CLOSE_OBJECT] + rest[1..] && s == gap + rest;
  }

  lemma ObjectParsed(s: bytes, gap: bytes, rest: bytes)
    requires SkipSpace(s) == (gap, rest) && !(rest != [] && rest[0] == CLOSE_OBJECT) && ParseObject(s).Some?
    ensures ParseMembers(s).Some?
    ensures ParseObject(s) == Some((Obj(ParseMembers(s).value.0, []), ParseMembers(s).value.1))
  {
    hide SkipSpace, ParseMembers;
  }

  lemma ObjectOpens(ms: seq<Member>, end: bytes)
    requires ms != []
    ensures Text(Obj(ms, [])) + end == [OPEN_OBJECT] + (MembersText(ms) + end)
    ensures WellFormed(Obj(ms, [])) == MembersWellFormed(ms)
  {
    hide MembersText, MembersWellFormed;
  }

  lemma {:induction false} ElemTextExact(s: bytes)
    requires ParseElem(s).Some?
    ensures ElemWellFormed(ParseElem(s).value.0) && s == ElemText(ParseElem(s).value.0) + ParseElem(s).value.1
    decreases |s|, 1
  {
    var (pre, s1) := SkipSpace(s);
    TextExact(s1);
    var (val, s2) := Parse(s1).value;
    var (post, s3) := SkipSpace(s2);
    assert ParseElem(s) == Some((Elem(pre, val, post), s3));
    hide *;
  }

  lemma Separated(a: bytes, sep: byte, b: bytes, end: bytes, rest: bytes)
    requires rest != [] && rest[0] == sep && rest[1..] == b + end
    ensures a + rest == (a + ([sep] + b)) + end
  {
    assert rest == [sep] + (b + end);
  }

  lemma Closed(a: bytes, close: byte, rest: bytes)
    requires rest != [] && rest[0] == close
    ensures a + rest == (a + [close]) + rest[1..]
  {
    assert rest == [close] + rest[1..];
  }

  lemma {:induction false} ElemsTextExact(s: bytes)
    requires ParseElems(s).Some?
    ensures ElemsWellFormed(ParseElems(s).value.0)
    ensures s == ElemsText(ParseElems(s).value.0) + ParseElems(s).value.1
    decreases |s|, 2
  {
    hide *;
    ParseElemsStep(s);
    ElemTextExact(s);
    var (e, rest) := ParseElem(s).value;
    if rest[0] == COMMA {
      ElemsTextExact(rest[1..]);
      var (es, end) := ParseElems(rest[1..]).value;
      ElemsCons(e, es);
      Separated(ElemText(e), COMMA, ElemsText(es), end, rest);
    } else {
      ElemsLast(e);
      Closed(ElemText(e), CLOSE_ARRAY, rest);
    }
  }

  lemma ParseElemsStep(s: bytes)
    requires ParseElems(s).Some?
    ensures ParseElem(s).Some? && |ParseElem(s).value.1| < |s|
    ensures var (e, rest) := ParseElem(s).value;
            && rest != []
            && if rest[0] == COMMA then
                 && ParseElems(rest[1..]).Some? && ParseElems(rest[1..]).value.0 != []
                 && ParseElems(s).value == ([e] + ParseElems(rest[1..]).value.0, ParseElems(rest[1..]).value.1)
               else rest[0] == CLOSE_ARRAY && ParseElems(s).value == ([e], rest[1..])
  {
    hide ParseElem;
  }

  lemma ElemsCons(e: Elem, es: seq<Elem>)
    requires es != []
    ensures ElemsText([e] + es) == ElemText(e) + ([COMMA] + ElemsText(es))
    ensures ElemsWellFormed([e] + es) == (ElemWellFormed(e) && ElemsWellFormed(es))
  {
    hide ElemText, ElemWellFormed;
    assert ([e] + es)[1..] == es;
  }

  lemma ElemsLast(e: Elem)
    ensures ElemsText([e]) == ElemText(e) + [CLOSE_ARRAY] && ElemsWellFormed([e]) == ElemWellFormed(e)
  {
    hide ElemText, ElemWellFormed;
    assert [e][1..] == [];
  }

  lemma KeyTextExact(s: bytes)
    requires ParseKey(s).Some?
    ensures KeyWellFormed(ParseKey(s).value.0) && s == KeyText(ParseKey(s).value.0) + ParseKey(s).value.1
  {
    hide *;
    var k, rest, s2 := KeyDissected(s);
    KeyLayout(k, rest);
  }

  lemma KeyDissected(s: bytes) returns (k: Key, rest: bytes, s2: bytes)
    requires ParseKey(s).Some?
    ensures ParseKey(s) == Some((k, rest)) && KeyWellFormed(k)
    ensures s == k.pre + ([QUOTE] + k.raw + [QUOTE] + s2) && s2 == k.mid + ([COLON] + rest)
  {
    hide SkipSpace, ParseString, Blank, WellSpelled;
    var (pre, s1) := SkipSpace(s);
    ParseStringSpells(s1);
    var (raw, s') := ParseString(s1).value;
    var (mid, s3) := SkipSpace(s');
    k, rest, s2 := Key(pre, raw, mid), s3[1..], s';
    assert s3 == [COLON] + rest;
  }

  lemma {:induction false} MemberTextExact(s: bytes)
    requires ParseMember(s).Some?
    ensures MemberWellFormed(ParseMember(s).value.0)
    ensures s == MemberText(ParseMember(s).value.0) + ParseMember(s).value.1
    decreases |s|, 2
  {
    hide ParseKey, ParseElem, KeyText, ElemText, MemberText, KeyWellFormed, ElemWellFormed;
    KeyTextExact(s);
    var (k, rest) := ParseKey(s).value;
    ElemTextExact(rest);
    var (e, end) := ParseElem(rest).value;
    MemberLayout(Member(k, e), end);
  }

  lemma {:induction false} MembersTextExact(s: bytes)
    requires ParseMembers(s).Some?
    ensures MembersWellFormed(ParseMembers(s).value.0)
    ensures s == MembersText(ParseMembers(s).value.0) + ParseMembers(s).value.1
    decreases |s|, 3
  {
    hide *;
    ParseMembersStep(s);
    MemberTextExact(s);
    var (e, rest) := ParseMember(s).value;
    if rest[0] == COMMA {
      MembersTextExact(rest[1..]);
      var (es, end) := ParseMembers(rest[1..]).value;
      MembersCons(e, es);
      Separated(MemberText(e), COMMA, MembersText(es), end, rest);
    } else {
      MembersLast(e);
      Closed(MemberText(e), CLOSE_OBJECT, rest);
    }
  }

  lemma ParseMembersStep(s: bytes)
    requires ParseMembers(s).Some?
    ensures ParseMember(s).Some? && |ParseMember(s).value.1| < |s|
    ensures var (e, rest) := ParseMember(s).value;
            && rest != []
            && if rest[0] == COMMA then
                 && ParseMembers(rest[1..]).Some? && ParseMembers(rest[1..]).value.0 != []
                 && ParseMembers(s).value == ([e] + ParseMembers(rest[1..]).value.0, ParseMembers(rest[1..]).value.1)
               else rest[0] == CLOSE_OBJECT && ParseMembers(s).value == ([e], rest[1..])
  {
    hide ParseMember;
  }

  lemma MembersCons(e: Member, es: seq<Member>)
    requires es != []
    ensures MembersText([e] + es) == MemberText(e) + ([COMMA] + MembersText(es))
    ensures MembersWellFormed([e] + es) == (MemberWellFormed(e) && MembersWellFormed(es))
  {
    hide MemberText, MemberWellFormed;
    assert ([e] + es)[1..] == es;
  }

  lemma MembersLast(e: Member)
    ensures MembersText([e]) == MemberText(e) + [CLOSE_OBJECT] && MembersWellFormed([e]) == MemberWellFormed(e)
  {
    hide MemberText, MemberWellFormed;
    assert [e][1..] == [];
  }
}
