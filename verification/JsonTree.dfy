/**
 JSON values, how they are printed without white space, and what a spelled
 document means.  Printing and reading undo each other.
 */
module JsonTree {
  import opened Bytes
  import opened JsonText
  import Utf8

  /** Strings and names are decoded bytes, numbers keep their literal. */
  datatype Json =
    | JNull
    | JBool(b: bool)
    | JNum(lit: bytes)
    | JStr(s: bytes)
    | JArr(items: seq<Json>)
    | JObj(fields: seq<Field>)

  datatype Field = Field(name: bytes, val: Json)

  // ----- Printing -----

  function HexDigit(n: nat): byte
    requires n < 16
  {
    if n < 10 then 0x30 + n else 0x61 + n - 10
  }

  function EscapeByte(b: byte): bytes {
    if b == QUOTE then [BACKSLASH, QUOTE]
    else if b == BACKSLASH then [BACKSLASH, BACKSLASH]
    else if b == 0x08 then [BACKSLASH, 0x62]
    else if b == 0x0C then [BACKSLASH, 0x66]
    else if b == 0x0A then [BACKSLASH, 0x6E]
    else if b == 0x0D then [BACKSLASH, 0x72]
    else if b == 0x09 then [BACKSLASH, 0x74]
    else if b < 0x20 then [BACKSLASH, 0x75, 0x30, 0x30, HexDigit(b / 16), HexDigit(b % 16)]
    else [b]
  }

  function Escape(s: bytes): bytes
  {
    if s == [] then [] else EscapeByte(s[0]) + Escape(s[1..])
  }

  function Quoted(s: bytes): bytes {
    [QUOTE] + Escape(s) + [QUOTE]
  }

  function Print(j: Json): bytes
    decreases j, 0
  {
    match j
    case JNull => NULL
    case JBool(b) => if b then TRUE else FALSE
    case JNum(lit) => lit
    case JStr(s) => Quoted(s)
    case JArr(items) => [OPEN_ARRAY] + PrintItems(items) + [CLOSE_ARRAY]
    case JObj(fields) => [OPEN_OBJECT] + PrintFields(fields) + [CLOSE_OBJECT]
  }

  function PrintItems(items: seq<Json>): bytes
    decreases items, 1
  {
    if items == [] then []
    else Print(items[0]) + if |items| == 1 then [] else [COMMA] + PrintItems(items[1..])
  }

  function PrintField(f: Field): bytes
    decreases f, 0
  {
    Quoted(f.name) + [COLON] + Print(f.val)
  }

  function PrintFields(fields: seq<Field>): bytes
    decreases fields, 1
  {
    if fields == [] then []
    else PrintField(fields[0]) + if |fields| == 1 then [] else [COMMA] + PrintFields(fields[1..])
  }

  // ----- Meaning of a spelled document -----

  function ShortEscape(b: byte): byte {
    match b
    case 0x62 => 0x08
    case 0x66 => 0x0C
    case 0x6E => 0x0A
    case 0x72 => 0x0D
    case 0x74 => 0x09
    case _ => b
  }

  function HexValue(b: byte): (n: nat)
    ensures n < 16
  {
    if IsDigit(b) then b - 0x30
    else if 0x41 <= b <= 0x46 then b as int - 0x41 + 10
    else if 0x61 <= b <= 0x66 then b as int - 0x61 + 10
    else 0
  }

  /** The code unit of a \uXXXX escape. */
  function CodeUnit(s: bytes): nat
    requires |s| >= 6
  {
    HexValue(s[2]) * 4096 + HexValue(s[3]) * 256 + HexValue(s[4]) * 16 + HexValue(s[5])
  }

  predicate StartsUnit(s: bytes) {
    |s| >= 6 && s[0] == BACKSLASH && s[1] == 0x75
  }

  predicate StartsPair(s: bytes) {
    && StartsUnit(s) && 0xD800 <= CodeUnit(s) < 0xDC00
    && StartsUnit(s[6..]) && 0xDC00 <= CodeUnit(s[6..]) < 0xE000
  }

  /** A string as its reader decodes it: escapes resolved, surrogate pairs joined,
      anything that is not a character replaced by U+FFFD. */
  function Decoded(raw: bytes): bytes
  {
    if raw == [] then []
    else if raw[0] == BACKSLASH then
      if StartsPair(raw) then
        Utf8.Encode(0x1_0000 + (CodeUnit(raw) - 0xD800) * 0x400 + (CodeUnit(raw[6..]) - 0xDC00)) + Decoded(raw[12..])
      else if StartsUnit(raw) then
        (if Utf8.IsScalar(CodeUnit(raw)) then Utf8.Encode(CodeUnit(raw)) else Utf8.REPLACEMENT) + Decoded(raw[6..])
      else if |raw| >= 2 && IsShortEscape(raw[1]) then [ShortEscape(raw[1])] + Decoded(raw[2..])
      else []
    else if Utf8.CharLen(raw) > 0 then raw[..Utf8.CharLen(raw)] + Decoded(raw[Utf8.CharLen(raw)..])
    else Utf8.REPLACEMENT + Decoded(raw[1..])
  }

  function Meaning(d: Doc): Json
    decreases d, 0
  {
    match d
    case Null => JNull
    case Bool(b) => JBool(b)
    case Num(lit) => JNum(lit)
    case Str(raw) => JStr(Decoded(raw))
    case Arr(es, _) => JArr(ElemsMeaning(es))
    case Obj(ms, _) => JObj(MembersMeaning(ms))
  }

  function ElemsMeaning(es: seq<Elem>): seq<Json>
    decreases es, 2
  {
    if es == [] then [] else [ElemMeaning(es[0])] + ElemsMeaning(es[1..])
  }

  function MembersMeaning(ms: seq<Member>): seq<Field>
    decreases ms, 3
  {
    if ms == [] then []
    else [MemberMeaning(ms[0])] + MembersMeaning(ms[1..])
  }

  function MemberMeaning(m: Member): Field
    decreases m, 2
  {
    Field(Decoded(m.key.raw), ElemMeaning(m.elem))
  }

  function ElemMeaning(e: Elem): Json
    decreases e, 1
  {
    Meaning(e.val)
  }

  /** The single JSON value a document holds, or None if it is not well-formed. */
  function Read(doc: bytes): Option<Json> {
    match ParseElem(doc)
    case None => None
    case Some((e, rest)) => if rest == [] then Some(Meaning(e.val)) else None
  }

  // ----- Well-formed values -----

  predicate Distinct(fields: seq<Field>) {
    forall i, j :: 0 <= i < j < |fields| ==> fields[i].name != fields[j].name
  }

  /** Numbers are JSON numbers, strings are UTF-8, and no object repeats a name. */
  predicate Sound(j: Json)
    decreases j, 0
  {
    match j
    case JNum(lit) => IsNumber(lit)
    case JStr(s) => Utf8.Valid(s)
    case JArr(items) => SoundItems(items)
    case JObj(fields) => Distinct(fields) && SoundFields(fields)
    case _ => true
  }

  predicate SoundItems(items: seq<Json>)
    decreases items, 1
  {
    items == [] || (Sound(items[0]) && SoundItems(items[1..]))
  }

  predicate SoundFields(fields: seq<Field>)
    decreases fields, 1
  {
    fields == [] || (Utf8.Valid(fields[0].name) && Sound(fields[0].val) && SoundFields(fields[1..]))
  }

  // ----- Strings survive printing and reading -----

  lemma EscapedByteSpells(b: byte, rest: bytes)
    ensures SpellLen(EscapeByte(b) + rest) == |EscapeByte(b)|
  {
    var s := EscapeByte(b) + rest;
    if |EscapeByte(b)| == 6 {
      assert s[2] == 0x30 && s[3] == 0x30 && s[4] == HexDigit(b / 16) && s[5] == HexDigit(b % 16);
    }
  }

  lemma {:induction false} EscapeSpells(s: bytes)
    ensures WellSpelled(Escape(s))
  {
    if s != [] {
      EscapeSpells(s[1..]);
      EscapedByteSpells(s[0], Escape(s[1..]));
      assert Escape(s)[|EscapeByte(s[0])|..] == Escape(s[1..]);
    }
  }

  lemma {:induction false} EscapeKeepsHigh(a: bytes, t: bytes)
    requires forall i :: 0 <= i < |a| ==> a[i] >= 0x80
    ensures Escape(a + t) == a + Escape(t)
  {
    if a == [] {
      assert a + t == t && [] + Escape(t) == Escape(t);
    } else {
      EscapeKeepsHigh(a[1..], t);
      EscapeHighByte(a[0], a[1..] + t);
      hide *;
      HeadTail(a, t);
      HeadTail(a, Escape(t));
    }
  }

  lemma HeadTail(a: bytes, x: bytes)
    requires a != []
    ensures a + x == [a[0]] + (a[1..] + x)
  {
  }

  lemma EscapeHighByte(b: byte, t: bytes)
    requires b >= 0x80
    ensures Escape([b] + t) == [b] + Escape(t)
  {
    assert ([b] + t)[1..] == t;
  }

  lemma EscapedByteDecodes(b: byte, rest: bytes)
    requires b < 0x80
    ensures Decoded(EscapeByte(b) + rest) == [b] + Decoded(rest)
  {
    var s := EscapeByte(b) + rest;
    if |EscapeByte(b)| == 6 {
      ControlDecodes(b, rest);
    } else if |EscapeByte(b)| == 2 {
      ShortDecodes(s[1], rest);
      assert s == [BACKSLASH, s[1]] + rest;
    } else {
      assert s[1..] == rest && s[..1] == [b];
    }
  }

  lemma ShortDecodes(e: byte, rest: bytes)
    requires IsShortEscape(e)
    ensures Decoded([BACKSLASH, e] + rest) == [ShortEscape(e)] + Decoded(rest)
  {
    var s := [BACKSLASH, e] + rest;
    assert !StartsUnit(s) && s[2..] == rest;
  }

  lemma ControlDecodes(b: byte, rest: bytes)
    requires |EscapeByte(b)| == 6
    ensures Decoded(EscapeByte(b) + rest) == [b] + Decoded(rest)
  {
    var s := EscapeByte(b) + rest;
    assert s[2] == 0x30 && s[3] == 0x30 && s[4] == HexDigit(b / 16) && s[5] == HexDigit(b % 16);
    assert CodeUnit(s) == b && s[6..] == rest && StartsUnit(s) && !StartsPair(s);
    assert Utf8.Encode(b) == [b];
  }

  lemma {:induction false} DecodedEscape(s: bytes)
    requires Utf8.Valid(s)
    ensures Decoded(Escape(s)) == s && Utf8.Valid(Escape(s))
    decreases |s|
  {
    hide *;
    if s == [] {
      NothingEscaped();
    } else {
      Utf8Step(s);
      var n := Utf8.CharLen(s);
      DecodedEscape(s[n..]);
      DecodedEscapeStep(s[..n], s[n..]);
      assert s == s[..n] + s[n..];
    }
  }

  lemma NothingEscaped()
    ensures Decoded(Escape([])) == [] && Utf8.Valid(Escape([]))
  {
  }

  lemma Utf8Step(s: bytes)
    requires Utf8.Valid(s) && s != []
    ensures 0 < Utf8.CharLen(s) <= |s| && Utf8.Valid(s[Utf8.CharLen(s)..])
    ensures Utf8.CharLen(s[..Utf8.CharLen(s)]) == Utf8.CharLen(s)
  {
    Utf8.CharAlone(s);
  }

  lemma DecodedEscapeStep(c: bytes, t: bytes)
    requires 0 < Utf8.CharLen(c) == |c|
    requires Decoded(Escape(t)) == t && Utf8.Valid(Escape(t))
    ensures Decoded(Escape(c + t)) == c + t && Utf8.Valid(Escape(c + t))
  {
    var rest := Escape(t);
    if |c| == 1 {
      var b := c[0];
      assert c == [b] && (c + t)[1..] == t;
      assert b < 0x80;
      assert Escape(c + t) == EscapeByte(b) + rest;
      EscapedByteDecodes(b, rest);
      EscapedByteIsAscii(b);
      hide *;
      AsciiIsValid(EscapeByte(b));
      Utf8.ValidConcat(EscapeByte(b), rest);
    } else {
      HighBytes(c);
      hide *;
      EscapeKeepsHigh(c, t);
      HighCharDecodes(c, rest);
      Utf8.ValidChar(c);
      Utf8.ValidConcat(c, rest);
    }
  }

  lemma EscapedByteIsAscii(b: byte)
    requires b < 0x80
    ensures forall i :: 0 <= i < |EscapeByte(b)| ==> EscapeByte(b)[i] < 0x80
  {
  }

  lemma HighBytes(c: bytes)
    requires 1 < Utf8.CharLen(c) == |c|
    ensures forall i :: 0 <= i < |c| ==> c[i] >= 0x80
  {
  }

  lemma HighCharDecodes(c: bytes, rest: bytes)
    requires 1 < Utf8.CharLen(c) == |c|
    ensures Decoded(c + rest) == c + Decoded(rest)
  {
    Utf8.CharLenPrefix(c, rest);
    assert (c + rest)[..|c|] == c && (c + rest)[|c|..] == rest;
  }

  lemma {:induction false} AsciiIsValid(s: bytes)
    requires forall i :: 0 <= i < |s| ==> s[i] < 0x80
    ensures Utf8.Valid(s)
  {
    if s != [] { AsciiIsValid(s[1..]); }
  }

  /** Decoding always yields UTF-8. */
  lemma {:induction false} DecodedIsValid(raw: bytes)
    ensures Utf8.Valid(Decoded(raw))
    decreases |raw|
  {
    if raw == [] || (raw[0] == BACKSLASH && !StartsUnit(raw) && (|raw| < 2 || !IsShortEscape(raw[1]))) {
    } else {
      hide Utf8.Valid;
      var c, rest := FirstDecoded(raw);
      DecodedIsValid(rest);
      Utf8.ValidConcat(c, Decoded(rest));
    }
  }

  lemma FirstDecoded(raw: bytes) returns (c: bytes, rest: bytes)
    requires raw != [] && (raw[0] == BACKSLASH ==> StartsUnit(raw) || (|raw| >= 2 && IsShortEscape(raw[1])))
    ensures |rest| < |raw| && Utf8.Valid(c) && Decoded(raw) == c + Decoded(rest)
  {
    if raw[0] == BACKSLASH {
      if StartsPair(raw) {
        c := Utf8.Encode(0x1_0000 + (CodeUnit(raw) - 0xD800) * 0x400 + (CodeUnit(raw[6..]) - 0xDC00));
        rest := raw[12..];
      } else if StartsUnit(raw) {
        c := if Utf8.IsScalar(CodeUnit(raw)) then Utf8.Encode(CodeUnit(raw)) else Utf8.REPLACEMENT;
        rest := raw[6..];
      } else {
        c, rest := [ShortEscape(raw[1])], raw[2..];
      }
    } else if Utf8.CharLen(raw) > 0 {
      c, rest := raw[..Utf8.CharLen(raw)], raw[Utf8.CharLen(raw)..];
      Utf8.CharAlone(raw);
    } else {
      c, rest := Utf8.REPLACEMENT, raw[1..];
    }
    Utf8.ValidChar(c);
  }
}
