/**
 The data model of a proof bundle: CBOR values without their spelling, the role
 each position plays, and the role-directed conversion into JSON values.
 */
module BundleValue {
  import opened Bytes
  import opened CborSyntax
  import opened JsonTree
  import JsonText
  import Numbers
  import TextEncodings
  import Utf8

  // ----- Floats -----

  /** The floating-point routines of the platform: widening a half, single or
      double bit pattern to a double, choosing the narrowest faithful width,
      writing a double as a JSON literal and reading a literal. */
  datatype FloatFormat = FloatFormat(
    widen: (Form, uint64) -> uint64,
    narrow: uint64 -> (Form, uint64),
    literal: uint64 -> bytes,
    read: bytes -> Option<uint64>)

  /** Neither infinite nor NaN: the exponent of the double is not all ones. */
  predicate Finite(x: uint64) {
    x / 0x10_0000_0000_0000 % 0x800 != 0x7FF
  }

  predicate IsFloatLiteral(lit: bytes) {
    JsonText.IsNumber(lit) && !Numbers.IsIntLiteral(lit)
  }

  /** Literals of finite doubles are JSON numbers that do not look like integers. */
  ghost predicate WritesFloats(fm: FloatFormat) {
    forall x: uint64 :: Finite(x) ==> IsFloatLiteral(fm.literal(x))
  }

  // ----- Values -----

  datatype Value =
    | VInt(i: int)
    | VBytes(b: bytes)
    | VText(t: bytes)
    | VList(items: seq<Value>)
    | VMap(items: seq<Value>)
    | VTag(tag: uint64, value: Value)
    | VSimple(n: nat)
    | VFloat(x: uint64)

  function ItemValue(fm: FloatFormat, i: Item): Value
    decreases i, 0
  {
    match i
    case Number(negative, _, arg) => VInt(if negative then -1 - arg else arg)
    case Whole(text, _, content) => if text then VText(content) else VBytes(content)
    case Chunked(text, chunks) => if text then VText(Joined(chunks)) else VBytes(Joined(chunks))
    case List(_, items) => VList(ItemValues(fm, items))
    case Table(_, items) => VMap(ItemValues(fm, items))
    case Tag(_, tag, item) => VTag(tag, ItemValue(fm, item))
    case Simple(_, n) => VSimple(n)
    case Float(f, bits) => VFloat(fm.widen(f, bits))
  }

  function Joined(chunks: seq<Chunk>): bytes
  {
    if chunks == [] then [] else chunks[0].content + Joined(chunks[1..])
  }

  function ItemValues(fm: FloatFormat, items: seq<Item>): (vs: seq<Value>)
    ensures |vs| == |items|
    decreases items, 1
  {
    if items == [] then [] else [ItemValue(fm, items[0])] + ItemValues(fm, items[1..])
  }

  // ----- Roles -----

  datatype Role =
    | Generic | Hashed | Bundle | Subject | Witnesses | BlockMap | BlockList
    | CommitmentList | Commitment | KeyEvent | HexSlot | Base64Slot | TextSlot

  /** The role of a map member given its parent's role. */
  function ChildRole(parent: Role, key: bytes): Role {
    match parent
    case Hashed => Hashed
    case Bundle =>
      if key == Ascii("public_key") || key == Ascii("signature") then Base64Slot
      else if key == Ascii("inclusion_proof") then TextSlot
      else if key == Ascii("subject") then Subject
      else if key == Ascii("block") then BlockMap
      else if key == Ascii("block_path") then BlockList
      else if key == Ascii("commitments") then CommitmentList
      else if key == Ascii("signing_key_event") then KeyEvent
      else Generic
    case Subject =>
      if key == Ascii("signing_key_id") then HexSlot
      else if key == Ascii("claims") || key == Ascii("entropy") || key == Ascii("metadata") then Hashed
      else if key == Ascii("witnesses") then Witnesses
      else Generic
    case Witnesses => if key == Ascii("block") then BlockMap else Hashed
    case BlockMap =>
      if key == Ascii("previous_block_hash") || key == Ascii("merkle_root") || key == Ascii("signing_key_id")
      then HexSlot
      else if key == Ascii("metadata") then Hashed
      else Generic
    case Commitment =>
      if key == Ascii("epoch_merkle_root") || key == Ascii("transaction_hash") || key == Ascii("block_merkle_root")
      then HexSlot
      else if key == Ascii("epoch_proof") || key == Ascii("txoutproof") || key == Ascii("raw_transaction") then TextSlot
      else Generic
    case KeyEvent =>
      if key == Ascii("block") then BlockMap
      else if key == Ascii("commitments") then CommitmentList
      else Generic
    case _ => Generic
  }

  /** The role of an array element given the array's role. */
  function ElementRole(parent: Role): Role {
    match parent
    case Hashed => Hashed
    case BlockList => BlockMap
    case CommitmentList => Commitment
    case _ => Generic
  }

  // ----- Conversion -----

  /** Text as it is emitted; None where a JCS preimage refuses it. */
  function TextOf(t: bytes, r: Role): Option<bytes> {
    if Utf8.Valid(t) then Some(t)
    else if r == Hashed then None
    else Some(Utf8.Repaired(t, false))
  }

  /** The JSON value a CBOR value becomes in a role, or None if it is refused. */
  function Convert(fm: FloatFormat, v: Value, r: Role): Option<Json>
    decreases v, 0
  {
    match v
    case VInt(n) => Some(JNum(Numbers.IntLiteral(n)))
    case VBytes(b) =>
      (match r
       case Hashed => None
       case Base64Slot => Some(JStr(TextEncodings.Base64(b)))
       case TextSlot => Some(JNull)
       case _ => Some(JStr(TextEncodings.Hex(b))))
    case VText(t) =>
      (match TextOf(t, r)
       case None => None
       case Some(s) => Some(JStr(s)))
    case VList(items) =>
      (match ConvertItems(fm, items, ElementRole(r))
       case None => None
       case Some(js) => Some(JArr(js)))
    case VMap(items) =>
      (match ConvertPairs(fm, items, r, {})
       case None => None
       case Some(fields) => Some(JObj(fields)))
    case VTag(_, value) => if r == Hashed then None else Convert(fm, value, r)
    case VSimple(n) =>
      if n == 20 then Some(JBool(false))
      else if n == 21 then Some(JBool(true))
      else if n == 22 then Some(JNull)
      else if r == Hashed then None
      else Some(JNull)
    case VFloat(x) =>
      if Finite(x) then Some(JNum(fm.literal(x)))
      else if r == Hashed then None
      else Some(JNull)
  }

  function ConvertItems(fm: FloatFormat, vs: seq<Value>, r: Role): Option<seq<Json>>
    decreases vs, 1
  {
    if vs == [] then Some([])
    else
      match Convert(fm, vs[0], r)
      case None => None
      case Some(j) =>
        match ConvertItems(fm, vs[1..], r)
        case None => None
        case Some(js) => Some([j] + js)
  }

  /** Members of a map, whose keys must be text and distinct from `seen` and from
      each other once they are repaired. */
  function ConvertPairs(fm: FloatFormat, vs: seq<Value>, r: Role, seen: set<bytes>): Option<seq<Field>>
    decreases vs, 1
  {
    if vs == [] then Some([])
    else if |vs| == 1 || !vs[0].VText? || TextOf(vs[0].t, r).None? || TextOf(vs[0].t, r).value in seen then None
    else
      var key := TextOf(vs[0].t, r).value;
      match Convert(fm, vs[1], ChildRole(r, key))
      case None => None
      case Some(j) =>
        match ConvertPairs(fm, vs[2..], r, seen + {key})
        case None => None
        case Some(fields) => Some([Field(key, j)] + fields)
  }

  // ----- What conversion guarantees -----

  ghost predicate FreshNames(fields: seq<Field>, seen: set<bytes>) {
    forall i :: 0 <= i < |fields| ==> fields[i].name !in seen
  }

  lemma PlainIsValid(s: bytes)
    requires TextEncodings.PlainText(s)
    ensures Utf8.Valid(s)
  {
    AsciiIsValid(s);
  }

  lemma TextOfIsValid(t: bytes, r: Role)
    requires TextOf(t, r).Some?
    ensures Utf8.Valid(TextOf(t, r).value)
  {
    Utf8.RepairedIsValid(t, false);
  }

  /** Whatever is accepted becomes a sound JSON value: real numbers, UTF-8 text and
      no repeated name in any object. */
  lemma {:induction false} ConvertIsSound(fm: FloatFormat, v: Value, r: Role)
    requires WritesFloats(fm) && Convert(fm, v, r).Some?
    ensures Sound(Convert(fm, v, r).value)
    decreases v, 0
  {
    match v
    case VInt(n) => Numbers.IntRoundTrip(n); Numbers.IntLiteralIsDecimal(Numbers.IntLiteral(n));
    case VBytes(b) =>
      TextEncodings.Base64IsPlain(b);
      TextEncodings.HexIsPlain(b);
      PlainIsValid(TextEncodings.Base64(b));
      PlainIsValid(TextEncodings.Hex(b));
    case VText(t) => TextOfIsValid(t, r);
    case VList(items) => ConvertItemsSound(fm, items, ElementRole(r));
    case VMap(items) => ConvertPairsSound(fm, items, r, {});
    case VTag(_, value) => ConvertIsSound(fm, value, r);
    case _ =>
  }

  lemma {:induction false} ConvertItemsSound(fm: FloatFormat, vs: seq<Value>, r: Role)
    requires WritesFloats(fm) && ConvertItems(fm, vs, r).Some?
    ensures SoundItems(ConvertItems(fm, vs, r).value)
    decreases vs, 1
  {
    if vs != [] {
      ConvertIsSound(fm, vs[0], r);
      ConvertItemsSound(fm, vs[1..], r);
      var js := ConvertItems(fm, vs, r).value;
      assert js[1..] == ConvertItems(fm, vs[1..], r).value;
    }
  }

  lemma {:induction false} ConvertPairsSound(fm: FloatFormat, vs: seq<Value>, r: Role, seen: set<bytes>)
    requires WritesFloats(fm) && ConvertPairs(fm, vs, r, seen).Some?
    ensures var fields := ConvertPairs(fm, vs, r, seen).value;
            SoundFields(fields) && Distinct(fields) && FreshNames(fields, seen)
    decreases vs, 1
  {
    if vs != [] {
      var key := TextOf(vs[0].t, r).value;
      TextOfIsValid(vs[0].t, r);
      ConvertIsSound(fm, vs[1], ChildRole(r, key));
      ConvertPairsSound(fm, vs[2..], r, seen + {key});
      var fields, rest := ConvertPairs(fm, vs, r, seen).value, ConvertPairs(fm, vs[2..], r, seen + {key}).value;
      assert fields[1..] == rest;
      DistinctCons(fields[0], rest, seen);
    }
  }

  lemma DistinctCons(f: Field, rest: seq<Field>, seen: set<bytes>)
    requires Distinct(rest) && FreshNames(rest, seen + {f.name}) && f.name !in seen
    ensures Distinct([f] + rest) && FreshNames([f] + rest, seen)
  {
    var fields := [f] + rest;
    forall i, j | 0 <= i < j < |fields| ensures fields[i].name != fields[j].name {
      if i == 0 { assert rest[j - 1].name !in seen + {f.name}; }
    }
  }
}
