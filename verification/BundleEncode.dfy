/**
 The inverse direction: a decoded JSON document becomes CBOR values by role, and
 those are written in core deterministic form (RFC 8949 section 4.2.1).
 */
module BundleEncode {
  import opened Bytes
  import opened CborSyntax
  import opened JsonTree
  import opened BundleValue
  import Numbers
  import Ordering
  import TextEncodings

  // ----- Decoded values -----

  /** The dynamic values the encoder works on: what decoding JSON yields (with
      numbers kept as literals) and what the CBOR library is given. */
  datatype Any =
    | ANil
    | ABool(b: bool)
    | ANumber(lit: bytes)
    | AInt(i: int)
    | AFloat(x: uint64)
    | AString(s: bytes)
    | ABytes(octets: bytes)
    | ASlice(items: seq<Any>)
    | AMap(m: map<bytes, Any>)

  /** Decoding into a map: a repeated name keeps its last value. */
  function ToAny(j: Json): Any
    decreases j, 0
  {
    match j
    case JNull => ANil
    case JBool(b) => ABool(b)
    case JNum(lit) => ANumber(lit)
    case JStr(s) => AString(s)
    case JArr(items) => ASlice(ItemsToAny(items))
    case JObj(fields) => AMap(FieldsToAny(fields))
  }

  function ItemsToAny(items: seq<Json>): (xs: seq<Any>)
    ensures |xs| == |items|
    decreases items, 1
  {
    if items == [] then [] else [ToAny(items[0])] + ItemsToAny(items[1..])
  }

  function FieldsToAny(fields: seq<Field>): map<bytes, Any>
    decreases fields, 1
  {
    if fields == [] then map[] else map[fields[0].name := ToAny(fields[0].val)] + FieldsToAny(fields[1..])
  }

  // ----- Conversion by role -----

  function NumberToCbor(fm: FloatFormat, lit: bytes): Option<Any> {
    if Numbers.IsIntLiteral(lit) then
      Numbers.IntLiteralIsDecimal(lit);
      var i := Numbers.IntValue(lit);
      if -0x8000_0000_0000_0000 <= i < 0x1_0000_0000_0000_0000 then Some(AInt(i)) else None
    else
      match fm.read(lit)
      case None => None
      case Some(x) => Some(AFloat(x))
  }

  function StringToCbor(s: bytes, r: Role): Option<Any> {
    match r
    case HexSlot => if TextEncodings.IsLowercaseHex(s) then Some(ABytes(TextEncodings.HexBytes(s))) else None
    case Base64Slot =>
      (match TextEncodings.Unbase64(s)
       case None => None
       case Some(b) => Some(ABytes(b)))
    case _ => Some(AString(s))
  }

  /** The value handed to the CBOR library, or None if some number or slot text
      cannot be encoded without loss. */
  function ToCbor(fm: FloatFormat, v: Any, r: Role): Option<Any>
    decreases v, 0
  {
    match v
    case ANumber(lit) => NumberToCbor(fm, lit)
    case AString(s) => StringToCbor(s, r)
    case ASlice(items) =>
      (match ItemsToCbor(fm, items, ElementRole(r))
       case None => None
       case Some(xs) => Some(ASlice(xs)))
    case AMap(m) =>
      if forall k :: k in m ==> ToCbor(fm, m[k], ChildRole(r, k)).Some?
      then Some(AMap(map k | k in m :: ToCbor(fm, m[k], ChildRole(r, k)).value))
      else None
    case _ => Some(v)
  }

  function ItemsToCbor(fm: FloatFormat, items: seq<Any>, er: Role): (r: Option<seq<Any>>)
    decreases items, 1
  {
    if items == [] then Some([])
    else
      match ToCbor(fm, items[0], er)
      case None => None
      case Some(x) =>
        match ItemsToCbor(fm, items[1..], er)
        case None => None
        case Some(xs) => Some([x] + xs)
  }

  // ----- Core deterministic encoding -----

  /** The shortest head for an argument. */
  function Shortest(arg: uint64): (f: Form)
    ensures Fits(f, arg) && f != Open
  {
    if arg < 24 then Tiny else if arg < 0x100 then One else if arg < 0x1_0000 then Two
    else if arg < 0x1_0000_0000 then Four else Eight
  }

  /** What fits in memory, and has already been converted: no literal is left. */
  predicate Encodable(v: Any)
    decreases v, 0
  {
    match v
    case ANumber(_) => false
    case AInt(i) => -0x1_0000_0000_0000_0000 <= i < 0x1_0000_0000_0000_0000
    case AFloat(x) => Finite(x)
    case AString(s) => |s| < 0x1_0000_0000_0000_0000
    case ABytes(b) => |b| < 0x1_0000_0000_0000_0000
    case ASlice(items) => |items| < 0x1_0000_0000_0000_0000 && EncodableItems(items)
    case AMap(m) =>
      && |m| < 0x1_0000_0000_0000_0000
      && forall k :: k in m ==> |k| < 0x1_0000_0000_0000_0000 && Encodable(m[k])
    case _ => true
  }

  predicate EncodableItems(items: seq<Any>)
    decreases items, 1
  {
    items == [] || (Encodable(items[0]) && EncodableItems(items[1..]))
  }

  /** Keys sort by their encoded bytes. */
  function KeyRank(k: bytes): seq<int> {
    if |k| < 0x1_0000_0000_0000_0000 then HeadBytes(3, Shortest(|k|), |k|) + k else k
  }

  function FloatItem(fm: FloatFormat, x: uint64): Item {
    Float(fm.narrow(x).0, fm.narrow(x).1)
  }

  ghost function Deterministic(fm: FloatFormat, v: Any): Item
    requires Encodable(v)
    decreases v, 1, 0
  {
    match v
    case ANil => Simple(Tiny, 22)
    case ABool(b) => Simple(Tiny, if b then 21 else 20)
    case AInt(i) => if i >= 0 then Number(false, Shortest(i), i) else Number(true, Shortest(-1 - i), -1 - i)
    case AFloat(x) => FloatItem(fm, x)
    case AString(s) => Whole(true, Shortest(|s|), s)
    case ABytes(b) => Whole(false, Shortest(|b|), b)
    case ASlice(items) => List(Shortest(|items|), DeterministicItems(fm, items))
    case AMap(m) =>
      Ordering.SortedIsSorted(m.Keys, KeyRank);
      Table(Shortest(|m|), DeterministicPairs(fm, v, Ordering.Sorted(m.Keys, KeyRank)))
  }

  ghost function DeterministicItems(fm: FloatFormat, items: seq<Any>): (out: seq<Item>)
    requires EncodableItems(items)
    ensures |out| == |items|
    decreases items, 0, 0
  {
    if items == [] then [] else [Deterministic(fm, items[0])] + DeterministicItems(fm, items[1..])
  }

  /** The members of a map named by `keys`, each key followed by its value. */
  ghost function DeterministicPairs(fm: FloatFormat, v: Any, keys: seq<bytes>): (out: seq<Item>)
    requires v.AMap? && Encodable(v) && forall k :: k in keys ==> k in v.m
    ensures |out| == 2 * |keys|
    decreases v, 0, |keys|
  {
    if keys == [] then []
    else
      [Whole(true, Shortest(|keys[0]|), keys[0]), Deterministic(fm, v.m[keys[0]])]
      + DeterministicPairs(fm, v, keys[1..])
  }

  // ----- The encoder -----

  /** The conversion of all items is that of the first ones followed by the rest. */
  ghost predicate Continues(all: Option<seq<Any>>, done: seq<Any>, rest: Option<seq<Any>>) {
    if rest.None? then all.None? else all == Some(done + rest.value)
  }

  lemma ContinuesStart(all: Option<seq<Any>>)
    ensures Continues(all, [], all)
  {
    if all.Some? { assert [] + all.value == all.value; }
  }

  lemma ContinuesStep(all: Option<seq<Any>>, done: seq<Any>, x: Any, rest: Option<seq<Any>>)
    requires Continues(all, done, if rest.None? then None else Some([x] + rest.value))
    ensures Continues(all, done + [x], rest)
  {
    if rest.Some? { assert done + ([x] + rest.value) == (done + [x]) + rest.value; }
  }

  lemma {:induction false} MemberFails(fm: FloatFormat, v: Any, r: Role, k: bytes)
    requires v.AMap? && k in v.m && ToCbor(fm, v.m[k], ChildRole(r, k)).None?
    ensures ToCbor(fm, v, r).None?
  {
    hide ChildRole;
  }

  /** Every member converted gives the whole map. */
  lemma {:induction false} MembersConverted(fm: FloatFormat, v: Any, r: Role, out: map<bytes, Any>)
    requires v.AMap? && out.Keys == v.m.Keys
    requires forall k :: k in out ==> ToCbor(fm, v.m[k], ChildRole(r, k)) == Some(out[k])
    ensures ToCbor(fm, v, r) == Some(AMap(out))
  {
    hide ToCbor, ChildRole;
    assert forall k :: k in v.m ==> k in out;
    ConvertedMembers(fm, v, r);
    SameMap(ToCbor(fm, v, r).value.m, out);
  }

  lemma {:induction false} ConvertedMembers(fm: FloatFormat, v: Any, r: Role)
    requires v.AMap? && forall k :: k in v.m ==> ToCbor(fm, v.m[k], ChildRole(r, k)).Some?
    ensures var c := ToCbor(fm, v, r);
            && c.Some? && c.value.AMap? && c.value.m.Keys == v.m.Keys
            && forall k :: k in v.m ==> ToCbor(fm, v.m[k], ChildRole(r, k)) == Some(c.value.m[k])
  {
    hide ChildRole;
  }

  lemma SameMap<K, V>(a: map<K, V>, b: map<K, V>)
    requires a.Keys == b.Keys && forall k :: k in b ==> a[k] == b[k]
    ensures a == b
  {
  }

  lemma {:induction false} LeafToCbor(fm: FloatFormat, v: Any, r: Role)
    ensures v.ASlice? ==>
              ToCbor(fm, v, r) == match ItemsToCbor(fm, v.items, ElementRole(r))
                                  case None => None
                                  case Some(xs) => Some(ASlice(xs))
    ensures v.ANumber? ==> ToCbor(fm, v, r) == NumberToCbor(fm, v.lit)
    ensures v.AString? ==> ToCbor(fm, v, r) == StringToCbor(v.s, r)
    ensures !v.AMap? && !v.ASlice? && !v.ANumber? && !v.AString? ==> ToCbor(fm, v, r) == Some(v)
  {
    hide ItemsToCbor, NumberToCbor, StringToCbor, ElementRole;
  }

  lemma {:induction false} ItemsToCborStep(fm: FloatFormat, items: seq<Any>, i: nat, er: Role)
    requires i <= |items|
    ensures ItemsToCbor(fm, items[i..], er) ==
            if i == |items| then Some([])
            else
              match ToCbor(fm, items[i], er)
              case None => None
              case Some(x) =>
                match ItemsToCbor(fm, items[i + 1..], er)
                case None => None
                case Some(xs) => Some([x] + xs)
  {
    hide ToCbor;
    if i < |items| { assert items[i..][0] == items[i] && items[i..][1..] == items[i + 1..]; }
  }

  /** Go's map iteration visits the keys in any order; the converted map does not
      depend on it. */
  method JsonValueToCbor(fm: FloatFormat, v: Any, r: Role) returns (res: Option<Any>)
    ensures res == ToCbor(fm, v, r)
    decreases v, 0
  {
    hide ToCbor, ItemsToCbor, ChildRole, ElementRole, Continues;
    LeafToCbor(fm, v, r);
    match v {
      case AMap(m) =>
        var out: map<bytes, Any> := map[];
        var todo := m.Keys;
        while todo != {}
          invariant todo <= m.Keys && out.Keys == m.Keys - todo
          invariant forall k :: k in out ==> ToCbor(fm, m[k], ChildRole(r, k)) == Some(out[k])
          decreases |todo|
        {
          var k :| k in todo;
          var conv := JsonValueToCbor(fm, m[k], ChildRole(r, k));
          if conv.None? {
            MemberFails(fm, v, r, k);
            return None;
          }
          out := out[k := conv.value];
          todo := todo - {k};
        }
        MembersConverted(fm, v, r, out);
        return Some(AMap(out));
      case ASlice(items) =>
        var out: seq<Any> := [];
        var er := ElementRole(r);
        assert items[0..] == items;
        ContinuesStart(ItemsToCbor(fm, items, er));
        for i := 0 to |items|
          invariant Continues(ItemsToCbor(fm, items, er), out, ItemsToCbor(fm, items[i..], er))
        {
          var conv := JsonValueToCbor(fm, items[i], er);
          ItemsToCborStep(fm, items, i, er);
          if conv.None? {
            ContinuesNowhere(ItemsToCbor(fm, items, er), out);
            return None;
          }
          ContinuesStep(ItemsToCbor(fm, items, er), out, conv.value, ItemsToCbor(fm, items[i + 1..], er));
          out := out + [conv.value];
        }
        ItemsToCborStep(fm, items, |items|, er);
        ContinuesEnd(ItemsToCbor(fm, items, er), out);
        return Some(ASlice(out));
      case ANumber(lit) => return NumberToCbor(fm, lit);
      case AString(s) => return StringToCbor(s, r);
      case _ => return Some(v);
    }
  }

  lemma ContinuesNowhere(all: Option<seq<Any>>, done: seq<Any>)
    requires Continues(all, done, None)
    ensures all.None?
  {
  }

  lemma ContinuesEnd(all: Option<seq<Any>>, done: seq<Any>)
    requires Continues(all, done, Some([]))
    ensures all == Some(done)
  {
    assert done + [] == done;
  }
}
