/**
 The other half of the inverse: which CBOR bundles come back, byte for byte, when
 the JSON they decode to is encoded again.
 */
module BundleInverse {
  import opened Bytes
  import opened CborSyntax
  import opened JsonTree
  import opened BundleValue
  import opened BundleDecode
  import opened BundleEncode
  import opened BundleRoundTrip
  import opened BundleDeterministic
  import JsonPrint
  import JsonText
  import Numbers
  import Ordering
  import TextEncodings
  import Utf8

  // ----- The values that come back -----

  /** Widening tells the bit patterns of finite floats of one width apart. */
  ghost predicate Separates(fm: FloatFormat) {
    forall f: Form, a: uint64, b: uint64 ::
      (&& (f == Two || f == Four || f == Eight) && Fits(f, a) && Fits(f, b)
       && Finite(fm.widen(f, a)) && fm.widen(f, a) == fm.widen(f, b)) ==> a == b
  }

  /** Byte strings stand in hex and base64 slots and nothing but byte strings is text
      there; everything else is what a JSON document can say. */
  predicate InSlots(v: Value, r: Role)
    decreases v, 0
  {
    match v
    case VInt(i) => -0x8000_0000_0000_0000 <= i < 0x1_0000_0000_0000_0000
    case VBytes(_) => r == HexSlot || r == Base64Slot
    case VText(t) => Utf8.Valid(t) && r != HexSlot && r != Base64Slot
    case VList(items) => ItemsInSlots(items, ElementRole(r))
    case VMap(items) => PairsInSlots(items, r)
    case VTag(_, _) => false
    case VSimple(n) => n == 20 || n == 21 || n == 22
    case VFloat(x) => Finite(x)
  }

  predicate ItemsInSlots(vs: seq<Value>, er: Role)
    decreases vs, 1
  {
    vs == [] || (InSlots(vs[0], er) && ItemsInSlots(vs[1..], er))
  }

  predicate PairsInSlots(vs: seq<Value>, r: Role)
    decreases vs, 1
  {
    vs == []
    || (&& |vs| >= 2 && vs[0].VText? && Utf8.Valid(vs[0].t)
        && InSlots(vs[1], ChildRole(r, vs[0].t)) && PairsInSlots(vs[2..], r))
  }

  // ----- Whatever is encoded is in its slots -----

  lemma {:induction false} EncodedInSlots(fm: FloatFormat, v: Any, r: Role)
    requires Faithful(fm) && FromJson(v)
    requires ToCbor(fm, v, r).Some? && Encodable(ToCbor(fm, v, r).value)
    ensures InSlots(AnyValue(ToCbor(fm, v, r).value), r)
    decreases v, 1, 0
  {
    if v.ASlice? {
      ItemsEncodedInSlots(fm, v.items, ElementRole(r));
      hide *;
      SliceInSlots(fm, v, r);
    } else if v.AMap? {
      var c := ToCbor(fm, v, r).value;
      MapConverted(fm, v, r);
      Ordering.SortedIsSorted(c.m.Keys, KeyRank);
      PairsEncodedInSlots(fm, v, r, Ordering.Sorted(c.m.Keys, KeyRank));
      hide *;
      MapInSlots(c, r);
    } else {
      hide *;
      ScalarInSlots(fm, v, r);
    }
  }

  lemma {:induction false} ScalarInSlots(fm: FloatFormat, v: Any, r: Role)
    requires Faithful(fm) && FromJson(v) && !v.ASlice? && !v.AMap?
    requires ToCbor(fm, v, r).Some? && Encodable(ToCbor(fm, v, r).value)
    ensures InSlots(AnyValue(ToCbor(fm, v, r).value), r)
  {
    hide *;
    LeafToCbor(fm, v, r);
    if v.ANumber? {
      LiteralIsNumber(v);
      NumberInSlots(fm, v.lit);
    } else if v.AString? {
      TextIsValid(v);
      StringInSlots(v.s, r);
    } else {
      ConstantFromJson(v);
    }
    LeafInSlots(ToCbor(fm, v, r).value, r);
  }

  lemma {:induction false} NumberInSlots(fm: FloatFormat, lit: bytes)
    requires Faithful(fm) && JsonText.IsNumber(lit) && NumberToCbor(fm, lit).Some?
    ensures var c := NumberToCbor(fm, lit).value;
            || (c.AInt? && -0x8000_0000_0000_0000 <= c.i < 0x1_0000_0000_0000_0000)
            || (c.AFloat? && Finite(c.x))
  {
    hide Numbers.IntValue, Numbers.IsIntLiteral, Numbers.IsDecimal, WritesFloats, Finite;
    if Numbers.IsIntLiteral(lit) { Numbers.IntLiteralIsDecimal(lit); }
  }

  lemma LiteralIsNumber(v: Any)
    requires v.ANumber? && FromJson(v)
    ensures JsonText.IsNumber(v.lit)
  {
    hide JsonText.IsNumber;
  }

  lemma TextIsValid(v: Any)
    requires v.AString? && FromJson(v)
    ensures Utf8.Valid(v.s)
  {
  }

  lemma StringInSlots(s: bytes, r: Role)
    requires Utf8.Valid(s) && StringToCbor(s, r).Some?
    ensures var c := StringToCbor(s, r).value;
            || (c.ABytes? && (r == HexSlot || r == Base64Slot))
            || (c.AString? && Utf8.Valid(c.s) && r != HexSlot && r != Base64Slot)
  {
    hide Utf8.Valid, TextEncodings.IsLowercaseHex, TextEncodings.HexBytes, TextEncodings.Unbase64;
  }

  lemma ConstantFromJson(v: Any)
    requires FromJson(v) && !v.ASlice? && !v.AMap? && !v.ANumber? && !v.AString?
    ensures v.ANil? || v.ABool?
  {
  }

  lemma {:induction false} LeafInSlots(c: Any, r: Role)
    requires Encodable(c)
    requires || c.ANil? || c.ABool? || (c.AFloat? && Finite(c.x))
             || (c.AInt? && -0x8000_0000_0000_0000 <= c.i < 0x1_0000_0000_0000_0000)
             || (c.ABytes? && (r == HexSlot || r == Base64Slot))
             || (c.AString? && Utf8.Valid(c.s) && r != HexSlot && r != Base64Slot)
    ensures InSlots(AnyValue(c), r)
  {
    hide Utf8.Valid, Finite;
  }

  lemma {:induction false} SliceInSlots(fm: FloatFormat, v: Any, r: Role)
    requires v.ASlice? && ToCbor(fm, v, r).Some? && Encodable(ToCbor(fm, v, r).value)
    requires ItemsInSlots(AnyValues(ItemsToCbor(fm, v.items, ElementRole(r)).value), ElementRole(r))
    ensures InSlots(AnyValue(ToCbor(fm, v, r).value), r)
  {
    hide ItemsInSlots, AnyValues, ItemsToCbor, ElementRole, EncodableItems;
  }

  lemma {:induction false} MapInSlots(c: Any, r: Role)
    requires c.AMap? && Encodable(c) && forall k :: k in Ordering.Sorted(c.m.Keys, KeyRank) ==> k in c.m
    requires PairsInSlots(PairValues(c, Ordering.Sorted(c.m.Keys, KeyRank)), r)
    ensures InSlots(AnyValue(c), r)
  {
    hide PairsInSlots, PairValues, Ordering.Sorted, Encodable;
  }

  lemma {:induction false} ItemsEncodedInSlots(fm: FloatFormat, items: seq<Any>, er: Role)
    requires Faithful(fm) && FromJsonItems(items)
    requires ItemsToCbor(fm, items, er).Some? && EncodableItems(ItemsToCbor(fm, items, er).value)
    ensures ItemsInSlots(AnyValues(ItemsToCbor(fm, items, er).value), er)
    decreases items, 0, 0
  {
    if items != [] {
      var c, cs := ToCbor(fm, items[0], er).value, ItemsToCbor(fm, items[1..], er).value;
      assert ([c] + cs)[1..] == cs;
      EncodedInSlots(fm, items[0], er);
      ItemsEncodedInSlots(fm, items[1..], er);
      hide Faithful, ToCbor, InSlots, AnyValue, FromJson, Encodable;
      assert AnyValues([c] + cs)[1..] == AnyValues(cs);
    }
  }

  lemma {:induction false} PairsEncodedInSlots(fm: FloatFormat, v: Any, r: Role, keys: seq<bytes>)
    requires Faithful(fm) && v.AMap? && FromJson(v)
    requires ToCbor(fm, v, r).Some? && Encodable(ToCbor(fm, v, r).value)
    requires forall k :: k in keys ==> k in v.m
    ensures forall k :: k in keys ==> k in ToCbor(fm, v, r).value.m
    ensures PairsInSlots(PairValues(ToCbor(fm, v, r).value, keys), r)
    decreases v, 0, |keys|
  {
    if keys != [] {
      var c := ToCbor(fm, v, r).value;
      MemberConverted(fm, v, r, keys[0]);
      hide *;
      EncodedInSlots(fm, v.m[keys[0]], ChildRole(r, keys[0]));
      PairsEncodedInSlots(fm, v, r, keys[1..]);
      PairInSlots(c, r, keys);
    } else {
      assert ToCbor(fm, v, r).value.AMap?;
    }
  }

  lemma {:induction false} PairInSlots(c: Any, r: Role, keys: seq<bytes>)
    requires keys != [] && c.AMap? && Encodable(c) && forall k :: k in keys ==> k in c.m
    requires Utf8.Valid(keys[0]) && Encodable(c.m[keys[0]])
    requires InSlots(AnyValue(c.m[keys[0]]), ChildRole(r, keys[0]))
    requires PairsInSlots(PairValues(c, keys[1..]), r)
    ensures PairsInSlots(PairValues(c, keys), r)
  {
    var rest := PairValues(c, keys[1..]);
    var all := [VText(keys[0]), AnyValue(c.m[keys[0]])] + rest;
    assert PairValues(c, keys) == all && all[2..] == rest;
    hide PairValues, InSlots, AnyValue, Encodable, ChildRole, Utf8.Valid;
  }

  // ----- What is in its slots comes back -----

  /** Encoding `v` in the role gives the item. */
  ghost predicate Encodes(fm: FloatFormat, v: Any, r: Role, i: Item) {
    var c := ToCbor(fm, v, r);
    c.Some? && Encodable(c.value) && Deterministic(fm, c.value) == i
  }

  /** What an item becomes and is encoded to is the item itself. */
  lemma {:induction false} ItemBack(fm: FloatFormat, i: Item, r: Role)
    requires Faithful(fm) && Narrows(fm) && Separates(fm)
    requires WellFormed(i) && Core(fm, i) && InSlots(ItemValue(fm, i), r)
    requires Convert(fm, ItemValue(fm, i), r).Some?
    ensures Encodes(fm, ToAny(Convert(fm, ItemValue(fm, i), r).value), r, i)
    decreases i, 2
  {
    if i.List? {
      ItemsBack(fm, i.items, ElementRole(r));
      hide *;
      ListBack(fm, i, r);
    } else if i.Table? {
      var out := PairsBack(fm, i.items, r, {});
      hide *;
      TableBack(fm, i, r, out);
    } else if i.Float? {
      hide *;
      FloatBack(fm, i, r);
    } else {
      hide *;
      ScalarItemBack(fm, i, r);
    }
  }

  lemma {:induction false} ScalarItemBack(fm: FloatFormat, i: Item, r: Role)
    requires WellFormed(i) && Core(fm, i) && InSlots(ItemValue(fm, i), r)
    requires !i.List? && !i.Table? && !i.Float? && Convert(fm, ItemValue(fm, i), r).Some?
    ensures Encodes(fm, ToAny(Convert(fm, ItemValue(fm, i), r).value), r, i)
  {
    if i.Number? {
      NumberItemBack(fm, i, r);
    } else if i.Whole? {
      TextEncodings.HexRoundTrip(i.content);
      TextEncodings.Base64RoundTrip(i.content);
      StringItemBack(fm, i, r);
    } else if i.Simple? {
      SimpleItemBack(fm, i, r);
    }
  }

  lemma {:induction false} NumberItemBack(fm: FloatFormat, i: Item, r: Role)
    requires i.Number? && WellFormed(i) && Core(fm, i) && InSlots(ItemValue(fm, i), r)
    ensures Convert(fm, ItemValue(fm, i), r).Some?
    ensures Encodes(fm, ToAny(Convert(fm, ItemValue(fm, i), r).value), r, i)
  {
    hide *;
    var n := if i.negative then -1 - i.arg else i.arg;
    NumberParts(fm, i, r);
    IntConverts(fm, n, r);
    var lit := Numbers.IntLiteral(n);
    LeafToAny(lit);
    IntLiteralEncodes(fm, n);
    LeafToCbor(fm, ANumber(lit), r);
    EncodesIf(fm, ANumber(lit), r, i, AInt(n));
  }

  lemma {:induction false} NumberParts(fm: FloatFormat, i: Item, r: Role)
    requires i.Number? && WellFormed(i) && Core(fm, i) && InSlots(ItemValue(fm, i), r)
    ensures var n := if i.negative then -1 - i.arg else i.arg;
            && ItemValue(fm, i) == VInt(n) && -0x8000_0000_0000_0000 <= n < 0x1_0000_0000_0000_0000
            && Encodable(AInt(n)) && Deterministic(fm, AInt(n)) == i
  {
    hide Shortest;
  }

  lemma {:induction false} IntConverts(fm: FloatFormat, n: int, r: Role)
    ensures Convert(fm, VInt(n), r) == Some(JNum(Numbers.IntLiteral(n)))
  {
    hide Numbers.IntLiteral;
  }

  lemma IntLiteralEncodes(fm: FloatFormat, n: int)
    requires -0x8000_0000_0000_0000 <= n < 0x1_0000_0000_0000_0000
    ensures NumberToCbor(fm, Numbers.IntLiteral(n)) == Some(AInt(n))
  {
    hide Numbers.IntLiteral, Numbers.IsDecimal, Numbers.IntValue, Numbers.IsIntLiteral;
    Numbers.IntRoundTrip(n);
    Numbers.IntLiteralIsDecimal(Numbers.IntLiteral(n));
  }

  lemma {:induction false} StringItemBack(fm: FloatFormat, i: Item, r: Role)
    requires i.Whole? && WellFormed(i) && Core(fm, i) && InSlots(ItemValue(fm, i), r)
    requires TextEncodings.IsLowercaseHex(TextEncodings.Hex(i.content))
    requires TextEncodings.HexBytes(TextEncodings.Hex(i.content)) == i.content
    requires TextEncodings.Unbase64(TextEncodings.Base64(i.content)) == Some(i.content)
    ensures Convert(fm, ItemValue(fm, i), r).Some?
    ensures Encodes(fm, ToAny(Convert(fm, ItemValue(fm, i), r).value), r, i)
  {
    hide TextEncodings.IsLowercaseHex, TextEncodings.HexBytes, TextEncodings.Hex,
      TextEncodings.Unbase64, TextEncodings.Base64, Utf8.Valid;
  }

  lemma {:induction false} SimpleItemBack(fm: FloatFormat, i: Item, r: Role)
    requires i.Simple? && WellFormed(i) && Core(fm, i) && InSlots(ItemValue(fm, i), r)
    ensures Convert(fm, ItemValue(fm, i), r).Some?
    ensures Encodes(fm, ToAny(Convert(fm, ItemValue(fm, i), r).value), r, i)
  {
  }

  lemma {:induction false} FloatBack(fm: FloatFormat, i: Item, r: Role)
    requires Faithful(fm) && Narrows(fm) && Separates(fm)
    requires i.Float? && WellFormed(i) && Core(fm, i) && InSlots(ItemValue(fm, i), r)
    ensures Convert(fm, ItemValue(fm, i), r).Some?
    ensures Encodes(fm, ToAny(Convert(fm, ItemValue(fm, i), r).value), r, i)
  {
    hide *;
    FloatParts(fm, i, r);
    FloatEncodes(fm, fm.widen(i.form, i.bits), r);
    NarrowedBack(fm, i.form, i.bits);
  }

  lemma {:induction false} FloatParts(fm: FloatFormat, i: Item, r: Role)
    requires i.Float? && WellFormed(i) && Core(fm, i) && InSlots(ItemValue(fm, i), r)
    ensures (i.form == Two || i.form == Four || i.form == Eight) && Fits(i.form, i.bits)
    ensures var x := fm.widen(i.form, i.bits);
            && Finite(x) && Narrowest(fm, i.form, x)
            && Convert(fm, ItemValue(fm, i), r) == Some(JNum(fm.literal(x)))
  {
    hide Finite, Narrowest, Fits;
  }

  lemma {:induction false} FloatEncodes(fm: FloatFormat, x: uint64, r: Role)
    requires Faithful(fm) && Finite(x)
    ensures Encodes(fm, ToAny(JNum(fm.literal(x))), r, Float(fm.narrow(x).0, fm.narrow(x).1))
  {
    hide *;
    var lit := fm.literal(x);
    FloatLiteralEncodes(fm, x);
    FloatDeterministic(fm, x);
    LeafToAny(lit);
    LeafToCbor(fm, ANumber(lit), r);
    EncodesIf(fm, ANumber(lit), r, FloatItem(fm, x), AFloat(x));
  }

  lemma FloatLiteralEncodes(fm: FloatFormat, x: uint64)
    requires Faithful(fm) && Finite(x)
    ensures NumberToCbor(fm, fm.literal(x)) == Some(AFloat(x))
  {
    assert IsFloatLiteral(fm.literal(x)) && fm.read(fm.literal(x)) == Some(x);
    hide Numbers.IsIntLiteral, Faithful, WritesFloats, Finite, Numbers.IsDecimal, Numbers.IntValue;
  }

  lemma {:induction false} FloatDeterministic(fm: FloatFormat, x: uint64)
    requires Finite(x)
    ensures Encodable(AFloat(x)) && Deterministic(fm, AFloat(x)) == FloatItem(fm, x)
    ensures FloatItem(fm, x) == Float(fm.narrow(x).0, fm.narrow(x).1)
  {
    hide Finite;
  }

  /** The narrowest width that holds a value holds it in one way. */
  lemma {:induction false} NarrowedBack(fm: FloatFormat, f: Form, bits: uint64)
    requires Faithful(fm) && Narrows(fm) && Separates(fm)
    requires (f == Two || f == Four || f == Eight) && Fits(f, bits) && Finite(fm.widen(f, bits))
    requires Narrowest(fm, f, fm.widen(f, bits))
    ensures fm.narrow(fm.widen(f, bits)) == (f, bits)
  {
    hide WritesFloats, Finite;
    var x := fm.widen(f, bits);
    var (g, b) := fm.narrow(x);
    assert (g == Two || g == Four || g == Eight) && Fits(g, b) && fm.widen(g, b) == x;
    assert ArgLen(g) == ArgLen(f);
  }

  lemma {:induction false} ListBack(fm: FloatFormat, i: Item, r: Role)
    requires i.List? && Core(fm, i) && Convert(fm, ItemValue(fm, i), r).Some?
    requires var js := ConvertItems(fm, ItemValues(fm, i.items), ElementRole(r));
             js.Some? && EncodesItems(fm, ItemsToAny(js.value), ElementRole(r), i.items)
    ensures Encodes(fm, ToAny(Convert(fm, ItemValue(fm, i), r).value), r, i)
  {
    hide ConvertItems, ItemValues, ItemsToAny, ItemsToCbor, DeterministicItems, EncodableItems, ElementRole, CoreItems,
      Shortest;
  }

  ghost predicate EncodesItems(fm: FloatFormat, vs: seq<Any>, er: Role, items: seq<Item>) {
    var cs := ItemsToCbor(fm, vs, er);
    cs.Some? && |cs.value| == |items| && EncodableItems(cs.value) && DeterministicItems(fm, cs.value) == items
  }

  lemma {:induction false} ItemsBack(fm: FloatFormat, items: seq<Item>, er: Role)
    requires Faithful(fm) && Narrows(fm) && Separates(fm)
    requires ItemsWellFormed(items) && CoreItems(fm, items) && ItemsInSlots(ItemValues(fm, items), er)
    requires ConvertItems(fm, ItemValues(fm, items), er).Some?
    ensures EncodesItems(fm, ItemsToAny(ConvertItems(fm, ItemValues(fm, items), er).value), er, items)
    decreases items, 1
  {
    hide *;
    if items == [] {
      NoItems(fm, items, er);
    } else {
      var i, more := items[0], items[1..];
      FirstItemConverts(fm, items, er);
      ItemBack(fm, i, er);
      ItemsBack(fm, more, er);
      var j, js := Convert(fm, ItemValue(fm, i), er).value, ConvertItems(fm, ItemValues(fm, more), er).value;
      ItemsEncode(fm, j, js, er, i, more);
      assert items == [i] + more;
    }
  }

  lemma {:induction false} NoItems(fm: FloatFormat, items: seq<Item>, er: Role)
    requires items == []
    ensures ConvertItems(fm, ItemValues(fm, items), er) == Some([])
    ensures EncodesItems(fm, ItemsToAny([]), er, items)
  {
  }

  lemma {:induction false} FirstItemConverts(fm: FloatFormat, items: seq<Item>, er: Role)
    requires items != [] && ItemsWellFormed(items) && CoreItems(fm, items)
    requires ItemsInSlots(ItemValues(fm, items), er) && ConvertItems(fm, ItemValues(fm, items), er).Some?
    ensures var i, more := items[0], items[1..];
            && WellFormed(i) && Core(fm, i) && InSlots(ItemValue(fm, i), er)
            && ItemsWellFormed(more) && CoreItems(fm, more) && ItemsInSlots(ItemValues(fm, more), er)
            && Convert(fm, ItemValue(fm, i), er).Some? && ConvertItems(fm, ItemValues(fm, more), er).Some?
            && ConvertItems(fm, ItemValues(fm, items), er)
               == Some([Convert(fm, ItemValue(fm, i), er).value] + ConvertItems(fm, ItemValues(fm, more), er).value)
  {
    hide WellFormed, Core, InSlots, Convert, ItemValue;
    var vs := ItemValues(fm, items);
    assert vs[1..] == ItemValues(fm, items[1..]);
  }

  lemma {:induction false} ItemsEncode(fm: FloatFormat, j: Json, js: seq<Json>, er: Role, i: Item, more: seq<Item>)
    requires Encodes(fm, ToAny(j), er, i) && EncodesItems(fm, ItemsToAny(js), er, more)
    ensures EncodesItems(fm, ItemsToAny([j] + js), er, [i] + more)
  {
    hide ToAny, ToCbor, Encodable, Deterministic;
    assert ([j] + js)[1..] == js;
    var v, vs := ToAny(j), ItemsToAny(js);
    assert ([v] + vs)[1..] == vs;
    var c, cs := ToCbor(fm, v, er).value, ItemsToCbor(fm, vs, er).value;
    assert ([c] + cs)[1..] == cs;
  }

  // ----- Maps -----

  function KeyOf(i: Item): bytes {
    if i.Whole? then i.content else []
  }

  /** The keys of a map, in the order of its items. */
  function KeysOf(items: seq<Item>): (keys: seq<bytes>)
    ensures |keys| == |items| / 2
  {
    if |items| < 2 then [] else [KeyOf(items[0])] + KeysOf(items[2..])
  }

  ghost predicate PairEncodes(fm: FloatFormat, k: Item, i: Item, out: map<bytes, Any>) {
    && |KeyOf(k)| < 0x1_0000_0000_0000_0000 && k == KeyItem(KeyOf(k))
    && KeyOf(k) in out && Encodable(out[KeyOf(k)]) && Deterministic(fm, out[KeyOf(k)]) == i
  }

  /** Every pair of items is a key and what encoding `out` at that key gives. */
  ghost predicate PairsEncode(fm: FloatFormat, items: seq<Item>, out: map<bytes, Any>) {
    items == [] || (|items| >= 2 && PairEncodes(fm, items[0], items[1], out) && PairsEncode(fm, items[2..], out))
  }

  /** `out` is what the members `m` convert to. */
  ghost predicate MembersConvert(fm: FloatFormat, m: map<bytes, Any>, r: Role, out: map<bytes, Any>) {
    out.Keys == m.Keys && forall k :: k in out ==> ToCbor(fm, m[k], ChildRole(r, k)) == Some(out[k])
  }

  lemma {:induction false} PairsBack(fm: FloatFormat, items: seq<Item>, r: Role, seen: set<bytes>)
    returns (out: map<bytes, Any>)
    requires Faithful(fm) && Narrows(fm) && Separates(fm) && |items| % 2 == 0
    requires ItemsWellFormed(items) && CoreItems(fm, items) && PairsInSlots(ItemValues(fm, items), r)
    requires ConvertPairs(fm, ItemValues(fm, items), r, seen).Some?
    ensures MembersConvert(fm, FieldsToAny(ConvertPairs(fm, ItemValues(fm, items), r, seen).value), r, out)
    ensures PairsEncode(fm, items, out) && out.Keys !! seen
    ensures forall k :: k in out ==> k in KeysOf(items)
    decreases items, 1
  {
    hide *;
    if items == [] {
      out := map[];
      NoPairs(fm, items, r, seen);
    } else {
      FirstPair(fm, items, r, seen);
      var k, more := KeyOf(items[0]), items[2..];
      ItemBack(fm, items[1], ChildRole(r, k));
      var rest := PairsBack(fm, more, r, seen + {k});
      var fields := ConvertPairs(fm, ItemValues(fm, more), r, seen + {k}).value;
      var j := Convert(fm, ItemValue(fm, items[1]), ChildRole(r, k)).value;
      out := AddPair(fm, items, r, j, fields, rest);
    }
  }

  lemma {:induction false} NoPairs(fm: FloatFormat, items: seq<Item>, r: Role, seen: set<bytes>)
    requires items == []
    ensures ConvertPairs(fm, ItemValues(fm, items), r, seen) == Some([])
    ensures MembersConvert(fm, FieldsToAny([]), r, map[]) && PairsEncode(fm, items, map[])
  {
  }

  lemma {:induction false} FirstPair(fm: FloatFormat, items: seq<Item>, r: Role, seen: set<bytes>)
    requires items != [] && |items| % 2 == 0
    requires ItemsWellFormed(items) && CoreItems(fm, items) && PairsInSlots(ItemValues(fm, items), r)
    requires ConvertPairs(fm, ItemValues(fm, items), r, seen).Some?
    ensures var k, more := KeyOf(items[0]), items[2..];
            && |k| < 0x1_0000_0000_0000_0000 && items[0] == KeyItem(k) && k !in seen
            && WellFormed(items[1]) && Core(fm, items[1]) && InSlots(ItemValue(fm, items[1]), ChildRole(r, k))
            && ItemsWellFormed(more) && CoreItems(fm, more) && PairsInSlots(ItemValues(fm, more), r)
            && Convert(fm, ItemValue(fm, items[1]), ChildRole(r, k)).Some?
            && ConvertPairs(fm, ItemValues(fm, more), r, seen + {k}).Some?
            && ConvertPairs(fm, ItemValues(fm, items), r, seen)
               == Some([Field(k, Convert(fm, ItemValue(fm, items[1]), ChildRole(r, k)).value)]
                       + ConvertPairs(fm, ItemValues(fm, more), r, seen + {k}).value)
  {
    hide ItemValues, Core, WellFormed, CoreItems, ItemsWellFormed, Convert, ChildRole, InSlots, Utf8.Valid, ItemValue;
    var a, b, more := items[0], items[1], items[2..];
    assert items == [a, b] + more;
    TwoItemValues(fm, a, b, more);
    CoreTwo(fm, a, b, more);
    KeyIsWhole(fm, a);
    var vs := [ItemValue(fm, a), ItemValue(fm, b)] + ItemValues(fm, more);
    assert vs[2..] == ItemValues(fm, more);
  }

  lemma {:induction false} KeyIsWhole(fm: FloatFormat, i: Item)
    requires WellFormed(i) && Core(fm, i)
    ensures ItemValue(fm, i).VText? ==> |KeyOf(i)| < 0x1_0000_0000_0000_0000 && i == KeyItem(KeyOf(i))
    ensures ItemValue(fm, i).VText? ==> ItemValue(fm, i) == VText(KeyOf(i))
  {
  }

  lemma {:induction false} AddPair(fm: FloatFormat, items: seq<Item>, r: Role, j: Json, fields: seq<Field>,
                                   rest: map<bytes, Any>)
    returns (out: map<bytes, Any>)
    requires |items| >= 2 && |KeyOf(items[0])| < 0x1_0000_0000_0000_0000 && items[0] == KeyItem(KeyOf(items[0]))
    requires Encodes(fm, ToAny(j), ChildRole(r, KeyOf(items[0])), items[1])
    requires MembersConvert(fm, FieldsToAny(fields), r, rest) && PairsEncode(fm, items[2..], rest)
    requires KeyOf(items[0]) !in rest && forall k :: k in rest ==> k in KeysOf(items[2..])
    ensures out.Keys == rest.Keys + {KeyOf(items[0])}
    ensures MembersConvert(fm, FieldsToAny([Field(KeyOf(items[0]), j)] + fields), r, out)
    ensures PairsEncode(fm, items, out)
    ensures forall k :: k in out ==> k in KeysOf(items)
  {
    hide *;
    var k := KeyOf(items[0]);
    var c := EncodedAs(fm, ToAny(j), ChildRole(r, k), items[1]);
    out := rest[k := c];
    MapCons(Field(k, j), fields);
    ConvertOneMore(fm, FieldsToAny(fields), r, rest, k, ToAny(j), c);
    PairsEncodeMore(fm, items[2..], rest, out);
    PairsEncodeCons(fm, items, out);
    FirstKey(items);
  }

  lemma {:induction false} EncodedAs(fm: FloatFormat, v: Any, r: Role, i: Item) returns (c: Any)
    requires Encodes(fm, v, r, i)
    ensures ToCbor(fm, v, r) == Some(c) && Encodable(c) && Deterministic(fm, c) == i
  {
    hide ToCbor, Encodable, Deterministic;
    c := ToCbor(fm, v, r).value;
  }

  lemma {:induction false} ConvertOneMore(fm: FloatFormat, m: map<bytes, Any>, r: Role, rest: map<bytes, Any>,
                                          k: bytes, v: Any, c: Any)
    requires MembersConvert(fm, m, r, rest) && k !in rest && ToCbor(fm, v, ChildRole(r, k)) == Some(c)
    ensures MembersConvert(fm, map[k := v] + m, r, rest[k := c])
  {
    hide ToCbor, ChildRole;
  }

  lemma {:induction false} PairsEncodeCons(fm: FloatFormat, items: seq<Item>, out: map<bytes, Any>)
    requires |items| >= 2 && |KeyOf(items[0])| < 0x1_0000_0000_0000_0000 && items[0] == KeyItem(KeyOf(items[0]))
    requires var k := KeyOf(items[0]); k in out && Encodable(out[k]) && Deterministic(fm, out[k]) == items[1]
    requires PairsEncode(fm, items[2..], out)
    ensures PairsEncode(fm, items, out)
  {
    hide Encodable, Deterministic, KeyItem, KeyOf;
  }

  lemma FirstKey(items: seq<Item>)
    requires |items| >= 2
    ensures KeysOf(items) == [KeyOf(items[0])] + KeysOf(items[2..])
  {
    hide KeyOf;
  }

  lemma MapCons(f: Field, fields: seq<Field>)
    ensures FieldsToAny([f] + fields) == map[f.name := ToAny(f.val)] + FieldsToAny(fields)
  {
    hide ToAny;
    assert ([f] + fields)[1..] == fields;
  }

  lemma {:induction false} PairsEncodeMore(fm: FloatFormat, items: seq<Item>, a: map<bytes, Any>, b: map<bytes, Any>)
    requires PairsEncode(fm, items, a) && forall k :: k in a ==> k in b && b[k] == a[k]
    ensures PairsEncode(fm, items, b)
  {
    hide Encodable, Deterministic, KeyItem, KeyOf;
    if items != [] { PairsEncodeMore(fm, items[2..], a, b); }
  }

  lemma {:induction false} TableBack(fm: FloatFormat, i: Item, r: Role, out: map<bytes, Any>)
    requires i.Table? && WellFormed(i) && Core(fm, i) && Convert(fm, ItemValue(fm, i), r).Some?
    requires ConvertPairs(fm, ItemValues(fm, i.items), r, {}).Some?
    requires MembersConvert(fm, FieldsToAny(ConvertPairs(fm, ItemValues(fm, i.items), r, {}).value), r, out)
    requires PairsEncode(fm, i.items, out) && forall k :: k in out ==> k in KeysOf(i.items)
    ensures Encodes(fm, ToAny(Convert(fm, ItemValue(fm, i), r).value), r, i)
  {
    hide *;
    var fields := ConvertPairs(fm, ItemValues(fm, i.items), r, {}).value;
    TableConverts(fm, i, r);
    TableParts(fm, i);
    ObjectToAny(fields);
    EncodedMembers(fm, i.items, out);
    MembersApply(fm, FieldsToAny(fields), r, out);
    MembersConverted(fm, AMap(FieldsToAny(fields)), r, out);
    KeysAreSorted(fm, i.items, out);
    TableEncodes(fm, i, out);
    EncodesIf(fm, ToAny(JObj(fields)), r, i, AMap(out));
  }

  lemma {:induction false} TableConverts(fm: FloatFormat, i: Item, r: Role)
    requires i.Table? && ConvertPairs(fm, ItemValues(fm, i.items), r, {}).Some?
    ensures Convert(fm, ItemValue(fm, i), r) == Some(JObj(ConvertPairs(fm, ItemValues(fm, i.items), r, {}).value))
  {
    hide ConvertPairs, ItemValues;
  }

  lemma {:induction false} TableParts(fm: FloatFormat, i: Item)
    requires i.Table? && WellFormed(i) && Core(fm, i)
    ensures |i.items| % 2 == 0 && |i.items| / 2 < 0x1_0000_0000_0000_0000
    ensures i.form == Shortest(|i.items| / 2) && KeysAscend(i.items)
  {
    hide KeysAscend, CoreItems, ItemsWellFormed, Shortest;
  }

  lemma MembersApply(fm: FloatFormat, m: map<bytes, Any>, r: Role, out: map<bytes, Any>)
    requires MembersConvert(fm, m, r, out)
    ensures out.Keys == m.Keys && forall k :: k in out ==> ToCbor(fm, m[k], ChildRole(r, k)) == Some(out[k])
  {
    hide ToCbor, ChildRole;
  }

  lemma {:induction false} EncodesIf(fm: FloatFormat, v: Any, r: Role, i: Item, c: Any)
    requires ToCbor(fm, v, r) == Some(c) && Encodable(c) && Deterministic(fm, c) == i
    ensures Encodes(fm, v, r, i)
  {
    hide ToCbor, Encodable, Deterministic;
  }

  /** The keys of encoded pairs are keys of the map, and what stands there can be encoded. */
  lemma {:induction false} EncodedMembers(fm: FloatFormat, items: seq<Item>, out: map<bytes, Any>)
    requires PairsEncode(fm, items, out)
    ensures forall k :: k in KeysOf(items) ==> k in out && |k| < 0x1_0000_0000_0000_0000 && Encodable(out[k])
  {
    hide Encodable, Deterministic, KeyItem, KeyOf;
    if items != [] {
      EncodedMembers(fm, items[2..], out);
      assert KeysOf(items) == [KeyOf(items[0])] + KeysOf(items[2..]);
    }
  }

  /** Ascending pairs list the keys of their map as sorting does. */
  lemma {:induction false} KeysAreSorted(fm: FloatFormat, items: seq<Item>, out: map<bytes, Any>)
    requires PairsEncode(fm, items, out) && KeysAscend(items)
    requires forall k :: k in out ==> k in KeysOf(items)
    requires forall k :: k in KeysOf(items) ==> k in out && |k| < 0x1_0000_0000_0000_0000
    ensures KeysOf(items) == Ordering.Sorted(out.Keys, KeyRank) && |out| == |items| / 2
  {
    hide *;
    KeysAscending(fm, items, out);
    forall k, l | k in out.Keys && l in out.Keys && KeyRank(k) == KeyRank(l) ensures k == l {
      RankIsInjective(k, l);
    }
    Ordering.SortedUnique(KeysOf(items), out.Keys, KeyRank);
    Ordering.SortedIsSorted(out.Keys, KeyRank);
    assert |out| == |out.Keys|;
  }

  lemma RankIsInjective(k: bytes, l: bytes)
    requires |k| < 0x1_0000_0000_0000_0000 && |l| < 0x1_0000_0000_0000_0000 && KeyRank(k) == KeyRank(l)
    ensures k == l
  {
    hide *;
    KeyRankIsEncoding(k);
    KeyRankIsEncoding(l);
    EncodingIsInjective(k, l);
  }

  /** The first key ranks strictly below all later ones. */
  ghost predicate Below(k: bytes, keys: seq<bytes>) {
    forall l :: l in keys ==> Ordering.NotAfter(KeyRank(k), KeyRank(l)) && KeyRank(k) != KeyRank(l)
  }

  lemma {:induction false} KeysAscending(fm: FloatFormat, items: seq<Item>, out: map<bytes, Any>)
    requires PairsEncode(fm, items, out) && KeysAscend(items)
    ensures Ordering.NoRepeats(KeysOf(items)) && Ordering.Ascending(KeysOf(items), KeyRank)
    ensures |items| >= 2 ==> Below(KeyOf(items[0]), KeysOf(items)[1..])
  {
    hide *;
    if |items| < 2 {
      FewKeys(items);
    } else {
      var k, more := KeyOf(items[0]), items[2..];
      FirstAscends(fm, items, out);
      KeysAscending(fm, more, out);
      BelowStep(k, more);
      AscendingCons(k, KeysOf(more));
    }
  }

  lemma FewKeys(items: seq<Item>)
    requires |items| < 2
    ensures KeysOf(items) == [] && Ordering.NoRepeats([]) && Ordering.Ascending([], KeyRank)
    ensures forall k :: Below(k, [])
  {
  }

  lemma {:induction false} FirstAscends(fm: FloatFormat, items: seq<Item>, out: map<bytes, Any>)
    requires |items| >= 2 && PairsEncode(fm, items, out) && KeysAscend(items)
    ensures var k, more := KeyOf(items[0]), items[2..];
            && KeysOf(items) == [k] + KeysOf(more)
            && PairsEncode(fm, more, out) && KeysAscend(more)
            && (more == [] || (|more| >= 2 && KeyRank(k) != KeyRank(KeyOf(more[0]))
                               && Ordering.NotAfter(KeyRank(k), KeyRank(KeyOf(more[0])))))
  {
    hide Deterministic, Encodable, KeyRank, Serial, WellFormed, Ordering.NotAfter, KeyOf, KeyItem;
    var more := items[2..];
    assert PairEncodes(fm, items[0], items[1], out);
    KeyRankIsEncoding(KeyOf(items[0]));
    if more != [] {
      assert PairEncodes(fm, more[0], more[1], out);
      KeyRankIsEncoding(KeyOf(more[0]));
    }
  }

  lemma BelowStep(k: bytes, more: seq<Item>)
    requires more == []
             || (&& |more| >= 2 && KeyRank(k) != KeyRank(KeyOf(more[0]))
                 && Ordering.NotAfter(KeyRank(k), KeyRank(KeyOf(more[0]))) && Below(KeyOf(more[0]), KeysOf(more)[1..]))
    ensures Below(k, KeysOf(more))
  {
    hide KeyRank, Ordering.NotAfter;
    if more == [] {
      FewKeys(more);
    } else {
      var first, keys := KeyOf(more[0]), KeysOf(more);
      assert keys == [first] + keys[1..];
      forall l | l in keys ensures Ordering.NotAfter(KeyRank(k), KeyRank(l)) && KeyRank(k) != KeyRank(l) {
        if l in keys[1..] {
          assert Ordering.NotAfter(KeyRank(first), KeyRank(l));
          Ordering.LexTransitive(KeyRank(k), KeyRank(first), KeyRank(l));
          if KeyRank(k) == KeyRank(l) { Ordering.LexAntisymmetric(KeyRank(k), KeyRank(first)); }
        }
      }
    }
  }

  lemma AscendingCons(k: bytes, keys: seq<bytes>)
    requires Below(k, keys) && Ordering.NoRepeats(keys) && Ordering.Ascending(keys, KeyRank)
    ensures Ordering.NoRepeats([k] + keys) && Ordering.Ascending([k] + keys, KeyRank)
    ensures Below(k, ([k] + keys)[1..])
  {
    hide KeyRank, Ordering.NotAfter;
    var all := [k] + keys;
    assert all[1..] == keys;
    forall i, j | 0 <= i < j < |all|
      ensures all[i] != all[j] && Ordering.NotAfter(KeyRank(all[i]), KeyRank(all[j]))
    {
      assert all[j] == keys[j - 1] && keys[j - 1] in keys;
    }
  }

  /** The encoder writes the converted map as the items it came from. */
  lemma {:induction false} TableEncodes(fm: FloatFormat, i: Item, out: map<bytes, Any>)
    requires i.Table? && |i.items| / 2 < 0x1_0000_0000_0000_0000 && |i.items| % 2 == 0
    requires i.form == Shortest(|i.items| / 2)
    requires PairsEncode(fm, i.items, out) && |out| == |i.items| / 2
    requires KeysOf(i.items) == Ordering.Sorted(out.Keys, KeyRank)
    requires forall k :: k in KeysOf(i.items) ==> k in out && |k| < 0x1_0000_0000_0000_0000 && Encodable(out[k])
    requires forall k :: k in out ==> k in KeysOf(i.items)
    ensures Encodable(AMap(out)) && Deterministic(fm, AMap(out)) == i
  {
    hide *;
    MapEncodable(out);
    PairsSpelled(fm, i.items, out);
    MapIsTable(fm, AMap(out));
  }

  lemma {:induction false} MapEncodable(out: map<bytes, Any>)
    requires |out| < 0x1_0000_0000_0000_0000
    requires forall k :: k in out ==> |k| < 0x1_0000_0000_0000_0000 && Encodable(out[k])
    ensures Encodable(AMap(out))
  {
  }

  lemma {:induction false} PairsSpelled(fm: FloatFormat, items: seq<Item>, out: map<bytes, Any>)
    requires PairsEncode(fm, items, out) && Encodable(AMap(out)) && forall k :: k in KeysOf(items) ==> k in out
    ensures DeterministicPairs(fm, AMap(out), KeysOf(items)) == items
  {
    hide *;
    if items == [] {
      NoKeys(fm, items, out);
    } else {
      SplitPairs(fm, items, out);
      var k, more := KeyOf(items[0]), items[2..];
      PairsSpelled(fm, more, out);
      ConsPairs(fm, out, k, KeysOf(more));
      assert items == [items[0], items[1]] + more;
    }
  }

  lemma NoKeys(fm: FloatFormat, items: seq<Item>, out: map<bytes, Any>)
    requires items == [] && Encodable(AMap(out))
    ensures KeysOf(items) == [] && DeterministicPairs(fm, AMap(out), []) == []
  {
  }

  lemma {:induction false} SplitPairs(fm: FloatFormat, items: seq<Item>, out: map<bytes, Any>)
    requires PairsEncode(fm, items, out) && items != []
    ensures |items| >= 2 && PairsEncode(fm, items[2..], out)
    ensures var k := KeyOf(items[0]);
            && KeysOf(items) == [k] + KeysOf(items[2..]) && |k| < 0x1_0000_0000_0000_0000
            && items[0] == KeyItem(k) && k in out && Encodable(out[k]) && Deterministic(fm, out[k]) == items[1]
  {
    hide Deterministic, Encodable, KeyItem, KeyOf;
  }

  lemma {:induction false} ConsPairs(fm: FloatFormat, out: map<bytes, Any>, k: bytes, keys: seq<bytes>)
    requires Encodable(AMap(out)) && k in out && |k| < 0x1_0000_0000_0000_0000 && Encodable(out[k])
    requires forall l :: l in keys ==> l in out
    ensures DeterministicPairs(fm, AMap(out), [k] + keys)
            == [KeyItem(k), Deterministic(fm, out[k])] + DeterministicPairs(fm, AMap(out), keys)
  {
    hide Deterministic, Encodable;
    assert ([k] + keys)[1..] == keys;
  }

  // ----- Documents -----

  /** The marker tag and one item, with nothing behind it, in core deterministic form
      and with every value in its slot. */
  ghost predicate Returns(fm: FloatFormat, data: bytes) {
    var p := ParseItem(Untagged(data));
    && SELF_DESCRIBED <= data && p.Some? && p.value.1 == []
    && Core(fm, p.value.0) && InSlots(ItemValue(fm, p.value.0), Bundle)
  }

  /** A bundle that decodes comes back byte for byte, when its JSON is encoded, exactly
      if it is tagged, complete, in core form and in its slots. */
  lemma DecodeEncode(fm: FloatFormat, data: bytes)
    requires Faithful(fm) && Narrows(fm) && Separates(fm) && DecodeBundle(fm, data).Ok?
    ensures EncodeDocument(fm, Print(DecodeBundle(fm, data).value)) == Ok(data) <==> Returns(fm, data)
  {
    hide *;
    if Returns(fm, data) { ReturnsBack(fm, data); }
    if EncodeDocument(fm, Print(DecodeBundle(fm, data).value)) == Ok(data) { BackReturns(fm, data); }
  }

  lemma Decoded(fm: FloatFormat, data: bytes) returns (i: Item, rest: bytes, j: Json)
    requires DecodeBundle(fm, data).Ok?
    ensures DecodeBundle(fm, data) == Ok(j) && ParseItem(Untagged(data)) == Some((i, rest))
    ensures i.Table? && Convert(fm, ItemValue(fm, i), Bundle) == Some(j) && ToAny(j).AMap?
    ensures WellFormed(i) && Untagged(data) == Serial(i) + rest
  {
    hide DecodeBundle, ParseItem, Untagged, Serial, WellFormed, ItemValues, ConvertPairs, ToAny;
    BundleAgrees(fm, data);
    BytesExact(Untagged(data));
    i, rest := ParseItem(Untagged(data)).value.0, ParseItem(Untagged(data)).value.1;
    j := DecodeBundle(fm, data).value;
    TableIsObject(fm, i);
  }

  lemma {:induction false} TableIsObject(fm: FloatFormat, i: Item)
    requires i.Table? && Convert(fm, ItemValue(fm, i), Bundle).Some?
    ensures ToAny(Convert(fm, ItemValue(fm, i), Bundle).value).AMap?
  {
    hide ItemValues, ConvertPairs, FieldsToAny;
  }

  lemma ReturnsBack(fm: FloatFormat, data: bytes)
    requires Faithful(fm) && Narrows(fm) && Separates(fm) && DecodeBundle(fm, data).Ok? && Returns(fm, data)
    ensures EncodeDocument(fm, Print(DecodeBundle(fm, data).value)) == Ok(data)
  {
    hide *;
    ReturnsMeans(fm, data);
    var i, rest, j := Decoded(fm, data);
    ItemBack(fm, i, Bundle);
    EncodePrinted(fm, data, j) by { FaithfulWrites(fm); }
    EncodedTable(fm, ToAny(j), i);
    assert Serial(i) + [] == Serial(i);
  }

  lemma ReturnsMeans(fm: FloatFormat, data: bytes)
    requires Returns(fm, data)
    ensures var p := ParseItem(Untagged(data));
            && p.Some? && p.value.1 == [] && Core(fm, p.value.0) && InSlots(ItemValue(fm, p.value.0), Bundle)
            && data == SELF_DESCRIBED + Untagged(data)
  {
    hide ParseItem, Core, InSlots, ItemValue;
  }

  lemma {:induction false} EncodedTable(fm: FloatFormat, v: Any, i: Item)
    requires v.AMap? && i.Table? && WellFormed(i) && Encodes(fm, v, Bundle, i)
    ensures var c := ToCbor(fm, v, Bundle);
            c.Some? && Encodable(c.value) && Wire(fm, c.value) == SELF_DESCRIBED + Serial(i)
  {
    hide ToCbor, Encodable, Deterministic, WellFormed, Serial;
  }

  lemma BackReturns(fm: FloatFormat, data: bytes)
    requires Faithful(fm) && Narrows(fm) && DecodeBundle(fm, data).Ok?
    requires EncodeDocument(fm, Print(DecodeBundle(fm, data).value)) == Ok(data)
    ensures Returns(fm, data)
  {
    hide *;
    FaithfulWrites(fm);
    var i, rest, j := Decoded(fm, data);
    EncodePrinted(fm, data, j);
    var v := ToAny(j);
    assert ToCbor(fm, v, Bundle).Some? && Encodable(ToCbor(fm, v, Bundle).value);
    var c := ToCbor(fm, v, Bundle).value;
    MapConverted(fm, v, Bundle);
    ConvertIsSound(fm, ItemValue(fm, i), Bundle);
    SoundIsFromJson(j);
    EncodedInSlots(fm, v, Bundle);
    DeterministicMeans(fm, c);
    DeterministicIsCore(fm, c);
    WireIsItem(fm, c);
    WrittenReturns(fm, data, Deterministic(fm, c));
  }

  lemma SoundIsFromJson(j: Json)
    requires Sound(j)
    ensures FromJson(ToAny(j))
  {
    JsonPrint.CompactMeans(j);
    DocumentIsFromJson(JsonPrint.Compact(j));
  }

  lemma WrittenReturns(fm: FloatFormat, data: bytes, i: Item)
    requires WellFormed(i) && data == SELF_DESCRIBED + Serial(i)
    requires Core(fm, i) && InSlots(ItemValue(fm, i), Bundle)
    ensures Returns(fm, data)
  {
    hide Serial, ParseItem, Core, InSlots, ItemValue;
    ParseExact(i, []);
    assert Serial(i) + [] == Serial(i) && Untagged(data) == Serial(i);
  }
}
