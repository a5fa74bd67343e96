/**
 Encoding and decoding undo each other: the decoded values are the encoded ones
 up to the spelling of numbers and base64 text, and encoding the decoded document
 again gives the same bytes.
 */
module BundleRoundTrip {
  import opened Bytes
  import opened CborSyntax
  import opened JsonTree
  import opened BundleValue
  import opened BundleDecode
  import opened BundleEncode
  import JsonPrint
  import JsonText
  import Numbers
  import Ordering
  import TextEncodings
  import Utf8

  /** What the round trip needs of the platform's float routines: literals of finite
      doubles read back, numbers read are finite, and narrowing loses nothing. */
  ghost predicate Faithful(fm: FloatFormat) {
    && WritesFloats(fm)
    && (forall x: uint64 :: Finite(x) ==> fm.read(fm.literal(x)) == Some(x))
    && (forall lit :: JsonText.IsNumber(lit) && fm.read(lit).Some? ==> Finite(fm.read(lit).value))
    && (forall x: uint64 :: Finite(x) ==>
          var (f, b) := fm.narrow(x); (f == Two || f == Four || f == Eight) && Fits(f, b) && fm.widen(f, b) == x)
  }

  // ----- The encoder writes the value it is given -----

  ghost function AnyValue(v: Any): Value
    requires Encodable(v)
    decreases v, 1, 0
  {
    match v
    case ANil => VSimple(22)
    case ABool(b) => VSimple(if b then 21 else 20)
    case AInt(i) => VInt(i)
    case AFloat(x) => VFloat(x)
    case AString(s) => VText(s)
    case ABytes(b) => VBytes(b)
    case ASlice(items) => VList(AnyValues(items))
    case AMap(m) =>
      Ordering.SortedIsSorted(m.Keys, KeyRank);
      VMap(PairValues(v, Ordering.Sorted(m.Keys, KeyRank)))
  }

  ghost function AnyValues(items: seq<Any>): seq<Value>
    requires EncodableItems(items)
    decreases items, 0, 0
  {
    if items == [] then [] else [AnyValue(items[0])] + AnyValues(items[1..])
  }

  ghost function PairValues(v: Any, keys: seq<bytes>): seq<Value>
    requires v.AMap? && Encodable(v) && forall k :: k in keys ==> k in v.m
    decreases v, 0, |keys|
  {
    if keys == [] then []
    else [VText(keys[0]), AnyValue(v.m[keys[0]])] + PairValues(v, keys[1..])
  }

  lemma {:induction false} DeterministicMeans(fm: FloatFormat, v: Any)
    requires Faithful(fm) && Encodable(v)
    ensures WellFormed(Deterministic(fm, v)) && ItemValue(fm, Deterministic(fm, v)) == AnyValue(v)
    decreases v, 1, 0
  {
    if v.ASlice? {
      DeterministicItemsMean(fm, v.items);
      SliceMeans(fm, v);
    } else if v.AMap? {
      Ordering.SortedIsSorted(v.m.Keys, KeyRank);
      DeterministicPairsMean(fm, v, Ordering.Sorted(v.m.Keys, KeyRank));
      MapMeans(fm, v);
    } else {
      ScalarMeans(fm, v);
    }
  }

  lemma {:induction false} ScalarMeans(fm: FloatFormat, v: Any)
    requires Faithful(fm) && Encodable(v) && !v.ASlice? && !v.AMap?
    ensures WellFormed(Deterministic(fm, v)) && ItemValue(fm, Deterministic(fm, v)) == AnyValue(v)
  {
  }

  lemma {:induction false} SliceMeans(fm: FloatFormat, v: Any)
    requires v.ASlice? && Encodable(v)
    requires ItemsWellFormed(DeterministicItems(fm, v.items))
    requires ItemValues(fm, DeterministicItems(fm, v.items)) == AnyValues(v.items)
    ensures WellFormed(Deterministic(fm, v)) && ItemValue(fm, Deterministic(fm, v)) == AnyValue(v)
  {
    hide DeterministicItems, AnyValues, ItemsWellFormed, ItemValues, EncodableItems;
  }

  lemma {:induction false} MapMeans(fm: FloatFormat, v: Any)
    requires v.AMap? && Encodable(v)
    requires var keys := Ordering.Sorted(v.m.Keys, KeyRank);
             && (forall k :: k in keys ==> k in v.m) && |keys| == |v.m|
             && ItemsWellFormed(DeterministicPairs(fm, v, keys))
             && ItemValues(fm, DeterministicPairs(fm, v, keys)) == PairValues(v, keys)
    ensures WellFormed(Deterministic(fm, v)) && ItemValue(fm, Deterministic(fm, v)) == AnyValue(v)
  {
    hide DeterministicPairs, PairValues, ItemsWellFormed, ItemValues, Ordering.Sorted;
  }

  lemma {:induction false} DeterministicItemsMean(fm: FloatFormat, items: seq<Any>)
    requires Faithful(fm) && EncodableItems(items)
    ensures ItemsWellFormed(DeterministicItems(fm, items))
    ensures ItemValues(fm, DeterministicItems(fm, items)) == AnyValues(items)
    decreases items, 0, 0
  {
    if items != [] {
      DeterministicMeans(fm, items[0]);
      DeterministicItemsMean(fm, items[1..]);
      hide Faithful, Deterministic, ItemValue, AnyValue, WellFormed;
      assert DeterministicItems(fm, items)[1..] == DeterministicItems(fm, items[1..]);
    }
  }

  lemma {:induction false} DeterministicPairsMean(fm: FloatFormat, v: Any, keys: seq<bytes>)
    requires Faithful(fm) && v.AMap? && Encodable(v) && forall k :: k in keys ==> k in v.m
    ensures ItemsWellFormed(DeterministicPairs(fm, v, keys))
    ensures ItemValues(fm, DeterministicPairs(fm, v, keys)) == PairValues(v, keys)
    decreases v, 0, |keys|
  {
    if keys != [] {
      var k := keys[0];
      DeterministicMeans(fm, v.m[k]);
      DeterministicPairsMean(fm, v, keys[1..]);
      TwoItemValues(fm, Whole(true, Shortest(|k|), k), Deterministic(fm, v.m[k]), DeterministicPairs(fm, v, keys[1..]));
      hide Faithful, Deterministic, ItemValues, AnyValue, ItemsWellFormed;
    }
  }

  lemma {:induction false} TwoItemValues(fm: FloatFormat, a: Item, b: Item, rest: seq<Item>)
    ensures ItemValues(fm, [a, b] + rest) == [ItemValue(fm, a), ItemValue(fm, b)] + ItemValues(fm, rest)
    ensures ItemsWellFormed([a, b] + rest) == (WellFormed(a) && WellFormed(b) && ItemsWellFormed(rest))
  {
    hide ItemValue, WellFormed;
    var all := [a, b] + rest;
    assert all[1..] == [b] + rest && all[1..][1..] == rest;
  }

  // ----- What a document becomes -----

  /** A value as decoding JSON yields it. */
  predicate FromJson(v: Any)
    decreases v, 0
  {
    match v
    case ANumber(lit) => JsonText.IsNumber(lit)
    case AString(s) => Utf8.Valid(s)
    case ASlice(items) => FromJsonItems(items)
    case AMap(m) => forall k :: k in m ==> Utf8.Valid(k) && FromJson(m[k])
    case ANil => true
    case ABool(_) => true
    case _ => false
  }

  predicate FromJsonItems(items: seq<Any>)
    decreases items, 1
  {
    items == [] || (FromJson(items[0]) && FromJsonItems(items[1..]))
  }

  /** The spelling that survives a round trip: numbers as the decoder writes them,
      base64 slots in canonical base64, everything else unchanged. */
  function Norm(fm: FloatFormat, v: Any, r: Role): Any
    decreases v, 0
  {
    match v
    case ANumber(lit) => ANumber(NormNumber(fm, lit))
    case AString(s) =>
      if r == Base64Slot && TextEncodings.Unbase64(s).Some?
      then AString(TextEncodings.Base64(TextEncodings.Unbase64(s).value)) else v
    case ASlice(items) => ASlice(NormItems(fm, items, ElementRole(r)))
    case AMap(m) => AMap(map k | k in m :: Norm(fm, m[k], ChildRole(r, k)))
    case _ => v
  }

  function NormNumber(fm: FloatFormat, lit: bytes): bytes {
    if Numbers.IsIntLiteral(lit) then
      Numbers.IntLiteralIsDecimal(lit);
      Numbers.IntLiteral(Numbers.IntValue(lit))
    else if fm.read(lit).Some? then fm.literal(fm.read(lit).value)
    else lit
  }

  function NormItems(fm: FloatFormat, items: seq<Any>, er: Role): seq<Any>
    decreases items, 1
  {
    if items == [] then [] else [Norm(fm, items[0], er)] + NormItems(fm, items[1..], er)
  }

  /** Integers keep their spelling exactly, except that -0 becomes 0. */
  lemma IntegersKeepSpelling(fm: FloatFormat, lit: bytes)
    requires Numbers.IsIntLiteral(lit)
    ensures NormNumber(fm, lit) == lit <==> lit != [Numbers.MINUS, 0x30]
  {
    Numbers.IntLiteralIsDecimal(lit);
    Numbers.IntLiteralCanonical(lit);
  }

  // ----- Decoding what was encoded -----

  /** Converting back gives the normalized value. */
  ghost predicate GoesBack(fm: FloatFormat, v: Any, r: Role, c: Any)
    requires Encodable(c)
  {
    var j := Convert(fm, AnyValue(c), r);
    j.Some? && ToAny(j.value) == Norm(fm, v, r)
  }

  lemma {:induction false} ConvertBack(fm: FloatFormat, v: Any, r: Role)
    requires Faithful(fm) && FromJson(v)
    requires ToCbor(fm, v, r).Some? && Encodable(ToCbor(fm, v, r).value)
    ensures GoesBack(fm, v, r, ToCbor(fm, v, r).value)
    decreases v, 1, 0
  {
    hide *;
    if v.ASlice? {
      SliceParts(fm, v, r);
      ConvertItemsBack(fm, v.items, ElementRole(r));
      SliceBack(fm, v, r);
    } else if v.AMap? {
      var c := ToCbor(fm, v, r).value;
      MapConverted(fm, v, r);
      Ordering.SortedIsSorted(c.m.Keys, KeyRank);
      ConvertPairsBack(fm, v, r, Ordering.Sorted(c.m.Keys, KeyRank), {});
      MembersBack(fm, v, r, c);
    } else {
      ScalarBack(fm, v, r);
    }
  }

  lemma {:induction false} SliceParts(fm: FloatFormat, v: Any, r: Role)
    requires v.ASlice? && FromJson(v) && ToCbor(fm, v, r).Some? && Encodable(ToCbor(fm, v, r).value)
    ensures var xs := ItemsToCbor(fm, v.items, ElementRole(r));
            FromJsonItems(v.items) && xs.Some? && EncodableItems(xs.value)
  {
    hide ItemsToCbor, FromJsonItems, EncodableItems, ElementRole;
  }

  lemma {:induction false} MapConverted(fm: FloatFormat, v: Any, r: Role)
    requires v.AMap? && ToCbor(fm, v, r).Some?
    ensures var c := ToCbor(fm, v, r).value; c.AMap? && c.m.Keys == v.m.Keys
  {
    hide ChildRole;
  }

  lemma {:induction false} ScalarBack(fm: FloatFormat, v: Any, r: Role)
    requires Faithful(fm) && FromJson(v) && !v.ASlice? && !v.AMap?
    requires ToCbor(fm, v, r).Some? && Encodable(ToCbor(fm, v, r).value)
    ensures GoesBack(fm, v, r, ToCbor(fm, v, r).value)
  {
    if v.ANumber? {
      NumberBack(fm, v.lit, r);
    } else if v.AString? {
      StringBack(fm, v.s, r);
    }
  }

  lemma {:induction false} LeafConverts(fm: FloatFormat, c: Any, r: Role)
    requires Encodable(c) && (c.AInt? || c.AFloat? || c.AString? || c.ABytes?)
    ensures c.AInt? ==> Convert(fm, AnyValue(c), r) == Some(JNum(Numbers.IntLiteral(c.i)))
    ensures c.AFloat? ==> Convert(fm, AnyValue(c), r) == Some(JNum(fm.literal(c.x)))
    ensures c.AString? && TextOf(c.s, r).Some? ==> Convert(fm, AnyValue(c), r) == Some(JStr(TextOf(c.s, r).value))
    ensures c.ABytes? && r == Base64Slot ==> Convert(fm, AnyValue(c), r) == Some(JStr(TextEncodings.Base64(c.octets)))
    ensures c.ABytes? && r == HexSlot ==> Convert(fm, AnyValue(c), r) == Some(JStr(TextEncodings.Hex(c.octets)))
  {
    hide Numbers.IntLiteral, TextOf, TextEncodings.Base64, TextEncodings.Hex, ConvertItems, ConvertPairs, AnyValues,
      PairValues;
  }

  lemma LeafToAny(x: bytes)
    ensures ToAny(JNum(x)) == ANumber(x) && ToAny(JStr(x)) == AString(x)
  {
  }

  lemma {:induction false} NumberBack(fm: FloatFormat, lit: bytes, r: Role)
    requires Faithful(fm) && NumberToCbor(fm, lit).Some? && Encodable(NumberToCbor(fm, lit).value)
    ensures GoesBack(fm, ANumber(lit), r, NumberToCbor(fm, lit).value)
  {
    hide *;
    var c := NumberToCbor(fm, lit).value;
    NumberNorm(fm, lit, r);
    LeafConverts(fm, c, r);
    var x := if c.AInt? then Numbers.IntLiteral(c.i) else fm.literal(c.x);
    LeafToAny(x);
    GoesBackIf(fm, ANumber(lit), r, c, JNum(x));
  }

  lemma NumberNorm(fm: FloatFormat, lit: bytes, r: Role)
    requires NumberToCbor(fm, lit).Some?
    ensures var c := NumberToCbor(fm, lit).value;
            && (c.AInt? || c.AFloat?)
            && Norm(fm, ANumber(lit), r) == ANumber(if c.AInt? then Numbers.IntLiteral(c.i) else fm.literal(c.x))
  {
    hide Numbers.IsIntLiteral, Numbers.IsDecimal, Numbers.IntValue, Numbers.IntLiteral;
    if Numbers.IsIntLiteral(lit) { Numbers.IntLiteralIsDecimal(lit); }
  }

  lemma {:induction false} StringBack(fm: FloatFormat, s: bytes, r: Role)
    requires Utf8.Valid(s) && StringToCbor(s, r).Some? && Encodable(StringToCbor(s, r).value)
    ensures GoesBack(fm, AString(s), r, StringToCbor(s, r).value)
  {
    hide *;
    var c := StringToCbor(s, r).value;
    StringNorm(fm, s, r);
    LeafConverts(fm, c, r);
    var x := BackText(c, r);
    LeafToAny(x);
    GoesBackIf(fm, AString(s), r, c, JStr(x));
  }

  function BackText(c: Any, r: Role): bytes {
    if c.AString? then c.s
    else if c.ABytes? && r == Base64Slot then TextEncodings.Base64(c.octets)
    else if c.ABytes? then TextEncodings.Hex(c.octets)
    else []
  }

  lemma StringNorm(fm: FloatFormat, s: bytes, r: Role)
    requires Utf8.Valid(s) && StringToCbor(s, r).Some?
    ensures var c := StringToCbor(s, r).value;
            && (c.AString? || c.ABytes?)
            && (c.AString? ==> TextOf(c.s, r) == Some(c.s) && BackText(c, r) == c.s)
            && (c.ABytes? ==> (r == Base64Slot && BackText(c, r) == TextEncodings.Base64(c.octets))
                              || (r == HexSlot && BackText(c, r) == TextEncodings.Hex(c.octets)))
            && Norm(fm, AString(s), r) == AString(BackText(c, r))
  {
    hide Utf8.Valid, TextEncodings.IsLowercaseHex, TextEncodings.HexBytes, TextEncodings.Unbase64, TextEncodings.Hex,
      TextEncodings.Base64, Norm;
    if r == HexSlot { HexComesBack(s, r); }
    NormString(fm, s, r);
  }

  lemma HexComesBack(s: bytes, r: Role)
    requires r == HexSlot && StringToCbor(s, r).Some?
    ensures StringToCbor(s, r).value == ABytes(TextEncodings.HexBytes(s)) && TextEncodings.IsLowercaseHex(s)
    ensures TextEncodings.Hex(TextEncodings.HexBytes(s)) == s
  {
    hide TextEncodings.IsLowercaseHex, TextEncodings.HexBytes, TextEncodings.Hex;
    TextEncodings.HexCanonical(s);
  }

  lemma NormString(fm: FloatFormat, s: bytes, r: Role)
    ensures Norm(fm, AString(s), r) ==
            AString(if r == Base64Slot && TextEncodings.Unbase64(s).Some?
                    then TextEncodings.Base64(TextEncodings.Unbase64(s).value) else s)
  {
    hide TextEncodings.Unbase64, TextEncodings.Base64;
  }

  lemma {:induction false} SliceBack(fm: FloatFormat, v: Any, r: Role)
    requires v.ASlice? && ToCbor(fm, v, r).Some? && Encodable(ToCbor(fm, v, r).value)
    requires var er := ElementRole(r);
             var js := ConvertItems(fm, AnyValues(ItemsToCbor(fm, v.items, er).value), er);
             js.Some? && ItemsToAny(js.value) == NormItems(fm, v.items, er)
    ensures GoesBack(fm, v, r, ToCbor(fm, v, r).value)
  {
    hide ConvertItems, AnyValues, ItemsToCbor, ItemsToAny, NormItems, ElementRole, EncodableItems;
  }

  lemma {:induction false} MembersBack(fm: FloatFormat, v: Any, r: Role, c: Any)
    requires v.AMap? && ToCbor(fm, v, r) == Some(c) && c.AMap? && Encodable(c)
    requires var keys := Ordering.Sorted(c.m.Keys, KeyRank);
             && (forall k :: k in keys <==> k in v.m) && (forall k :: k in keys ==> k in c.m)
             && var fields := ConvertPairs(fm, PairValues(c, keys), r, {});
                && fields.Some?
                && (forall k :: k in FieldsToAny(fields.value) <==> k in keys)
                && (forall k :: k in keys ==> FieldsToAny(fields.value)[k] == Norm(fm, v.m[k], ChildRole(r, k)))
    ensures GoesBack(fm, v, r, c)
  {
    hide *;
    var keys := Ordering.Sorted(c.m.Keys, KeyRank);
    var fields := ConvertPairs(fm, PairValues(c, keys), r, {}).value;
    ConvertedMap(fm, c, r, keys, fields);
    MapBack(fm, v, r, fields);
    GoesBackIf(fm, v, r, c, JObj(fields));
  }

  lemma {:induction false} ConvertedMap(fm: FloatFormat, c: Any, r: Role, keys: seq<bytes>, fields: seq<Field>)
    requires c.AMap? && Encodable(c) && keys == Ordering.Sorted(c.m.Keys, KeyRank) && forall k :: k in keys ==> k in c.m
    requires ConvertPairs(fm, PairValues(c, keys), r, {}) == Some(fields)
    ensures Convert(fm, AnyValue(c), r) == Some(JObj(fields))
  {
    hide ConvertPairs, PairValues, Ordering.Sorted, Encodable;
  }

  lemma {:induction false} GoesBackIf(fm: FloatFormat, v: Any, r: Role, c: Any, j: Json)
    requires Encodable(c) && Convert(fm, AnyValue(c), r) == Some(j) && ToAny(j) == Norm(fm, v, r)
    ensures GoesBack(fm, v, r, c)
  {
    hide Convert, AnyValue, ToAny, Norm, Encodable;
  }

  lemma MapBack(fm: FloatFormat, v: Any, r: Role, fields: seq<Field>)
    requires v.AMap?
    requires FieldsToAny(fields).Keys == v.m.Keys
    requires forall k :: k in v.m ==> FieldsToAny(fields)[k] == Norm(fm, v.m[k], ChildRole(r, k))
    ensures ToAny(JObj(fields)) == Norm(fm, v, r)
  {
    hide Norm, FieldsToAny, ChildRole, ToAny;
    NormMembers(fm, v, r);
    ObjectToAny(fields);
    SameMap(FieldsToAny(fields), Norm(fm, v, r).m);
  }

  lemma ObjectToAny(fields: seq<Field>)
    ensures ToAny(JObj(fields)) == AMap(FieldsToAny(fields))
  {
  }

  lemma NormMembers(fm: FloatFormat, v: Any, r: Role)
    requires v.AMap?
    ensures var n := Norm(fm, v, r);
            && n.AMap? && n.m.Keys == v.m.Keys
            && forall k :: k in v.m ==> n.m[k] == Norm(fm, v.m[k], ChildRole(r, k))
  {
    hide ChildRole;
  }

  lemma {:induction false} ConvertItemsBack(fm: FloatFormat, items: seq<Any>, er: Role)
    requires Faithful(fm) && FromJsonItems(items)
    requires ItemsToCbor(fm, items, er).Some? && EncodableItems(ItemsToCbor(fm, items, er).value)
    ensures var js := ConvertItems(fm, AnyValues(ItemsToCbor(fm, items, er).value), er);
            js.Some? && ItemsToAny(js.value) == NormItems(fm, items, er)
    decreases items, 0, 0
  {
    if items != [] {
      var c, cs := ToCbor(fm, items[0], er).value, ItemsToCbor(fm, items[1..], er).value;
      assert ([c] + cs)[1..] == cs;
      ConvertBack(fm, items[0], er);
      ConvertItemsBack(fm, items[1..], er);
      hide Faithful, ToCbor, Convert, AnyValue, ToAny, Norm, FromJson, Encodable;
      var vs := AnyValues([c] + cs);
      assert vs[1..] == AnyValues(cs);
      var j, js := Convert(fm, vs[0], er).value, ConvertItems(fm, vs[1..], er).value;
      assert ([j] + js)[1..] == js;
    }
  }

  lemma {:induction false} ConvertPairsBack(fm: FloatFormat, v: Any, r: Role, keys: seq<bytes>, seen: set<bytes>)
    requires Faithful(fm) && v.AMap? && FromJson(v)
    requires ToCbor(fm, v, r).Some? && Encodable(ToCbor(fm, v, r).value)
    requires Ordering.NoRepeats(keys) && forall k :: k in keys ==> k in v.m && k !in seen
    ensures var c := ToCbor(fm, v, r).value;
            (forall k :: k in keys ==> k in c.m)
    ensures var fields := ConvertPairs(fm, PairValues(ToCbor(fm, v, r).value, keys), r, seen);
            && fields.Some?
            && (forall k :: k in FieldsToAny(fields.value) <==> k in keys)
            && (forall k :: k in keys ==> FieldsToAny(fields.value)[k] == Norm(fm, v.m[k], ChildRole(r, k)))
    decreases v, 0, |keys|
  {
    if keys != [] {
      var c := ToCbor(fm, v, r).value;
      var k, more := keys[0], keys[1..];
      TailOfKeys(keys);
      MemberConverted(fm, v, r, k);
      hide *;
      ConvertBack(fm, v.m[k], ChildRole(r, k));
      ConvertPairsBack(fm, v, r, more, seen + {k});
      PairBackStep(fm, v, r, c, keys, seen);
    }
  }

  lemma TailOfKeys(keys: seq<bytes>)
    requires keys != [] && Ordering.NoRepeats(keys)
    ensures Ordering.NoRepeats(keys[1..]) && keys[0] !in keys[1..] && keys[0] in keys
    ensures forall x :: x in keys <==> x == keys[0] || x in keys[1..]
  {
    var more := keys[1..];
    forall i | 0 <= i < |more| ensures more[i] != keys[0] { assert keys[i + 1] == more[i]; }
    assert keys == [keys[0]] + more;
  }

  lemma {:induction false} MemberConverted(fm: FloatFormat, v: Any, r: Role, k: bytes)
    requires v.AMap? && FromJson(v) && k in v.m && ToCbor(fm, v, r).Some? && Encodable(ToCbor(fm, v, r).value)
    ensures var c := ToCbor(fm, v, r).value;
            && c.AMap? && c.m.Keys == v.m.Keys && Utf8.Valid(k) && FromJson(v.m[k]) && Encodable(c.m[k])
            && ToCbor(fm, v.m[k], ChildRole(r, k)) == Some(c.m[k])
  {
  }

  lemma {:induction false} PairBackStep(fm: FloatFormat, v: Any, r: Role, c: Any, keys: seq<bytes>, seen: set<bytes>)
    requires keys != [] && v.AMap? && c.AMap? && Encodable(c) && c.m.Keys == v.m.Keys
    requires (forall k :: k in keys ==> k in v.m) && keys[0] !in seen
    requires Utf8.Valid(keys[0]) && Encodable(c.m[keys[0]])
    requires GoesBack(fm, v.m[keys[0]], ChildRole(r, keys[0]), c.m[keys[0]])
    requires forall x :: x in keys <==> x == keys[0] || x in keys[1..]
    requires keys[0] !in keys[1..]
    requires var fields := ConvertPairs(fm, PairValues(c, keys[1..]), r, seen + {keys[0]});
             && fields.Some?
             && (forall k :: k in FieldsToAny(fields.value) <==> k in keys[1..])
             && (forall k :: k in keys[1..] ==> FieldsToAny(fields.value)[k] == Norm(fm, v.m[k], ChildRole(r, k)))
    ensures var fields := ConvertPairs(fm, PairValues(c, keys), r, seen);
            && fields.Some?
            && (forall k :: k in FieldsToAny(fields.value) <==> k in keys)
            && (forall k :: k in keys ==> FieldsToAny(fields.value)[k] == Norm(fm, v.m[k], ChildRole(r, k)))
  {
    assert PairValues(c, keys) == [VText(keys[0]), AnyValue(c.m[keys[0]])] + PairValues(c, keys[1..]);
    hide PairValues, ConvertPairs, FieldsToAny, Norm, ChildRole, AnyValue, Convert, ToAny, Encodable, Utf8.Valid;
    PairBack(fm, keys[0], AnyValue(c.m[keys[0]]), PairValues(c, keys[1..]), r, seen);
  }

  lemma {:induction false} PairBack(fm: FloatFormat, k: bytes, value: Value, rest: seq<Value>, r: Role,
                                    seen: set<bytes>)
    requires Utf8.Valid(k) && k !in seen && Convert(fm, value, ChildRole(r, k)).Some?
    requires ConvertPairs(fm, rest, r, seen + {k}).Some?
    ensures var fields := ConvertPairs(fm, [VText(k), value] + rest, r, seen);
            && fields.Some?
            && FieldsToAny(fields.value) ==
               map[k := ToAny(Convert(fm, value, ChildRole(r, k)).value)]
               + FieldsToAny(ConvertPairs(fm, rest, r, seen + {k}).value)
  {
    hide Convert, ChildRole, Utf8.Valid, ToAny;
    var all := [VText(k), value] + rest;
    assert all[2..] == rest;
    var f, fs := Field(k, Convert(fm, value, ChildRole(r, k)).value), ConvertPairs(fm, rest, r, seen + {k}).value;
    assert ([f] + fs)[1..] == fs;
  }

  // ----- Encoding what was decoded -----

  /** Normalizing changes nothing that the encoder looks at. */
  lemma {:induction false} EncodeAgain(fm: FloatFormat, v: Any, r: Role)
    requires Faithful(fm) && FromJson(v) && ToCbor(fm, v, r).Some?
    ensures ToCbor(fm, Norm(fm, v, r), r) == ToCbor(fm, v, r)
    decreases v, 0
  {
    match v
    case ASlice(items) =>
      EncodeItemsAgain(fm, items, ElementRole(r));
      hide *;
      SliceAgain(fm, v, r);
    case AMap(m) =>
      forall k | k in m ensures MemberAgain(fm, v, r, k) {
        EncodeAgain(fm, m[k], ChildRole(r, k));
      }
      hide *;
      MapAgain(fm, v, r);
    case _ =>
      hide *;
      LeafAgain(fm, v, r);
  }

  lemma {:induction false} SliceAgain(fm: FloatFormat, v: Any, r: Role)
    requires v.ASlice?
    requires var er := ElementRole(r); ItemsToCbor(fm, NormItems(fm, v.items, er), er) == ItemsToCbor(fm, v.items, er)
    ensures ToCbor(fm, Norm(fm, v, r), r) == ToCbor(fm, v, r)
  {
    hide ItemsToCbor, NormItems, ElementRole;
  }

  ghost predicate MemberAgain(fm: FloatFormat, v: Any, r: Role, k: bytes)
    requires v.AMap? && k in v.m
  {
    ToCbor(fm, Norm(fm, v.m[k], ChildRole(r, k)), ChildRole(r, k)) == ToCbor(fm, v.m[k], ChildRole(r, k))
  }

  lemma {:induction false} MapAgain(fm: FloatFormat, v: Any, r: Role)
    requires v.AMap? && ToCbor(fm, v, r).Some? && forall k :: k in v.m ==> MemberAgain(fm, v, r, k)
    ensures ToCbor(fm, Norm(fm, v, r), r) == ToCbor(fm, v, r)
  {
    hide *;
    MapParts(fm, v, r);
    var n, c := Norm(fm, v, r), ToCbor(fm, v, r).value;
    forall k | k in c.m ensures ToCbor(fm, n.m[k], ChildRole(r, k)) == Some(c.m[k]) {
      MemberMeans(fm, v, r, k);
    }
    MembersConverted(fm, n, r, c.m);
  }

  lemma {:induction false} MapParts(fm: FloatFormat, v: Any, r: Role)
    requires v.AMap? && ToCbor(fm, v, r).Some?
    ensures var n, c := Norm(fm, v, r), ToCbor(fm, v, r).value;
            && n.AMap? && n.m.Keys == v.m.Keys && c.AMap? && c.m.Keys == v.m.Keys
            && (forall k :: k in v.m ==> n.m[k] == Norm(fm, v.m[k], ChildRole(r, k)))
            && (forall k :: k in v.m ==> ToCbor(fm, v.m[k], ChildRole(r, k)) == Some(c.m[k]))
  {
    hide ChildRole;
  }

  lemma MemberMeans(fm: FloatFormat, v: Any, r: Role, k: bytes)
    requires v.AMap? && k in v.m && MemberAgain(fm, v, r, k)
    ensures ToCbor(fm, Norm(fm, v.m[k], ChildRole(r, k)), ChildRole(r, k)) == ToCbor(fm, v.m[k], ChildRole(r, k))
  {
  }

  lemma {:induction false} LeafAgain(fm: FloatFormat, v: Any, r: Role)
    requires Faithful(fm) && FromJson(v) && ToCbor(fm, v, r).Some? && !v.ASlice? && !v.AMap?
    ensures ToCbor(fm, Norm(fm, v, r), r) == ToCbor(fm, v, r)
  {
    if v.ANumber? {
      NumberAgain(fm, v.lit);
      hide NumberToCbor, NormNumber;
    } else if v.AString? {
      StringAgain(fm, v.s, r);
    }
  }

  lemma {:induction false} StringAgain(fm: FloatFormat, s: bytes, r: Role)
    requires StringToCbor(s, r).Some?
    ensures ToCbor(fm, Norm(fm, AString(s), r), r) == StringToCbor(s, r)
  {
    hide TextEncodings.Base64, TextEncodings.Unbase64, TextEncodings.IsLowercaseHex, TextEncodings.HexBytes;
    if r == Base64Slot { TextEncodings.Base64RoundTrip(TextEncodings.Unbase64(s).value); }
  }

  lemma NumberAgain(fm: FloatFormat, lit: bytes)
    requires Faithful(fm) && JsonText.IsNumber(lit) && NumberToCbor(fm, lit).Some?
    ensures NumberToCbor(fm, NormNumber(fm, lit)) == NumberToCbor(fm, lit)
  {
    if Numbers.IsIntLiteral(lit) {
      Numbers.IntLiteralIsDecimal(lit);
      var i := Numbers.IntValue(lit);
      Numbers.IntRoundTrip(i);
      Numbers.IntLiteralIsDecimal(Numbers.IntLiteral(i));
    }
  }

  lemma {:induction false} EncodeItemsAgain(fm: FloatFormat, items: seq<Any>, er: Role)
    requires Faithful(fm) && FromJsonItems(items) && ItemsToCbor(fm, items, er).Some?
    ensures ItemsToCbor(fm, NormItems(fm, items, er), er) == ItemsToCbor(fm, items, er)
    decreases items, 1
  {
    if items != [] {
      EncodeAgain(fm, items[0], er);
      EncodeItemsAgain(fm, items[1..], er);
      hide Faithful, ToCbor, Norm;
      assert NormItems(fm, items, er)[1..] == NormItems(fm, items[1..], er);
    }
  }

  // ----- Documents -----

  datatype EncodeError = BadJson | TrailingData | NotAnObject | Unencodable | TooLarge

  /** The CBOR wire form of a JSON document.  What follows the document is refused
      unless it starts with a closing bracket or brace, which `More` overlooks. */
  ghost function EncodeDocument(fm: FloatFormat, doc: bytes): Result<bytes, EncodeError> {
    match JsonText.ParseElem(doc)
    case None => Err(BadJson)
    case Some((e, rest)) =>
      if rest != [] && rest[0] != JsonText.CLOSE_ARRAY && rest[0] != JsonText.CLOSE_OBJECT then Err(TrailingData)
      else if !e.val.Obj? then Err(NotAnObject)
      else
        match ToCbor(fm, ToAny(Meaning(e.val)), Bundle)
        case None => Err(Unencodable)
        case Some(c) => if Encodable(c) then Ok(Wire(fm, c)) else Err(TooLarge)
  }

  ghost function Wire(fm: FloatFormat, c: Any): bytes
    requires Encodable(c)
  {
    if WellFormed(Deterministic(fm, c)) then SELF_DESCRIBED + Serial(Deterministic(fm, c)) else []
  }

  /** What `More` takes for the end of the input: nothing, or a closing bracket or brace. */
  predicate LooksFinished(rest: bytes) {
    rest == [] || rest[0] == JsonText.CLOSE_ARRAY || rest[0] == JsonText.CLOSE_OBJECT
  }

  /** Whatever follows a document is refused, except that a closing bracket or brace and
      everything behind it is overlooked. */
  lemma TrailingRefused(fm: FloatFormat, e: JsonText.Elem, rest: bytes)
    requires JsonText.ElemWellFormed(e) && JsonText.Follows(e, rest)
    ensures var alone := EncodeDocument(fm, JsonText.ElemText(e));
            var all := EncodeDocument(fm, JsonText.ElemText(e) + rest);
            && all == (if LooksFinished(rest) then alone else Err(TrailingData))
            && (alone.Ok? ==> (all.Ok? <==> LooksFinished(rest)))
  {
    hide ToCbor, Encodable, Wire, JsonText.ParseElem, JsonText.ElemText, JsonText.ElemWellFormed;
    JsonText.ParseElemExact(e, rest);
    JsonText.ParseElemExact(e, []);
    assert JsonText.ElemText(e) + [] == JsonText.ElemText(e);
  }

  /** The document `{}]` is accepted, as if it were `{}`. */
  lemma BracketIsOverlooked(fm: FloatFormat)
    ensures EncodeDocument(fm, Ascii("{}]")).Ok?
    ensures EncodeDocument(fm, Ascii("{}]")) == EncodeDocument(fm, Ascii("{}"))
  {
    var e := JsonText.Elem([], JsonText.Obj([], []), []);
    assert JsonText.ElemText(e) == Ascii("{}") && Ascii("{}]") == Ascii("{}") + [JsonText.CLOSE_ARRAY];
    TrailingRefused(fm, e, [JsonText.CLOSE_ARRAY]);
    EmptyObjectEncodes(fm, e);
  }

  lemma EmptyObjectEncodes(fm: FloatFormat, e: JsonText.Elem)
    requires e == JsonText.Elem([], JsonText.Obj([], []), [])
    ensures EncodeDocument(fm, JsonText.ElemText(e)).Ok?
  {
    hide JsonText.ParseElem, JsonText.ElemText, Wire;
    JsonText.ParseElemExact(e, []);
    assert JsonText.ElemText(e) + [] == JsonText.ElemText(e);
    assert ToAny(Meaning(e.val)) == AMap(map[]);
    assert Encodable(AMap(map[]));
  }

  lemma {:induction false} DocumentIsFromJson(d: JsonText.Doc)
    requires JsonText.WellFormed(d)
    ensures FromJson(ToAny(Meaning(d)))
    decreases d, 0
  {
    match d
    case Str(raw) => DecodedIsValid(raw);
    case Arr(es, _) => ElemsAreFromJson(es);
    case Obj(ms, _) => MembersAreFromJson(ms);
    case _ =>
  }

  lemma {:induction false} ElemsAreFromJson(es: seq<JsonText.Elem>)
    requires JsonText.ElemsWellFormed(es)
    ensures FromJsonItems(ItemsToAny(ElemsMeaning(es)))
    decreases es, 1
  {
    if es != [] {
      DocumentIsFromJson(es[0].val);
      ElemsAreFromJson(es[1..]);
      assert ElemsMeaning(es)[1..] == ElemsMeaning(es[1..]);
      assert ItemsToAny(ElemsMeaning(es))[1..] == ItemsToAny(ElemsMeaning(es[1..]));
    }
  }

  lemma {:induction false} MembersAreFromJson(ms: seq<JsonText.Member>)
    requires JsonText.MembersWellFormed(ms)
    ensures var m := FieldsToAny(MembersMeaning(ms)); forall k :: k in m ==> Utf8.Valid(k) && FromJson(m[k])
    decreases ms, 1
  {
    if ms != [] {
      MemberIsFromJson(ms[0]);
      MembersAreFromJson(ms[1..]);
      assert MembersMeaning(ms)[1..] == MembersMeaning(ms[1..]);
    }
  }

  lemma {:induction false} MemberIsFromJson(m: JsonText.Member)
    requires JsonText.MemberWellFormed(m)
    ensures var f := MemberMeaning(m); Utf8.Valid(f.name) && FromJson(ToAny(f.val))
    decreases m, 0
  {
    DocumentIsFromJson(m.elem.val);
    DecodedIsValid(m.key.raw);
  }

  /** A value that was encoded decodes to its normal form, and the decoder stops at
      the last byte. */
  lemma {:induction false} RoundTrip(fm: FloatFormat, v: Any)
    requires Faithful(fm) && v.AMap? && FromJson(v)
    requires ToCbor(fm, v, Bundle).Some? && Encodable(ToCbor(fm, v, Bundle).value)
    ensures var data := Wire(fm, ToCbor(fm, v, Bundle).value);
            && DecodeBundle(fm, data).Ok?
            && ToAny(DecodeBundle(fm, data).value) == Norm(fm, v, Bundle)
            && ParseItem(Untagged(data)) == Some((Deterministic(fm, ToCbor(fm, v, Bundle).value), []))
  {
    hide *;
    var c := ToCbor(fm, v, Bundle).value;
    MapConverted(fm, v, Bundle);
    DeterministicMeans(fm, c);
    ConvertBack(fm, v, Bundle);
    WentBack(fm, v, Bundle, c);
    WireDecodes(fm, c);
  }

  lemma {:induction false} WentBack(fm: FloatFormat, v: Any, r: Role, c: Any)
    requires Encodable(c) && GoesBack(fm, v, r, c)
    ensures var j := Convert(fm, AnyValue(c), r); j.Some? && ToAny(j.value) == Norm(fm, v, r)
  {
    hide Convert, AnyValue, ToAny, Norm, Encodable;
  }

  lemma {:induction false} WireDecodes(fm: FloatFormat, c: Any)
    requires Encodable(c) && c.AMap?
    requires WellFormed(Deterministic(fm, c)) && ItemValue(fm, Deterministic(fm, c)) == AnyValue(c)
    requires Convert(fm, AnyValue(c), Bundle).Some?
    ensures DecodeBundle(fm, Wire(fm, c)) == Ok(Convert(fm, AnyValue(c), Bundle).value)
    ensures ParseItem(Untagged(Wire(fm, c))) == Some((Deterministic(fm, c), []))
  {
    var i := Deterministic(fm, c);
    assert i.Table?;
    hide Deterministic, Encodable, WellFormed, Serial, ItemValue, AnyValue, Convert, ParseItem, DecodeBundle;
    assert Wire(fm, c) + [] == Wire(fm, c) && Serial(i) + [] == Serial(i);
    Spelled(fm, i, true, []);
    ParseExact(i, []);
    assert Untagged(Wire(fm, c)) == Serial(i);
  }

  /** For every JSON document that encodes: its CBOR form decodes to the document's
      own values in normal form, printing gives a text that reads back to them, and
      encoding that text gives the same CBOR bytes. */
  lemma {:induction false} DocumentRoundTrip(fm: FloatFormat, doc: bytes)
    requires Faithful(fm) && EncodeDocument(fm, doc).Ok?
    ensures var data := EncodeDocument(fm, doc).value;
            var d := JsonText.ParseElem(doc).value.0.val;
            && DecodeBundle(fm, data).Ok?
            && var j := DecodeBundle(fm, data).value;
               && ToAny(j) == Norm(fm, ToAny(Meaning(d)), Bundle)
               && Read(Print(j)) == Some(j)
               && EncodeDocument(fm, Print(j)) == Ok(data)
  {
    hide *;
    var d := EncodedDocument(fm, doc);
    FaithfulWrites(fm);
    var data := EncodeDocument(fm, doc).value;
    var v := ToAny(Meaning(d));
    DocumentIsFromJson(d);
    RoundTrip(fm, v);
    EncodeAgain(fm, v, Bundle);
    NormIsMap(fm, v);
    EncodePrinted(fm, data, DecodeBundle(fm, data).value);
  }

  lemma FaithfulWrites(fm: FloatFormat)
    requires Faithful(fm)
    ensures WritesFloats(fm)
  {
    hide WritesFloats;
  }

  lemma NormIsMap(fm: FloatFormat, v: Any)
    requires v.AMap?
    ensures Norm(fm, v, Bundle).AMap?
  {
  }

  /** What was encoded is the converted value of a well-formed object. */
  lemma EncodedDocument(fm: FloatFormat, doc: bytes) returns (d: JsonText.Doc)
    requires EncodeDocument(fm, doc).Ok?
    ensures JsonText.ParseElem(doc).Some? && d == JsonText.ParseElem(doc).value.0.val && JsonText.WellFormed(d)
    ensures ToAny(Meaning(d)).AMap? && ToCbor(fm, ToAny(Meaning(d)), Bundle).Some?
    ensures var c := ToCbor(fm, ToAny(Meaning(d)), Bundle).value;
            Encodable(c) && EncodeDocument(fm, doc) == Ok(Wire(fm, c))
  {
    hide JsonText.ParseElem, ToCbor, Encodable, Wire, JsonText.WellFormed;
    JsonText.ElemTextExact(doc);
    d := JsonText.ParseElem(doc).value.0.val;
    ObjectIsMap(d);
  }

  lemma ObjectIsMap(d: JsonText.Doc)
    requires d.Obj?
    ensures ToAny(Meaning(d)).AMap?
  {
  }

  lemma {:induction false} EncodePrinted(fm: FloatFormat, data: bytes, j: Json)
    requires WritesFloats(fm) && DecodeBundle(fm, data) == Ok(j) && ToAny(j).AMap?
    ensures Read(Print(j)) == Some(j)
    ensures EncodeDocument(fm, Print(j)) ==
            match ToCbor(fm, ToAny(j), Bundle)
            case None => Err(Unencodable)
            case Some(c) => if Encodable(c) then Ok(Wire(fm, c)) else Err(TooLarge)
  {
    hide Convert, ItemValue, ParseItem, DecodeBundle, ToCbor, Encodable, Wire;
    BundleAgrees(fm, data);
    ConvertIsSound(fm, ItemValue(fm, ParseItem(Untagged(data)).value.0), Bundle);
    JsonPrint.ReadPrint(j);
    JsonPrint.CompactMeans(j);
    JsonPrint.PrintIsText(j);
    var e := JsonText.Elem([], JsonPrint.Compact(j), []);
    JsonPrint.BareElem(e.val);
    JsonText.ParseElemExact(e, []);
    assert Print(j) + [] == Print(j);
  }
}
