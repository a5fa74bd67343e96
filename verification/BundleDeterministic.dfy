/**
 The encoder's output is in core deterministic form (RFC 8949 section 4.2.1), and does
 not depend on the order in which a JSON document lists an object's members.
 */
module BundleDeterministic {
  import opened Bytes
  import opened CborSyntax
  import opened JsonTree
  import opened BundleValue
  import opened BundleEncode
  import opened BundleRoundTrip
  import BundleDecode
  import Ordering

  // ----- Core deterministic form -----

  /** No narrower width than `f` widens to `x`. */
  ghost predicate Narrowest(fm: FloatFormat, f: Form, x: uint64) {
    forall g: Form, bits: uint64 ::
      (g == Two || g == Four || g == Eight) && ArgLen(g) < ArgLen(f) && Fits(g, bits) ==> fm.widen(g, bits) != x
  }

  /** Narrowing picks the narrowest width that loses nothing. */
  ghost predicate Narrows(fm: FloatFormat) {
    forall x: uint64 :: Finite(x) ==> Narrowest(fm, fm.narrow(x).0, x)
  }

  /** Every head as short as possible and of definite length, every float as narrow as
      its value allows, every map's keys in the ascending order of their encoded bytes,
      none twice. */
  ghost predicate Core(fm: FloatFormat, i: Item)
    decreases i, 0
  {
    match i
    case Number(_, f, arg) => f == Shortest(arg)
    case Whole(_, f, content) => |content| < 0x1_0000_0000_0000_0000 && f == Shortest(|content|)
    case Chunked(_, _) => false
    case List(f, items) => |items| < 0x1_0000_0000_0000_0000 && f == Shortest(|items|) && CoreItems(fm, items)
    case Table(f, items) =>
      && |items| < 0x2_0000_0000_0000_0000 && f == Shortest(|items| / 2)
      && CoreItems(fm, items) && KeysAscend(items)
    case Tag(f, tag, item) => f == Shortest(tag) && Core(fm, item)
    case Simple(f, n) => f == Tiny
    case Float(f, bits) => Narrowest(fm, f, fm.widen(f, bits))
  }

  ghost predicate CoreItems(fm: FloatFormat, items: seq<Item>)
    decreases items, 1
  {
    items == [] || (Core(fm, items[0]) && CoreItems(fm, items[1..]))
  }

  /** Keys and values alternate. */
  ghost predicate KeysAscend(items: seq<Item>) {
    |items| < 4
    || (&& WellFormed(items[0]) && WellFormed(items[2]) && Serial(items[0]) != Serial(items[2])
        && Ordering.NotAfter(Serial(items[0]), Serial(items[2]))
        && KeysAscend(items[2..]))
  }

  function KeyItem(k: bytes): (i: Item)
    requires |k| < 0x1_0000_0000_0000_0000
    ensures WellFormed(i)
  {
    Whole(true, Shortest(|k|), k)
  }

  /** Keys are ranked by the very bytes they are encoded as. */
  lemma KeyRankIsEncoding(k: bytes)
    requires |k| < 0x1_0000_0000_0000_0000
    ensures KeyRank(k) == Serial(KeyItem(k))
  {
  }

  lemma EncodingIsInjective(k: bytes, l: bytes)
    requires |k| < 0x1_0000_0000_0000_0000 && |l| < 0x1_0000_0000_0000_0000 && Serial(KeyItem(k)) == Serial(KeyItem(l))
    ensures k == l
  {
    hide Serial, ParseItem;
    ParseExact(KeyItem(k), []);
    ParseExact(KeyItem(l), []);
    assert KeyItem(k) == KeyItem(l);
  }

  lemma {:induction false} DeterministicIsCore(fm: FloatFormat, v: Any)
    requires Faithful(fm) && Narrows(fm) && Encodable(v)
    ensures Core(fm, Deterministic(fm, v))
    decreases v, 1, 0
  {
    if v.ASlice? {
      ItemsAreCore(fm, v.items);
      hide *;
      SliceIsCore(fm, v);
    } else if v.AMap? {
      Ordering.SortedIsSorted(v.m.Keys, KeyRank);
      var keys := Ordering.Sorted(v.m.Keys, KeyRank);
      PairsAreCore(fm, v, keys);
      PairsAscend(fm, v, keys);
      hide *;
      MapIsCore(fm, v);
    } else {
      hide *;
      ScalarIsCore(fm, v);
    }
  }

  lemma {:induction false} ScalarIsCore(fm: FloatFormat, v: Any)
    requires Faithful(fm) && Narrows(fm) && Encodable(v) && !v.ASlice? && !v.AMap?
    ensures Core(fm, Deterministic(fm, v))
  {
    hide WritesFloats, Narrowest;
  }

  lemma {:induction false} SliceIsCore(fm: FloatFormat, v: Any)
    requires v.ASlice? && Encodable(v) && CoreItems(fm, DeterministicItems(fm, v.items))
    ensures Core(fm, Deterministic(fm, v))
  {
    hide CoreItems, DeterministicItems, EncodableItems;
  }

  lemma {:induction false} MapIsCore(fm: FloatFormat, v: Any)
    requires v.AMap? && Encodable(v)
    requires var keys := Ordering.Sorted(v.m.Keys, KeyRank);
             && (forall k :: k in keys ==> k in v.m) && |keys| == |v.m|
             && CoreItems(fm, DeterministicPairs(fm, v, keys)) && KeysAscend(DeterministicPairs(fm, v, keys))
    ensures Core(fm, Deterministic(fm, v))
  {
    hide *;
    MapIsTable(fm, v);
    var items := DeterministicPairs(fm, v, Ordering.Sorted(v.m.Keys, KeyRank));
    SmallMap(v);
    TableIsCore(fm, |v.m|, items);
  }

  lemma {:induction false} MapIsTable(fm: FloatFormat, v: Any)
    requires v.AMap? && Encodable(v)
    requires forall k :: k in Ordering.Sorted(v.m.Keys, KeyRank) ==> k in v.m
    ensures |v.m| < 0x1_0000_0000_0000_0000
    ensures Deterministic(fm, v)
            == Table(Shortest(|v.m|), DeterministicPairs(fm, v, Ordering.Sorted(v.m.Keys, KeyRank)))
  {
    hide Shortest, DeterministicPairs, Ordering.Sorted, KeyRank;
  }

  lemma {:induction false} SmallMap(v: Any)
    requires v.AMap? && Encodable(v)
    ensures |v.m| < 0x1_0000_0000_0000_0000
  {
  }

  lemma {:induction false} TableIsCore(fm: FloatFormat, n: nat, items: seq<Item>)
    requires n < 0x1_0000_0000_0000_0000 && |items| == 2 * n && CoreItems(fm, items) && KeysAscend(items)
    ensures Core(fm, Table(Shortest(n), items))
  {
    hide CoreItems, KeysAscend, Shortest;
  }

  lemma {:induction false} ItemsAreCore(fm: FloatFormat, items: seq<Any>)
    requires Faithful(fm) && Narrows(fm) && EncodableItems(items)
    ensures CoreItems(fm, DeterministicItems(fm, items))
    decreases items, 0, 0
  {
    if items != [] {
      DeterministicIsCore(fm, items[0]);
      ItemsAreCore(fm, items[1..]);
      hide Core, Deterministic, Encodable, Faithful, Narrows;
      assert DeterministicItems(fm, items)[1..] == DeterministicItems(fm, items[1..]);
    }
  }

  lemma {:induction false} PairsAreCore(fm: FloatFormat, v: Any, keys: seq<bytes>)
    requires Faithful(fm) && Narrows(fm) && v.AMap? && Encodable(v) && forall k :: k in keys ==> k in v.m
    ensures CoreItems(fm, DeterministicPairs(fm, v, keys))
    decreases v, 0, |keys|
  {
    if keys != [] {
      var k := keys[0];
      assert k in v.m && Encodable(v.m[k]) && |k| < 0x1_0000_0000_0000_0000;
      DeterministicIsCore(fm, v.m[k]);
      PairsAreCore(fm, v, keys[1..]);
      hide Deterministic, Encodable, Faithful, Narrows, Narrowest;
      CoreTwo(fm, KeyItem(k), Deterministic(fm, v.m[k]), DeterministicPairs(fm, v, keys[1..]));
    }
  }

  lemma CoreTwo(fm: FloatFormat, a: Item, b: Item, rest: seq<Item>)
    ensures CoreItems(fm, [a, b] + rest) == (Core(fm, a) && Core(fm, b) && CoreItems(fm, rest))
  {
    hide Core;
    assert ([a, b] + rest)[1..] == [b] + rest && ([b] + rest)[1..] == rest;
  }

  lemma {:induction false} PairsAscend(fm: FloatFormat, v: Any, keys: seq<bytes>)
    requires v.AMap? && Encodable(v) && forall k :: k in keys ==> k in v.m
    requires Ordering.NoRepeats(keys) && Ordering.Ascending(keys, KeyRank)
    ensures KeysAscend(DeterministicPairs(fm, v, keys))
    decreases |keys|
  {
    if |keys| > 1 {
      var k, l := keys[0], keys[1];
      var rest := keys[1..];
      assert k in keys && l in keys && |k| < 0x1_0000_0000_0000_0000 && |l| < 0x1_0000_0000_0000_0000;
      assert Ordering.NotAfter(KeyRank(k), KeyRank(l)) && k != l;
      forall i, j | 0 <= i < j < |rest|
        ensures rest[i] != rest[j] && Ordering.NotAfter(KeyRank(rest[i]), KeyRank(rest[j]))
      {
        assert rest[i] == keys[i + 1] && rest[j] == keys[j + 1];
      }
      PairsAscend(fm, v, rest);
      KeyRankIsEncoding(k);
      KeyRankIsEncoding(l);
      if Serial(KeyItem(k)) == Serial(KeyItem(l)) { EncodingIsInjective(k, l); }
      hide Deterministic, Encodable, Serial, KeyRank, WellFormed, Ordering.NotAfter;
      var more := DeterministicPairs(fm, v, rest);
      assert DeterministicPairs(fm, v, keys) == [KeyItem(k), Deterministic(fm, v.m[k])] + more;
      assert more[0] == KeyItem(l);
      AscendTwo(KeyItem(k), Deterministic(fm, v.m[k]), more);
    }
  }

  lemma AscendTwo(a: Item, b: Item, more: seq<Item>)
    requires |more| >= 2 && WellFormed(a) && WellFormed(more[0]) && Serial(a) != Serial(more[0])
    requires Ordering.NotAfter(Serial(a), Serial(more[0])) && KeysAscend(more)
    ensures KeysAscend([a, b] + more)
  {
    hide Serial, WellFormed, Ordering.NotAfter;
    assert ([a, b] + more)[2..] == more && ([a, b] + more)[2] == more[0];
  }

  // ----- The order of members does not matter -----

  lemma {:induction false} NameAbsent(fields: seq<Field>, k: bytes)
    requires forall i :: 0 <= i < |fields| ==> fields[i].name != k
    ensures k !in FieldsToAny(fields)
  {
    hide ToAny;
    if fields != [] { NameAbsent(fields[1..], k); }
  }

  lemma {:induction false} FieldPresent(fields: seq<Field>, f: Field)
    requires Distinct(fields) && f in fields
    ensures f.name in FieldsToAny(fields) && FieldsToAny(fields)[f.name] == ToAny(f.val)
  {
    hide ToAny;
    var more := fields[1..];
    assert forall i :: 0 <= i < |more| ==> more[i] == fields[i + 1];
    if f == fields[0] {
      NameAbsent(more, f.name);
    } else {
      FieldPresent(more, f);
    }
  }

  lemma {:induction false} KeyHasField(fields: seq<Field>, k: bytes)
    requires k in FieldsToAny(fields)
    ensures exists i :: 0 <= i < |fields| && fields[i].name == k
  {
    hide ToAny;
    if fields[0].name != k {
      KeyHasField(fields[1..], k);
      var i :| 0 <= i < |fields[1..]| && fields[1..][i].name == k;
      assert fields[i + 1].name == k;
    }
  }

  /** However an object lists its members, the encoder is given the same value, so it
      writes the same bytes. */
  lemma MemberOrderIsLost(a: seq<Field>, b: seq<Field>)
    requires Distinct(a) && Distinct(b) && forall f :: f in a <==> f in b
    ensures ToAny(JObj(a)) == ToAny(JObj(b))
  {
    hide ToAny, FieldsToAny;
    var m, n := FieldsToAny(a), FieldsToAny(b);
    forall k ensures k in m <==> k in n {
      if k in m { SameKey(a, b, k); }
      if k in n { SameKey(b, a, k); }
    }
    forall k | k in m ensures m[k] == n[k] {
      SameKey(a, b, k);
    }
    assert m == n;
    ObjectToAny(a);
    ObjectToAny(b);
  }

  lemma SameKey(a: seq<Field>, b: seq<Field>, k: bytes)
    requires Distinct(a) && Distinct(b) && (forall f :: f in a ==> f in b) && k in FieldsToAny(a)
    ensures k in FieldsToAny(b) && FieldsToAny(b)[k] == FieldsToAny(a)[k]
  {
    hide ToAny, FieldsToAny, Distinct;
    KeyHasField(a, k);
    var i :| 0 <= i < |a| && a[i].name == k;
    assert a[i] in a;
    FieldPresent(a, a[i]);
    FieldPresent(b, a[i]);
  }

  /** A document's wire form is the marker tag and one item in core deterministic form. */
  lemma EncodedIsCore(fm: FloatFormat, doc: bytes)
    requires Faithful(fm) && Narrows(fm) && EncodeDocument(fm, doc).Ok?
    ensures exists i: Item :: WellFormed(i) && Core(fm, i) && i.Table?
                              && EncodeDocument(fm, doc) == Ok(BundleDecode.SELF_DESCRIBED + Serial(i))
  {
    hide *;
    var c := EncodedValue(fm, doc);
    DeterministicMeans(fm, c);
    DeterministicIsCore(fm, c);
    WireIsItem(fm, c);
    var i := Deterministic(fm, c);
    assert WellFormed(i) && Core(fm, i) && i.Table?
           && EncodeDocument(fm, doc) == Ok(BundleDecode.SELF_DESCRIBED + Serial(i));
  }

  lemma EncodedValue(fm: FloatFormat, doc: bytes) returns (c: Any)
    requires EncodeDocument(fm, doc).Ok?
    ensures c.AMap? && Encodable(c) && EncodeDocument(fm, doc) == Ok(Wire(fm, c))
  {
    hide *;
    var d := EncodedDocument(fm, doc);
    c := ToCbor(fm, ToAny(Meaning(d)), Bundle).value;
    MapConverted(fm, ToAny(Meaning(d)), Bundle);
  }

  lemma WireIsItem(fm: FloatFormat, c: Any)
    requires c.AMap? && Encodable(c) && WellFormed(Deterministic(fm, c))
    ensures Deterministic(fm, c).Table?
    ensures Wire(fm, c) == BundleDecode.SELF_DESCRIBED + Serial(Deterministic(fm, c))
  {
    hide DeterministicPairs, Serial, WellFormed;
  }
}
