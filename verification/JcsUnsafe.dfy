/**
 The producer's rule: integers beyond 2^53 - 1, found by walking a decoded value with
 object keys in sorted order.  It reports what the scanner reports, and the integers
 of magnitude exactly 2^53 besides.
 */
module JcsUnsafe {
  import opened Bytes
  import opened JsonText
  import opened JsonTree
  import opened BundleEncode
  import opened JcsScan
  import opened JcsCanon
  import opened JcsMentions
  import Numbers
  import Ordering

  const MAX_SAFE_INTEGER := 0x1F_FFFF_FFFF_FFFF

  /** An offending integer and the dotted path that locates it. */
  datatype Unsafe = Unsafe(path: bytes, lit: bytes)

  function KeyPath(path: bytes, k: bytes): bytes {
    path + [0x2E] + k
  }

  function IndexPath(path: bytes, i: nat): bytes {
    path + [OPEN_ARRAY] + Numbers.Digits(i) + [CLOSE_ARRAY]
  }

  /** Byte order, which is how `sort.Strings` compares. */
  function ByteRank(k: bytes): seq<int> {
    k
  }

  ghost function SortedKeys(keys: set<bytes>): seq<bytes> {
    Ordering.Sorted(keys, ByteRank)
  }

  function NumberUnsafe(path: bytes, lit: bytes): seq<Unsafe> {
    if Flagged(lit, MAX_SAFE_INTEGER) then [Unsafe(path, lit)] else []
  }

  function IntUnsafe(path: bytes, i: int): seq<Unsafe> {
    if Abs(i) > MAX_SAFE_INTEGER then [Unsafe(path, Numbers.IntLiteral(i))] else []
  }

  /** Every offender, object members by sorted key and array elements by index. */
  ghost function UnsafeIntegers(path: bytes, v: Any): seq<Unsafe>
    decreases v, 1, 0
  {
    match v
    case AMap(m) =>
      Ordering.SortedIsSorted(m.Keys, ByteRank);
      UnsafeMembers(path, v, SortedKeys(m.Keys))
    case ASlice(items) => UnsafeItems(path, items, 0)
    case ANumber(lit) => NumberUnsafe(path, lit)
    case AInt(i) => IntUnsafe(path, i)
    case _ => []
  }

  ghost function UnsafeItems(path: bytes, items: seq<Any>, i: nat): seq<Unsafe>
    decreases items, 0, 0
  {
    if items == [] then [] else UnsafeIntegers(IndexPath(path, i), items[0]) + UnsafeItems(path, items[1..], i + 1)
  }

  ghost function UnsafeMembers(path: bytes, v: Any, keys: seq<bytes>): seq<Unsafe>
    requires v.AMap? && forall k :: k in keys ==> k in v.m
    decreases v, 0, |keys|
  {
    if keys == [] then []
    else UnsafeIntegers(KeyPath(path, keys[0]), v.m[keys[0]]) + UnsafeMembers(path, v, keys[1..])
  }

  // ----- The walk -----

  lemma {:induction false} AscendingAdjacent(s: seq<bytes>)
    requires Ordering.Ascending(s, ByteRank)
    ensures Ascends(ByteRank, s)
  {
    if |s| > 1 {
      assert Ordering.NotAfter(ByteRank(s[0]), ByteRank(s[1]));
      var t := s[1..];
      forall i, j | 0 <= i < j < |t| ensures Ordering.NotAfter(ByteRank(t[i]), ByteRank(t[j])) {
        assert t[i] == s[i + 1] && t[j] == s[j + 1];
      }
      AscendingAdjacent(t);
    }
  }

  lemma {:induction false} CountOnce(s: seq<bytes>, x: bytes)
    requires Ordering.NoRepeats(s)
    ensures multiset(s)[x] == if x in s then 1 else 0
  {
    if s != [] {
      var t := s[1..];
      assert s == [s[0]] + t;
      forall i, j | 0 <= i < j < |t| ensures t[i] != t[j] {
        assert t[i] == s[i + 1] && t[j] == s[j + 1];
      }
      assert forall k :: 0 <= k < |t| ==> t[k] == s[k + 1] != s[0];
      CountOnce(t, x);
    }
  }

  lemma NoRepeatsBag(s: seq<bytes>, keys: set<bytes>)
    requires Ordering.NoRepeats(s) && forall k :: k in s <==> k in keys
    ensures multiset(s) == multiset(keys)
  {
    forall x ensures multiset(s)[x] == multiset(keys)[x] {
      CountOnce(s, x);
    }
  }

  /** The keys of a map, gathered in any order and sorted. */
  method KeysInOrder(m: map<bytes, Any>) returns (keys: seq<bytes>)
    ensures keys == SortedKeys(m.Keys)
    ensures Ordering.NoRepeats(keys) && forall k :: k in keys <==> k in m
    ensures forall i, j :: 0 <= i < j < |keys| ==> Ordering.NotAfter(keys[i], keys[j])
  {
    var gathered: seq<bytes> := [];
    var todo := m.Keys;
    while todo != {}
      invariant todo <= m.Keys
      invariant multiset(gathered) + multiset(todo) == multiset(m.Keys)
      decreases |todo|
    {
      var k :| k in todo;
      gathered := gathered + [k];
      todo := todo - {k};
    }
    keys := SortBy(ByteRank, gathered);
    SortAscends(ByteRank, gathered);
    Ordering.SortedIsSorted(m.Keys, ByteRank);
    var s := SortedKeys(m.Keys);
    NoRepeatsBag(s, m.Keys);
    AscendingAdjacent(s);
    AscendingUnique(ByteRank, keys, s);
    RanksAreKeys(keys);
  }

  lemma RanksAreKeys(keys: seq<bytes>)
    requires Ordering.Ascending(keys, ByteRank)
    ensures forall i, j :: 0 <= i < j < |keys| ==> Ordering.NotAfter(keys[i], keys[j])
  {
    hide Ordering.NotAfter;
    forall i, j | 0 <= i < j < |keys| ensures Ordering.NotAfter(keys[i], keys[j]) {
      assert Ordering.NotAfter(ByteRank(keys[i]), ByteRank(keys[j]));
    }
  }

  lemma MembersStep(path: bytes, v: Any, keys: seq<bytes>, i: nat)
    requires v.AMap? && i < |keys| && forall k :: k in keys[i..] ==> k in v.m
    ensures keys[i] in v.m && forall k :: k in keys[i + 1..] ==> k in v.m
    ensures UnsafeMembers(path, v, keys[i..]) ==
            UnsafeIntegers(KeyPath(path, keys[i]), v.m[keys[i]]) + UnsafeMembers(path, v, keys[i + 1..])
  {
    hide UnsafeIntegers, KeyPath;
    var rest := keys[i..];
    assert rest[0] == keys[i] && rest[1..] == keys[i + 1..] && keys[i] in rest;
    assert forall k :: k in rest[1..] ==> k in rest;
  }

  lemma ItemsStep(path: bytes, items: seq<Any>, i: nat)
    requires i < |items|
    ensures UnsafeItems(path, items[i..], i) ==
            UnsafeIntegers(IndexPath(path, i), items[i]) + UnsafeItems(path, items[i + 1..], i + 1)
  {
    hide UnsafeIntegers, IndexPath;
    var rest := items[i..];
    assert rest[0] == items[i] && rest[1..] == items[i + 1..];
  }

  lemma WalkMap(path: bytes, v: Any)
    requires v.AMap?
    ensures forall k :: k in SortedKeys(v.m.Keys) ==> k in v.m
    ensures UnsafeIntegers(path, v) == UnsafeMembers(path, v, SortedKeys(v.m.Keys))
    ensures UnsafeMembers(path, v, []) == []
  {
    hide UnsafeItems, Ordering.Sorted;
    Ordering.SortedIsSorted(v.m.Keys, ByteRank);
  }

  lemma WalkSlice(path: bytes, v: Any)
    requires v.ASlice?
    ensures UnsafeIntegers(path, v) == UnsafeItems(path, v.items, 0) && UnsafeItems(path, [], |v.items|) == []
  {
    hide UnsafeMembers, SortedKeys;
  }

  lemma WalkLeaf(path: bytes, v: Any)
    requires !v.AMap? && !v.ASlice?
    ensures UnsafeIntegers(path, v) ==
            if v.ANumber? then NumberUnsafe(path, v.lit) else if v.AInt? then IntUnsafe(path, v.i) else []
  {
    hide UnsafeMembers, UnsafeItems, SortedKeys, Flagged;
  }

  /** Appends the offenders of `v` to those already found. */
  method WalkUnsafeIntegers(path: bytes, v: Any, found: seq<Unsafe>) returns (all: seq<Unsafe>)
    ensures all == found + UnsafeIntegers(path, v)
    decreases v, 0
  {
    hide UnsafeIntegers, UnsafeMembers, UnsafeItems, SortedKeys, Flagged, KeyPath, IndexPath;
    all := found;
    match v {
      case AMap(m) =>
        WalkMap(path, v);
        var keys := KeysInOrder(m);
        assert keys[0..] == keys;
        for i := 0 to |keys|
          invariant forall k :: k in keys[i..] ==> k in m
          invariant found + UnsafeIntegers(path, v) == all + UnsafeMembers(path, v, keys[i..])
        {
          MembersStep(path, v, keys, i);
          all := WalkUnsafeIntegers(KeyPath(path, keys[i]), m[keys[i]], all);
        }
        assert keys[|keys|..] == [];
      case ASlice(items) =>
        WalkSlice(path, v);
        assert items[0..] == items;
        for i := 0 to |items|
          invariant found + UnsafeIntegers(path, v) == all + UnsafeItems(path, items[i..], i)
        {
          ItemsStep(path, items, i);
          all := WalkUnsafeIntegers(IndexPath(path, i), items[i], all);
        }
        assert items[|items|..] == [];
      case ANumber(lit) =>
        WalkLeaf(path, v);
        if Flagged(lit, MAX_SAFE_INTEGER) {
          all := all + [Unsafe(path, lit)];
        }
      case AInt(i) =>
        WalkLeaf(path, v);
        if Abs(i) > MAX_SAFE_INTEGER {
          all := all + [Unsafe(path, Numbers.IntLiteral(i))];
        }
      case _ => WalkLeaf(path, v);
    }
  }

  // ----- Against the scanner -----

  function Beyond(lits: seq<bytes>, limit: nat): seq<bytes> {
    if lits == [] then [] else (if Exceeds(lits[0], limit) then [lits[0]] else []) + Beyond(lits[1..], limit)
  }

  /** Integers of magnitude exactly 2^53. */
  function AtLimit(lits: seq<bytes>): seq<bytes> {
    if lits == [] then []
    else (if Exceeds(lits[0], MAX_SAFE_INTEGER) && !Oversized(lits[0]) then [lits[0]] else []) + AtLimit(lits[1..])
  }

  lemma AtLimitExactly(lit: bytes)
    ensures Exceeds(lit, MAX_SAFE_INTEGER) && !Oversized(lit) <==>
            Numbers.IsDecimal(lit) && Abs(Numbers.IntValue(lit)) == MAX_EXACT_INTEGER
  {
    Numbers.IntLiteralIsDecimal(lit);
  }

  function Lits(found: seq<Unsafe>): seq<bytes> {
    if found == [] then [] else [found[0].lit] + Lits(found[1..])
  }

  lemma LitsStep(a: seq<Unsafe>)
    ensures Lits(a) == if a == [] then [] else [a[0].lit] + Lits(a[1..])
  {
  }

  lemma {:induction false} LitsConcat(a: seq<Unsafe>, b: seq<Unsafe>)
    ensures Lits(a + b) == Lits(a) + Lits(b)
  {
    hide *;
    AppendStep(a, b);
    LitsStep(a);
    if a == [] {
      Associate([], [], Lits(b));
    } else {
      LitsStep(a + b);
      LitsConcat(a[1..], b);
      Associate([a[0].lit], Lits(a[1..]), Lits(b));
    }
  }

  lemma BeyondStep(a: seq<bytes>, limit: nat)
    ensures Beyond(a, limit) ==
            if a == [] then [] else (if Exceeds(a[0], limit) then [a[0]] else []) + Beyond(a[1..], limit)
  {
  }

  lemma {:induction false} BeyondConcat(a: seq<bytes>, b: seq<bytes>, limit: nat)
    ensures Beyond(a + b, limit) == Beyond(a, limit) + Beyond(b, limit)
  {
    hide *;
    AppendStep(a, b);
    BeyondStep(a, limit);
    if a == [] {
      Associate([], [], Beyond(b, limit));
    } else {
      BeyondStep(a + b, limit);
      BeyondConcat(a[1..], b, limit);
      Associate(if Exceeds(a[0], limit) then [a[0]] else [], Beyond(a[1..], limit), Beyond(b, limit));
    }
  }

  function SafeBag(lits: seq<bytes>): multiset<bytes> {
    multiset(Beyond(lits, MAX_SAFE_INTEGER))
  }

  ghost function Reported(path: bytes, v: Any): multiset<bytes> {
    multiset(Lits(UnsafeIntegers(path, v)))
  }

  /** No object of the value repeats a name. */
  predicate DistinctNames(j: Json)
    decreases j, 0
  {
    match j
    case JArr(items) => DistinctItems(items)
    case JObj(fields) => Distinct(fields) && DistinctFields(fields)
    case _ => true
  }

  predicate DistinctItems(items: seq<Json>)
    decreases items, 1
  {
    items == [] || (DistinctNames(items[0]) && DistinctItems(items[1..]))
  }

  predicate DistinctFields(fields: seq<Field>)
    decreases fields, 1
  {
    fields == [] || (DistinctNames(fields[0].val) && DistinctFields(fields[1..]))
  }

  /** That is so of every sound value. */
  lemma {:induction false} SoundIsDistinct(j: Json)
    requires Sound(j)
    ensures DistinctNames(j)
    decreases j, 0
  {
    match j
    case JArr(items) => SoundItemsDistinct(items);
    case JObj(fields) => SoundFieldsDistinct(fields);
    case _ =>
  }

  lemma {:induction false} SoundItemsDistinct(items: seq<Json>)
    requires SoundItems(items)
    ensures DistinctItems(items)
    decreases items, 1
  {
    if items != [] {
      SoundIsDistinct(items[0]);
      SoundItemsDistinct(items[1..]);
    }
  }

  lemma {:induction false} SoundFieldsDistinct(fields: seq<Field>)
    requires SoundFields(fields)
    ensures DistinctFields(fields)
    decreases fields, 1
  {
    if fields != [] {
      SoundIsDistinct(fields[0].val);
      SoundFieldsDistinct(fields[1..]);
    }
  }

  /** The walk reports every integer beyond 2^53 - 1, once per occurrence. */
  lemma {:induction false} WalkReports(path: bytes, j: Json)
    requires DistinctNames(j) && Numeric(j)
    ensures Reported(path, ToAny(j)) == SafeBag(NumLits(j))
    decreases j, 0
  {
    hide Reported, UnsafeIntegers, UnsafeItems, UnsafeMembers, SafeBag, Numeric, FieldsToAny, ItemsToAny, Distinct;
    match j
    case JNum(lit) =>
      assert IsNumber(lit) by { NumericParts(j); }
      NumberReports(path, lit);
    case JArr(items) =>
      NumericParts(j);
      WalkSlice(path, ToAny(j));
      ItemsReport(path, items, 0);
      ReportedMeans(path, ToAny(j));
    case JObj(fields) =>
      NumericParts(j);
      WalkMap(path, ToAny(j));
      var m := FieldsToAny(fields);
      Ordering.SortedIsSorted(m.Keys, ByteRank);
      MembersReport(path, fields, AMap(m), SortedKeys(m.Keys));
      ReportedMeans(path, ToAny(j));
    case _ =>
      WalkLeaf(path, ToAny(j));
      NothingReported(path, ToAny(j));
  }

  lemma NumericParts(j: Json)
    requires Numeric(j)
    ensures j.JNum? ==> IsNumber(j.lit)
    ensures j.JArr? ==> NumericItems(j.items)
    ensures j.JObj? ==> NumericFields(j.fields)
  {
  }

  lemma ReportedMeans(path: bytes, v: Any)
    ensures Reported(path, v) == multiset(Lits(UnsafeIntegers(path, v)))
  {
  }

  lemma NothingReported(path: bytes, v: Any)
    requires UnsafeIntegers(path, v) == []
    ensures Reported(path, v) == multiset{} == SafeBag([])
  {
  }

  lemma NumberReports(path: bytes, lit: bytes)
    requires IsNumber(lit)
    ensures Reported(path, ANumber(lit)) == SafeBag([lit])
  {
    hide Flagged, Exceeds, IsNumber;
    FlaggedExactly(lit, MAX_SAFE_INTEGER);
    assert [lit][1..] == [] && Beyond([], MAX_SAFE_INTEGER) == [];
    assert [Unsafe(path, lit)][1..] == [] && Lits([]) == [];
    assert [lit] + [] == [lit];
  }

  lemma {:induction false} ItemsReport(path: bytes, items: seq<Json>, i: nat)
    requires DistinctItems(items) && NumericItems(items)
    ensures multiset(Lits(UnsafeItems(path, ItemsToAny(items), i))) == SafeBag(ItemsNumLits(items))
    decreases items, 1
  {
    if items != [] {
      WalkReports(IndexPath(path, i), items[0]);
      ItemsReport(path, items[1..], i + 1);
      hide Lits, Beyond, UnsafeIntegers, NumLits, ToAny, IndexPath;
      var xs := ItemsToAny(items);
      assert xs[0] == ToAny(items[0]) && xs[1..] == ItemsToAny(items[1..]);
      LitsConcat(UnsafeIntegers(IndexPath(path, i), xs[0]), UnsafeItems(path, xs[1..], i + 1));
      BeyondConcat(NumLits(items[0]), ItemsNumLits(items[1..]), MAX_SAFE_INTEGER);
    }
  }

  lemma {:induction false} NameNotIn(k: bytes, fields: seq<Field>)
    requires forall i :: 0 <= i < |fields| ==> fields[i].name != k
    ensures k !in FieldsToAny(fields)
  {
    hide ToAny;
    if fields != [] { NameNotIn(k, fields[1..]); }
  }

  /** The members of an object in any order report what its fields hold. */
  lemma {:induction false} MembersReport(path: bytes, fields: seq<Field>, v: Any, keys: seq<bytes>)
    requires Distinct(fields) && DistinctFields(fields) && NumericFields(fields)
    requires v.AMap? && Ordering.NoRepeats(keys)
    requires forall k :: k in keys <==> k in FieldsToAny(fields)
    requires forall k :: k in keys ==> k in v.m && v.m[k] == FieldsToAny(fields)[k]
    ensures multiset(Lits(UnsafeMembers(path, v, keys))) == SafeBag(FieldsNumLits(fields))
    decreases fields, 1
  {
    if fields == [] {
      assert FieldsToAny(fields) == map[];
      SomeKey(keys);
    } else {
      var f, more := fields[0], fields[1..];
      FirstNotAgain(fields);
      assert f.name in FieldsToAny(fields) && f.name in keys;
      var n :| 0 <= n < |keys| && keys[n] == f.name;
      var rest := keys[..n] + keys[n + 1..];
      assert v.m[f.name] == ToAny(f.val);
      WalkReports(KeyPath(path, f.name), f.val);
      WithoutKey(keys, n);
      MembersReport(path, more, v, rest);
      PullOut(path, v, keys, n);
      hide Lits, Beyond, UnsafeIntegers, UnsafeMembers, NumLits;
      BeyondConcat(NumLits(f.val), FieldsNumLits(more), MAX_SAFE_INTEGER);
    }
  }

  lemma SomeKey(keys: seq<bytes>)
    ensures keys != [] ==> exists k :: k in keys
  {
    if keys != [] { assert keys[0] in keys; }
  }

  lemma FirstNotAgain(fields: seq<Field>)
    requires fields != [] && Distinct(fields)
    ensures Distinct(fields[1..]) && fields[0].name !in FieldsToAny(fields[1..])
    ensures FieldsToAny(fields)[fields[0].name] == ToAny(fields[0].val)
    ensures forall k :: k in FieldsToAny(fields) <==> k == fields[0].name || k in FieldsToAny(fields[1..])
    ensures forall k :: k in FieldsToAny(fields[1..]) ==> FieldsToAny(fields)[k] == FieldsToAny(fields[1..])[k]
  {
    hide ToAny;
    var more := fields[1..];
    assert forall i :: 0 <= i < |more| ==> more[i] == fields[i + 1];
    NameNotIn(fields[0].name, more);
  }

  lemma WithoutKey(keys: seq<bytes>, n: nat)
    requires n < |keys| && Ordering.NoRepeats(keys)
    ensures var rest := keys[..n] + keys[n + 1..];
            && Ordering.NoRepeats(rest)
            && forall k :: k in rest <==> k in keys && k != keys[n]
  {
    var rest := keys[..n] + keys[n + 1..];
    forall i | 0 <= i < |rest| ensures rest[i] == keys[if i < n then i else i + 1] {
    }
    forall k | k in keys && k != keys[n] ensures k in rest {
      var i :| 0 <= i < |keys| && keys[i] == k;
      assert rest[if i < n then i else i - 1] == k;
    }
  }

  lemma {:induction false} PullOut(path: bytes, v: Any, keys: seq<bytes>, n: nat)
    requires v.AMap? && n < |keys| && forall k :: k in keys ==> k in v.m
    ensures var rest := keys[..n] + keys[n + 1..];
            && (forall k :: k in rest ==> k in v.m)
            && multiset(Lits(UnsafeMembers(path, v, keys))) ==
               Reported(KeyPath(path, keys[n]), v.m[keys[n]]) + multiset(Lits(UnsafeMembers(path, v, rest)))
    decreases n
  {
    hide *;
    var rest, tail := keys[..n] + keys[n + 1..], keys[1..];
    assert forall k :: k in rest ==> k in keys;
    ReportedStep(path, v, keys);
    if n == 0 {
      assert rest == tail;
    } else {
      PullOut(path, v, tail, n - 1);
      var rest' := tail[..n - 1] + tail[n..];
      assert rest == [keys[0]] + rest' && rest[1..] == rest';
      ReportedStep(path, v, rest);
    }
  }

  lemma ReportedStep(path: bytes, v: Any, keys: seq<bytes>)
    requires v.AMap? && keys != [] && forall k :: k in keys ==> k in v.m
    ensures keys[0] in v.m && forall k :: k in keys[1..] ==> k in v.m
    ensures multiset(Lits(UnsafeMembers(path, v, keys))) ==
            Reported(KeyPath(path, keys[0]), v.m[keys[0]]) + multiset(Lits(UnsafeMembers(path, v, keys[1..])))
  {
    hide UnsafeIntegers, UnsafeMembers, KeyPath, Lits;
    assert keys[0..] == keys;
    MembersStep(path, v, keys, 0);
    LitsConcat(UnsafeIntegers(KeyPath(path, keys[0]), v.m[keys[0]]), UnsafeMembers(path, v, keys[1..]));
  }

  lemma {:induction false} SplitAtLimit(lits: seq<bytes>)
    ensures SafeBag(lits) == multiset(Offenders(lits)) + multiset(AtLimit(lits))
  {
    if lits != [] {
      SplitAtLimit(lits[1..]);
      ExceedsBoth(lits[0]);
      hide Exceeds, Oversized;
    }
  }

  lemma ExceedsBoth(lit: bytes)
    ensures Oversized(lit) ==> Exceeds(lit, MAX_SAFE_INTEGER)
  {
    hide Numbers.IsIntLiteral, Numbers.IsDecimal, Numbers.IntValue;
  }

  /** The walk over a decoded document reports exactly the scanner's integers and those
      of magnitude 2^53. */
  lemma ReportsDifferAtLimit(path: bytes, j: Json)
    requires DistinctNames(j) && Numeric(j)
    ensures Reported(path, ToAny(j)) == multiset(Big(j)) + multiset(AtLimit(NumLits(j)))
  {
    hide UnsafeIntegers, Lits, ToAny, NumLits, Offenders, AtLimit, Beyond, DistinctNames, Numeric;
    WalkReports(path, j);
    SplitAtLimit(NumLits(j));
  }
}
