/**
 What canonicalization is for: two documents have the same canonical bytes exactly if
 they say the same, and canonicalizing again changes nothing.
 */
module JcsMeaning {
  import opened Bytes
  import opened JsonText
  import opened JsonTree
  import opened JcsScan
  import opened JcsCanon
  import opened JcsMentions
  import opened JcsCanonicalize
  import JsonPrint
  import Utf8

  // ----- Names sort by their code units without ties -----

  /** The code units of one character. */
  function UnitsOf(c: nat): (u: seq<int>)
    ensures u != []
  {
    if c < 0x1_0000 then [c] else [0xD800 + (c - 0x1_0000) / 0x400, 0xDC00 + (c - 0x1_0000) % 0x400]
  }

  lemma UnitsStep(s: bytes)
    requires Utf8.CharLen(s) > 0
    ensures Units(s) == UnitsOf(Utf8.CodePoint(s)) + Units(s[Utf8.CharLen(s)..])
  {
    hide Utf8.CharLen, Utf8.CodePoint;
  }

  lemma NoUnits()
    ensures Units([]) == []
  {
  }

  /** The first character and what follows it can be told from the code units. */
  lemma FirstUnits(c: nat, d: nat, x: seq<int>, y: seq<int>)
    requires Utf8.IsScalar(c) && Utf8.IsScalar(d) && UnitsOf(c) + x == UnitsOf(d) + y
    ensures c == d && x == y
  {
    var u, v := UnitsOf(c) + x, UnitsOf(d) + y;
    assert u[0] == UnitsOf(c)[0] && v[0] == UnitsOf(d)[0];
    assert c < 0x1_0000 <==> d < 0x1_0000;
    if c >= 0x1_0000 {
      assert u[1] == UnitsOf(c)[1] && v[1] == UnitsOf(d)[1];
      assert u[2..] == x && v[2..] == y;
    } else {
      assert u[1..] == x && v[1..] == y;
    }
  }

  lemma {:induction false} UnitsInjective(s: bytes, t: bytes)
    requires Utf8.Valid(s) && Utf8.Valid(t) && Units(s) == Units(t)
    ensures s == t
    decreases |s|
  {
    hide *;
    NoUnits();
    if s != [] { CharStep(s); }
    if t != [] { CharStep(t); }
    if s != [] && t != [] {
      var n, m := Utf8.CharLen(s), Utf8.CharLen(t);
      FirstUnits(Utf8.CodePoint(s), Utf8.CodePoint(t), Units(s[n..]), Units(t[m..]));
      UnitsInjective(s[n..], t[m..]);
      assert s == s[..n] + s[n..] && t == t[..m] + t[m..];
    }
  }

  lemma CharStep(s: bytes)
    requires Utf8.Valid(s) && s != []
    ensures 0 < Utf8.CharLen(s) <= |s| && Utf8.Valid(s[Utf8.CharLen(s)..])
    ensures Units(s) == UnitsOf(Utf8.CodePoint(s)) + Units(s[Utf8.CharLen(s)..]) && Units(s) != []
    ensures Utf8.IsScalar(Utf8.CodePoint(s)) && Utf8.Encode(Utf8.CodePoint(s)) == s[..Utf8.CharLen(s)]
  {
    hide *;
    Utf8Step(s);
    UnitsStep(s);
    Utf8.CodePointExact(s);
  }

  // ----- Values a document can mean -----

  /** Numbers are JSON numbers and strings are UTF-8; names may repeat. */
  predicate Readable(j: Json)
    decreases j, 0
  {
    match j
    case JNum(lit) => IsNumber(lit)
    case JStr(s) => Utf8.Valid(s)
    case JArr(items) => ReadableItems(items)
    case JObj(fields) => ReadableFields(fields)
    case _ => true
  }

  predicate ReadableItems(items: seq<Json>)
    decreases items, 1
  {
    items == [] || (Readable(items[0]) && ReadableItems(items[1..]))
  }

  predicate ReadableFields(fields: seq<Field>)
    decreases fields, 1
  {
    fields == [] || (Utf8.Valid(fields[0].name) && Readable(fields[0].val) && ReadableFields(fields[1..]))
  }

  lemma {:induction false} MeaningIsReadable(d: Doc)
    requires WellFormed(d)
    ensures Readable(Meaning(d))
    decreases d, 0
  {
    match d
    case Str(raw) => DecodedIsValid(raw);
    case Arr(es, _) => ElemsAreReadable(es);
    case Obj(ms, _) => MembersAreReadable(ms);
    case _ =>
  }

  lemma {:induction false} ElemsAreReadable(es: seq<Elem>)
    requires ElemsWellFormed(es)
    ensures ReadableItems(ElemsMeaning(es))
    decreases es, 1
  {
    if es != [] {
      MeaningIsReadable(es[0].val);
      ElemsAreReadable(es[1..]);
      hide Readable, Meaning;
      assert ElemsMeaning(es)[1..] == ElemsMeaning(es[1..]);
    }
  }

  lemma {:induction false} MembersAreReadable(ms: seq<Member>)
    requires MembersWellFormed(ms)
    ensures ReadableFields(MembersMeaning(ms))
    decreases ms, 1
  {
    if ms != [] {
      MemberIsReadable(ms[0]);
      MembersAreReadable(ms[1..]);
      hide Readable, MemberMeaning, Utf8.Valid;
      assert MembersMeaning(ms)[1..] == MembersMeaning(ms[1..]);
    }
  }

  lemma {:induction false} MemberIsReadable(m: Member)
    requires MemberWellFormed(m)
    ensures Utf8.Valid(MemberMeaning(m).name) && Readable(MemberMeaning(m).val)
    decreases m, 0
  {
    hide Readable, Meaning, Utf8.Valid, Decoded;
    MeaningIsReadable(m.elem.val);
    DecodedIsValid(m.key.raw);
  }

  // ----- Saying the same -----

  /** The same value: members in any order, numbers alike once written by `f`. */
  ghost predicate Same(f: Format, a: Json, b: Json)
    decreases a, 0
  {
    match a
    case JNum(lit) => b.JNum? && f(lit) == f(b.lit)
    case JArr(items) => b.JArr? && SameItems(f, items, b.items)
    case JObj(fields) => b.JObj? && SameFields(f, fields, b.fields)
    case _ => a == b
  }

  ghost predicate SameItems(f: Format, xs: seq<Json>, ys: seq<Json>)
    decreases xs, 1
  {
    if xs == [] then ys == []
    else ys != [] && Same(f, xs[0], ys[0]) && SameItems(f, xs[1..], ys[1..])
  }

  function Without(ys: seq<Field>, k: nat): seq<Field>
    requires k < |ys|
  {
    ys[..k] + ys[k + 1..]
  }

  /** Every member of `xs` has its own member in `ys`, and none is left over. */
  ghost predicate SameFields(f: Format, xs: seq<Field>, ys: seq<Field>)
    decreases xs, 1
  {
    if xs == [] then ys == []
    else exists k :: 0 <= k < |ys| && ys[k].name == xs[0].name && Same(f, xs[0].val, ys[k].val)
                     && SameFields(f, xs[1..], Without(ys, k))
  }

  // ----- The same value has the same canonical form -----

  function CanonField(f: Format, x: Field): Field {
    Field(x.name, Canon(f, x.val))
  }

  lemma {:induction false} CanonFieldsConcat(f: Format, a: seq<Field>, b: seq<Field>)
    ensures CanonFields(f, a + b) == CanonFields(f, a) + CanonFields(f, b)
  {
    hide *;
    AppendStep(a, b);
    CanonFieldsStep(f, a);
    if a == [] {
      Associate([], [], CanonFields(f, b));
    } else {
      CanonFieldsStep(f, a + b);
      CanonFieldsConcat(f, a[1..], b);
      Associate([CanonField(f, a[0])], CanonFields(f, a[1..]), CanonFields(f, b));
    }
  }

  lemma CanonFieldsStep(f: Format, a: seq<Field>)
    ensures CanonFields(f, a) == if a == [] then [] else [CanonField(f, a[0])] + CanonFields(f, a[1..])
  {
    hide Canon;
  }

  lemma CanonFieldsAlone(f: Format, x: Field)
    ensures CanonFields(f, [x]) == [CanonField(f, x)]
  {
    hide *;
    var xs := [x];
    assert xs[1..] == [];
    CanonFieldsStep(f, xs);
    CanonFieldsStep(f, []);
    assert [CanonField(f, x)] + [] == [CanonField(f, x)];
  }

  lemma MiddleOf(ys: seq<Field>, k: nat)
    requires k < |ys|
    ensures ys == ys[..k] + ([ys[k]] + ys[k + 1..]) && Without(ys, k) == ys[..k] + ys[k + 1..]
  {
  }

  lemma BagOfMiddle<T>(a: seq<T>, x: T, b: seq<T>)
    ensures multiset(a + ([x] + b)) == multiset{x} + multiset(a + b)
  {
  }

  /** Taking one member out takes its canonical form out. */
  lemma WithoutBag(f: Format, ys: seq<Field>, k: nat)
    requires k < |ys|
    ensures multiset(CanonFields(f, ys)) == multiset{CanonField(f, ys[k])} + multiset(CanonFields(f, Without(ys, k)))
    ensures multiset(ys) == multiset{ys[k]} + multiset(Without(ys, k)) && |Without(ys, k)| == |ys| - 1
  {
    hide *;
    MiddleOf(ys, k);
    var a, b := ys[..k], ys[k + 1..];
    CanonFieldsConcat(f, a, [ys[k]] + b);
    CanonFieldsConcat(f, [ys[k]], b);
    CanonFieldsAlone(f, ys[k]);
    CanonFieldsConcat(f, a, b);
    BagOfMiddle(CanonFields(f, a), CanonField(f, ys[k]), CanonFields(f, b));
    BagOfMiddle(a, ys[k], b);
  }

  lemma {:induction false} CanonFieldAt(f: Format, ys: seq<Field>, k: nat)
    requires k < |ys|
    ensures |CanonFields(f, ys)| == |ys| && CanonFields(f, ys)[k] == CanonField(f, ys[k])
  {
    hide *;
    CanonFieldsCount(f, ys);
    CanonFieldsStep(f, ys);
    if k > 0 { CanonFieldAt(f, ys[1..], k - 1); }
  }

  lemma {:induction false} CanonFieldsCount(f: Format, ys: seq<Field>)
    ensures |CanonFields(f, ys)| == |ys|
  {
    hide *;
    CanonFieldsStep(f, ys);
    if ys != [] { CanonFieldsCount(f, ys[1..]); }
  }

  /** What is asked of each member of an object that has a canonical form. */
  ghost predicate Good(f: Format, ys: seq<Field>) {
    forall y :: y in ys ==> Canonizable(f, y.val) && Readable(y.val) && Utf8.Valid(y.name)
  }

  lemma {:induction false} FieldsAreGood(f: Format, ys: seq<Field>)
    requires CanonizableFields(f, ys) && ReadableFields(ys)
    ensures Good(f, ys)
  {
    hide Canonizable, Readable, Utf8.Valid;
    if ys != [] {
      FieldsAreGood(f, ys[1..]);
      assert ys == [ys[0]] + ys[1..];
    }
  }

  lemma GoodWithout(f: Format, ys: seq<Field>, k: nat)
    requires Good(f, ys) && k < |ys|
    ensures Good(f, Without(ys, k)) && Canonizable(f, ys[k].val) && Readable(ys[k].val) && Utf8.Valid(ys[k].name)
  {
    hide Canonizable, Readable, Utf8.Valid;
    assert ys[k] in ys;
    forall y | y in Without(ys, k) ensures y in ys {
      assert y in ys[..k] || y in ys[k + 1..];
    }
  }

  lemma GoodTail(f: Format, ys: seq<Field>)
    requires Good(f, ys) && ys != []
    ensures Good(f, ys[1..]) && Canonizable(f, ys[0].val) && Readable(ys[0].val) && Utf8.Valid(ys[0].name)
  {
    hide *;
    GoodWithout(f, ys, 0);
    WithoutFirst(ys);
  }

  lemma WithoutFirst(ys: seq<Field>)
    requires ys != []
    ensures Without(ys, 0) == ys[1..]
  {
  }

  /** Canonical forms are equal exactly where the values are the same. */
  lemma {:induction false} SameCanon(f: Format, a: Json, b: Json)
    requires Canonizable(f, a) && Canonizable(f, b) && Readable(a) && Readable(b)
    ensures Same(f, a, b) <==> Canon(f, a) == Canon(f, b)
    decreases a, 0
  {
    if a.JArr? && b.JArr? {
      SameItemsCanon(f, a.items, b.items);
      hide *;
      ArraysSame(f, a.items, b.items);
    } else if a.JObj? && b.JObj? {
      FieldsAreGood(f, a.fields);
      FieldsAreGood(f, b.fields);
      SameFieldsBag(f, a.fields, b.fields);
      SortedAlike(f, a.fields, b.fields);
      hide *;
      ObjectsSame(f, a.fields, b.fields);
    } else {
      hide *;
      ScalarsSame(f, a, b);
    }
  }

  lemma ScalarsSame(f: Format, a: Json, b: Json)
    requires Canonizable(f, a) && Canonizable(f, b) && !(a.JArr? && b.JArr?) && !(a.JObj? && b.JObj?)
    ensures Same(f, a, b) <==> Canon(f, a) == Canon(f, b)
  {
    hide SameItems, SameFields, CanonItems, CanonFields, SortBy, CanonizableItems, CanonizableFields;
  }

  lemma ArraysSame(f: Format, xs: seq<Json>, ys: seq<Json>)
    requires SameItems(f, xs, ys) <==> CanonItems(f, xs) == CanonItems(f, ys)
    ensures Same(f, JArr(xs), JArr(ys)) <==> Canon(f, JArr(xs)) == Canon(f, JArr(ys))
  {
    hide SameItems, CanonItems;
  }

  lemma ObjectsSame(f: Format, xs: seq<Field>, ys: seq<Field>)
    requires SameFields(f, xs, ys) <==> multiset(CanonFields(f, xs)) == multiset(CanonFields(f, ys))
    requires multiset(CanonFields(f, xs)) == multiset(CanonFields(f, ys))
             <==> SortBy(FieldRank, CanonFields(f, xs)) == SortBy(FieldRank, CanonFields(f, ys))
    ensures Same(f, JObj(xs), JObj(ys)) <==> Canon(f, JObj(xs)) == Canon(f, JObj(ys))
  {
    hide SameFields, CanonFields, SortBy, FieldRank;
  }

  lemma {:induction false} SameItemsCanon(f: Format, xs: seq<Json>, ys: seq<Json>)
    requires CanonizableItems(f, xs) && CanonizableItems(f, ys) && ReadableItems(xs) && ReadableItems(ys)
    ensures SameItems(f, xs, ys) <==> CanonItems(f, xs) == CanonItems(f, ys)
    decreases xs, 1
  {
    if xs != [] && ys != [] {
      SameCanon(f, xs[0], ys[0]);
      SameItemsCanon(f, xs[1..], ys[1..]);
      hide Same, Canon, Readable, Canonizable;
      assert CanonItems(f, xs)[1..] == CanonItems(f, xs[1..]) && CanonItems(f, ys)[1..] == CanonItems(f, ys[1..]);
    }
  }

  lemma {:induction false} SameFieldsBag(f: Format, xs: seq<Field>, ys: seq<Field>)
    requires Good(f, xs) && Good(f, ys)
    ensures SameFields(f, xs, ys) <==> multiset(CanonFields(f, xs)) == multiset(CanonFields(f, ys))
    decreases xs, 1
  {
    hide *;
    CanonFieldsStep(f, xs);
    CanonFieldsCount(f, xs);
    CanonFieldsCount(f, ys);
    if xs == [] {
      NothingSame(f, xs, ys);
    } else {
      GoodTail(f, xs);
      forall k: nat | k < |ys|
        ensures Takes(f, xs, ys, k) <==>
                && CanonField(f, xs[0]) == CanonField(f, ys[k])
                && multiset(CanonFields(f, xs)) == multiset(CanonFields(f, ys))
      {
        GoodWithout(f, ys, k);
        SameCanon(f, xs[0].val, ys[k].val);
        SameFieldsBag(f, xs[1..], Without(ys, k));
        WithoutBag(f, ys, k);
        CanonFieldsEqual(f, xs[0], ys[k]);
        TakesMeans(f, xs, ys, k);
        HeadBag(CanonField(f, xs[0]), CanonFields(f, xs[1..]), CanonFields(f, ys),
                CanonField(f, ys[k]), CanonFields(f, Without(ys, k)));
      }
      if SameFields(f, xs, ys) {
        var k := SameTakes(f, xs, ys);
      }
      if multiset(CanonFields(f, xs)) == multiset(CanonFields(f, ys)) {
        var k := FindField(f, xs, ys);
        TakesSame(f, xs, ys, k);
      }
    }
  }

  /** The first member of `xs` is the k-th of `ys`, and the others are the others. */
  ghost predicate Takes(f: Format, xs: seq<Field>, ys: seq<Field>, k: nat)
    requires xs != [] && k < |ys|
  {
    ys[k].name == xs[0].name && Same(f, xs[0].val, ys[k].val) && SameFields(f, xs[1..], Without(ys, k))
  }

  lemma TakesMeans(f: Format, xs: seq<Field>, ys: seq<Field>, k: nat)
    requires xs != [] && k < |ys|
    ensures Takes(f, xs, ys, k) <==>
            ys[k].name == xs[0].name && Same(f, xs[0].val, ys[k].val) && SameFields(f, xs[1..], Without(ys, k))
  {
    hide Same, SameFields, Without;
  }

  lemma SameTakes(f: Format, xs: seq<Field>, ys: seq<Field>) returns (k: nat)
    requires xs != [] && SameFields(f, xs, ys)
    ensures k < |ys| && Takes(f, xs, ys, k)
  {
    hide Same, Without;
    k :| 0 <= k < |ys| && ys[k].name == xs[0].name && Same(f, xs[0].val, ys[k].val)
         && SameFields(f, xs[1..], Without(ys, k));
  }

  lemma TakesSame(f: Format, xs: seq<Field>, ys: seq<Field>, k: nat)
    requires xs != [] && k < |ys| && Takes(f, xs, ys, k)
    ensures SameFields(f, xs, ys)
  {
    hide Same, Without;
  }

  lemma NothingSame(f: Format, xs: seq<Field>, ys: seq<Field>)
    requires xs == [] && |CanonFields(f, ys)| == |ys| && CanonFields(f, xs) == []
    ensures SameFields(f, xs, ys) <==> multiset(CanonFields(f, xs)) == multiset(CanonFields(f, ys))
  {
    hide CanonFields;
    if ys != [] { assert CanonFields(f, ys)[0] in multiset(CanonFields(f, ys)); }
  }

  lemma CanonFieldsEqual(f: Format, x: Field, y: Field)
    ensures CanonField(f, x) == CanonField(f, y) <==> x.name == y.name && Canon(f, x.val) == Canon(f, y.val)
  {
    hide Canon;
  }

  lemma HeadBag<T>(x: T, xs: seq<T>, ys: seq<T>, y: T, rest: seq<T>)
    requires multiset(ys) == multiset{y} + multiset(rest)
    ensures x == y && multiset(xs) == multiset(rest) <==> x == y && multiset([x] + xs) == multiset(ys)
  {
    assert multiset([x] + xs) == multiset{x} + multiset(xs);
    assert multiset(xs) == multiset([x] + xs) - multiset{x};
    assert multiset(rest) == multiset(ys) - multiset{y};
  }

  lemma FindField(f: Format, xs: seq<Field>, ys: seq<Field>) returns (k: nat)
    requires xs != [] && CanonFields(f, xs) == [CanonField(f, xs[0])] + CanonFields(f, xs[1..])
    requires multiset(CanonFields(f, xs)) == multiset(CanonFields(f, ys))
    ensures k < |ys| && CanonField(f, xs[0]) == CanonField(f, ys[k])
  {
    hide *;
    var c := CanonField(f, xs[0]);
    assert CanonFields(f, xs)[0] == c;
    assert c in multiset(CanonFields(f, xs));
    assert c in CanonFields(f, ys);
    k :| 0 <= k < |CanonFields(f, ys)| && CanonFields(f, ys)[k] == c;
    CanonFieldsCount(f, ys);
    CanonFieldAt(f, ys, k);
  }

  /** Names that are distinct and UTF-8 never tie, so sorting forgets only the order. */
  lemma {:induction false} SortedAlike(f: Format, xs: seq<Field>, ys: seq<Field>)
    requires Good(f, xs) && Distinct(xs)
    ensures multiset(CanonFields(f, xs)) == multiset(CanonFields(f, ys))
            <==> SortBy(FieldRank, CanonFields(f, xs)) == SortBy(FieldRank, CanonFields(f, ys))
  {
    hide *;
    var a, b := CanonFields(f, xs), CanonFields(f, ys);
    SortAscends(FieldRank, a);
    SortAscends(FieldRank, b);
    if multiset(a) == multiset(b) {
      RanksDiffer(f, xs);
      var s := SortBy(FieldRank, a);
      forall x, y | x in s && y in s && FieldRank(x) == FieldRank(y) ensures x == y {
        assert x in multiset(s) && y in multiset(s);
        assert x in a && y in a;
      }
      AscendingUnique(FieldRank, s, SortBy(FieldRank, b));
    }
  }

  lemma RanksDiffer(f: Format, xs: seq<Field>)
    requires Good(f, xs) && Distinct(xs)
    ensures forall x, y :: x in CanonFields(f, xs) && y in CanonFields(f, xs) && FieldRank(x) == FieldRank(y) ==> x == y
  {
    hide Canonizable, Readable, Utf8.Valid, CanonFields, Canon, Units;
    var a := CanonFields(f, xs);
    CanonFieldsCount(f, xs);
    forall x, y | x in a && y in a && FieldRank(x) == FieldRank(y) ensures x == y {
      var i :| 0 <= i < |a| && a[i] == x;
      var j :| 0 <= j < |a| && a[j] == y;
      CanonFieldAt(f, xs, i);
      CanonFieldAt(f, xs, j);
      assert xs[i] in xs && xs[j] in xs;
      UnitsInjective(x.name, y.name);
      assert i < j || j < i || i == j;
    }
  }

  // ----- Whether there is a canonical form -----

  function Names(ys: seq<Field>): (ns: seq<bytes>)
    ensures |ns| == |ys|
  {
    if ys == [] then [] else [ys[0].name] + Names(ys[1..])
  }

  lemma NamesStep(ys: seq<Field>)
    ensures Names(ys) == if ys == [] then [] else [ys[0].name] + Names(ys[1..])
  {
  }

  lemma {:induction false} NamesConcat(a: seq<Field>, b: seq<Field>)
    ensures Names(a + b) == Names(a) + Names(b)
  {
    hide *;
    AppendStep(a, b);
    NamesStep(a);
    if a == [] {
      Associate([], [], Names(b));
    } else {
      NamesStep(a + b);
      NamesConcat(a[1..], b);
      Associate([a[0].name], Names(a[1..]), Names(b));
    }
  }

  lemma NamesAlone(x: Field)
    ensures Names([x]) == [x.name]
  {
    hide *;
    var xs := [x];
    assert xs[1..] == [];
    NamesStep(xs);
    NamesStep([]);
    assert [x.name] + [] == [x.name];
  }

  lemma NamesWithout(ys: seq<Field>, k: nat)
    requires k < |ys|
    ensures multiset(Names(ys)) == multiset{ys[k].name} + multiset(Names(Without(ys, k)))
  {
    hide *;
    MiddleOf(ys, k);
    var a, b := ys[..k], ys[k + 1..];
    NamesConcat(a, [ys[k]] + b);
    NamesConcat([ys[k]], b);
    NamesAlone(ys[k]);
    NamesConcat(a, b);
    BagOfMiddle(Names(a), ys[k].name, Names(b));
  }

  /** No name is repeated exactly if each is counted once. */
  lemma {:induction false} DistinctBag(ys: seq<Field>)
    ensures Distinct(ys) <==> forall n :: multiset(Names(ys))[n] <= 1
  {
    hide *;
    NamesStep(ys);
    if ys == [] {
      DistinctStep(ys);
    } else {
      DistinctBag(ys[1..]);
      DistinctStep(ys);
      NameIsIn(ys[1..], ys[0].name);
      OnceMore(ys[0].name, Names(ys[1..]));
    }
  }

  lemma OnceMore(x: bytes, ns: seq<bytes>)
    ensures (forall n :: multiset([x] + ns)[n] <= 1) <==> x !in ns && forall n :: multiset(ns)[n] <= 1
  {
    assert multiset([x] + ns) == multiset{x} + multiset(ns);
    assert multiset([x] + ns)[x] == 1 + multiset(ns)[x];
    if x !in ns && forall n :: multiset(ns)[n] <= 1 {
      forall n ensures multiset([x] + ns)[n] <= 1 {
        assert multiset(ns)[n] <= 1;
      }
    }
    if forall n :: multiset([x] + ns)[n] <= 1 {
      forall n ensures multiset(ns)[n] <= 1 {
        assert multiset([x] + ns)[n] <= 1;
      }
    }
  }

  lemma {:induction false} NameIsIn(ys: seq<Field>, n: bytes)
    ensures n in Names(ys) <==> exists i :: 0 <= i < |ys| && ys[i].name == n
  {
    hide *;
    NamesStep(ys);
    if ys != [] {
      NameIsIn(ys[1..], n);
      if n in Names(ys[1..]) {
        var i :| 0 <= i < |ys[1..]| && ys[1..][i].name == n;
        assert ys[i + 1].name == n;
      }
      if i :| 0 <= i < |ys| && ys[i].name == n {
        assert i > 0 ==> ys[1..][i - 1].name == n;
      }
    }
  }

  lemma DistinctStep(ys: seq<Field>)
    ensures Distinct(ys) <==>
            ys == [] || ((forall i :: 0 <= i < |ys[1..]| ==> ys[1..][i].name != ys[0].name) && Distinct(ys[1..]))
  {
    if ys != [] {
      var t := ys[1..];
      assert forall i :: 0 <= i < |t| ==> t[i] == ys[i + 1];
      if (forall i :: 0 <= i < |t| ==> t[i].name != ys[0].name) && Distinct(t) {
        forall i, j | 0 <= i < j < |ys| ensures ys[i].name != ys[j].name {
          assert ys[j] == t[j - 1];
          if i > 0 { assert ys[i] == t[i - 1]; }
        }
      }
    }
  }

  lemma {:induction false} CanonizableConcat(f: Format, a: seq<Field>, b: seq<Field>)
    ensures CanonizableFields(f, a + b) <==> CanonizableFields(f, a) && CanonizableFields(f, b)
  {
    hide *;
    AppendStep(a, b);
    CanonizableStep(f, a);
    if a != [] {
      CanonizableStep(f, a + b);
      CanonizableConcat(f, a[1..], b);
    }
  }

  lemma CanonizableStep(f: Format, a: seq<Field>)
    ensures CanonizableFields(f, a) <==> a == [] || (Canonizable(f, a[0].val) && CanonizableFields(f, a[1..]))
  {
    hide Canonizable;
  }

  lemma CanonizableWithout(f: Format, ys: seq<Field>, k: nat)
    requires k < |ys|
    ensures CanonizableFields(f, ys) <==> Canonizable(f, ys[k].val) && CanonizableFields(f, Without(ys, k))
  {
    hide *;
    MiddleOf(ys, k);
    var a, b := ys[..k], ys[k + 1..];
    CanonizableConcat(f, a, [ys[k]] + b);
    CanonizableConcat(f, [ys[k]], b);
    CanonizableAlone(f, ys[k]);
    CanonizableConcat(f, a, b);
  }

  lemma CanonizableAlone(f: Format, x: Field)
    ensures CanonizableFields(f, [x]) <==> Canonizable(f, x.val)
  {
    hide *;
    var xs := [x];
    assert xs[1..] == [];
    CanonizableStep(f, xs);
    CanonizableStep(f, []);
  }

  /** The same value has a canonical form however it is arranged. */
  lemma {:induction false} SameCanonizable(f: Format, a: Json, b: Json)
    requires Same(f, a, b)
    ensures Canonizable(f, a) <==> Canonizable(f, b)
    decreases a, 0
  {
    match a
    case JArr(items) => SameItemsCanonizable(f, items, b.items);
    case JObj(fields) =>
      SameFieldsCanonizable(f, fields, b.fields);
      DistinctBag(fields);
      DistinctBag(b.fields);
      hide *;
      ObjectsCanonizable(f, fields, b.fields);
    case _ =>
  }

  lemma ObjectsCanonizable(f: Format, xs: seq<Field>, ys: seq<Field>)
    requires (Distinct(xs) <==> Distinct(ys)) && (CanonizableFields(f, xs) <==> CanonizableFields(f, ys))
    ensures Canonizable(f, JObj(xs)) <==> Canonizable(f, JObj(ys))
  {
    hide CanonizableFields, Distinct;
  }

  lemma {:induction false} SameItemsCanonizable(f: Format, xs: seq<Json>, ys: seq<Json>)
    requires SameItems(f, xs, ys)
    ensures CanonizableItems(f, xs) <==> CanonizableItems(f, ys)
    decreases xs, 1
  {
    if xs != [] {
      SameCanonizable(f, xs[0], ys[0]);
      SameItemsCanonizable(f, xs[1..], ys[1..]);
      hide Same, Canonizable;
    }
  }

  lemma {:induction false} SameFieldsCanonizable(f: Format, xs: seq<Field>, ys: seq<Field>)
    requires SameFields(f, xs, ys)
    ensures CanonizableFields(f, xs) <==> CanonizableFields(f, ys)
    ensures multiset(Names(xs)) == multiset(Names(ys))
    decreases xs, 1
  {
    if xs != [] {
      var k := SameTakes(f, xs, ys);
      TakesMeans(f, xs, ys, k);
      hide *;
      SameCanonizable(f, xs[0].val, ys[k].val);
      SameFieldsCanonizable(f, xs[1..], Without(ys, k));
      CanonizableStep(f, xs);
      CanonizableWithout(f, ys, k);
      NamesStep(xs);
      NamesWithout(ys, k);
      assert multiset(Names(xs)) == multiset{xs[0].name} + multiset(Names(xs[1..]));
    }
  }

  // ----- The canonical form is a sound value -----

  lemma {:induction false} NamesBag(xs: seq<Field>, ys: seq<Field>)
    requires multiset(xs) == multiset(ys)
    ensures multiset(Names(xs)) == multiset(Names(ys))
  {
    hide *;
    SameLength(xs, ys);
    NamesStep(xs);
    if xs == [] {
      assert ys == [];
    } else {
      assert xs[0] in multiset(ys);
      var k :| 0 <= k < |ys| && ys[k] == xs[0];
      WithoutBag(lit => None, ys, k);
      assert multiset(xs[1..]) == multiset(Without(ys, k)) by {
        assert xs == [xs[0]] + xs[1..];
        assert multiset(xs[1..]) == multiset(xs) - multiset{xs[0]};
      }
      NamesBag(xs[1..], Without(ys, k));
      NamesWithout(ys, k);
      assert multiset(Names(xs)) == multiset{xs[0].name} + multiset(Names(xs[1..]));
    }
  }

  lemma {:induction false} CanonKeepsNames(f: Format, ys: seq<Field>)
    ensures Names(CanonFields(f, ys)) == Names(ys)
  {
    hide *;
    CanonFieldsStep(f, ys);
    NamesStep(ys);
    NamesStep(CanonFields(f, ys));
    if ys != [] {
      CanonKeepsNames(f, ys[1..]);
      NameOfCanon(f, ys[0]);
      assert CanonFields(f, ys)[1..] == CanonFields(f, ys[1..]);
    }
  }

  lemma NameOfCanon(f: Format, y: Field)
    ensures CanonField(f, y).name == y.name && CanonField(f, y).val == Canon(f, y.val)
  {
    hide Canon;
  }

  /** Sorting members repeats no name. */
  lemma SortedDistinct(f: Format, ys: seq<Field>)
    ensures Distinct(SortBy(FieldRank, CanonFields(f, ys))) <==> Distinct(ys)
  {
    hide *;
    var a := CanonFields(f, ys);
    SortAscends(FieldRank, a);
    NamesBag(SortBy(FieldRank, a), a);
    CanonKeepsNames(f, ys);
    DistinctBag(SortBy(FieldRank, a));
    DistinctBag(ys);
  }

  ghost predicate AllSound(ys: seq<Field>) {
    forall y :: y in ys ==> Utf8.Valid(y.name) && Sound(y.val)
  }

  lemma {:induction false} AllSoundFields(ys: seq<Field>)
    ensures SoundFields(ys) <==> AllSound(ys)
  {
    hide Utf8.Valid, Sound;
    if ys != [] {
      AllSoundFields(ys[1..]);
      assert ys == [ys[0]] + ys[1..];
    }
  }

  lemma AllSoundPermuted(xs: seq<Field>, ys: seq<Field>)
    requires AllSound(xs) && multiset(ys) == multiset(xs)
    ensures AllSound(ys)
  {
    hide Utf8.Valid, Sound;
    forall y | y in ys ensures y in xs {
      assert y in multiset(ys);
    }
  }

  lemma {:induction false} CanonIsSound(f: Format, j: Json)
    requires WritesNumbers(f) && Readable(j) && Canonizable(f, j)
    ensures Sound(Canon(f, j))
    decreases j, 0
  {
    match j
    case JArr(items) => CanonItemsSound(f, items);
    case JObj(fields) =>
      CanonFieldsSound(f, fields);
      var a := CanonFields(f, fields);
      SortAscends(FieldRank, a);
      SortedDistinct(f, fields);
      hide *;
      AllSoundFields(a);
      AllSoundPermuted(a, SortBy(FieldRank, a));
      AllSoundFields(SortBy(FieldRank, a));
      ObjectIsSound(f, fields);
    case _ => hide IsNumber, Utf8.Valid;
  }

  lemma ObjectIsSound(f: Format, fields: seq<Field>)
    requires SoundFields(SortBy(FieldRank, CanonFields(f, fields)))
    requires Canonizable(f, JObj(fields))
    requires Distinct(SortBy(FieldRank, CanonFields(f, fields))) <==> Distinct(fields)
    ensures Sound(Canon(f, JObj(fields)))
  {
    hide SoundFields, SortBy, CanonFields, Distinct, CanonizableFields, FieldRank;
  }

  lemma {:induction false} CanonItemsSound(f: Format, items: seq<Json>)
    requires WritesNumbers(f) && ReadableItems(items) && CanonizableItems(f, items)
    ensures SoundItems(CanonItems(f, items))
    decreases items, 1
  {
    if items != [] {
      CanonIsSound(f, items[0]);
      CanonItemsSound(f, items[1..]);
      hide Sound, Canon, Readable, Canonizable, WritesNumbers;
      assert CanonItems(f, items)[1..] == CanonItems(f, items[1..]);
    }
  }

  lemma {:induction false} CanonFieldsSound(f: Format, fields: seq<Field>)
    requires WritesNumbers(f) && ReadableFields(fields) && CanonizableFields(f, fields)
    ensures SoundFields(CanonFields(f, fields))
    decreases fields, 1
  {
    if fields != [] {
      CanonIsSound(f, fields[0].val);
      CanonFieldsSound(f, fields[1..]);
      hide Sound, Canon, Readable, Canonizable, WritesNumbers, Utf8.Valid;
      assert CanonFields(f, fields)[1..] == CanonFields(f, fields[1..]);
    }
  }

  // ----- Documents -----

  lemma PrintInjective(a: Json, b: Json)
    requires Sound(a) && Sound(b) && Print(a) == Print(b)
    ensures a == b
  {
    hide *;
    JsonPrint.ReadPrint(a);
    JsonPrint.ReadPrint(b);
  }

  lemma DocumentIsReadable(data: bytes)
    requires Document(data).Some?
    ensures Readable(ElemMeaning(Document(data).value))
  {
    hide Document, Readable, Meaning, WellFormed, ElemText;
    DocumentText(data);
    MeaningIsReadable(Document(data).value.val);
  }

  lemma FormExists(f: Format, data: bytes)
    requires Document(data).Some?
    ensures var e := Document(data).value;
            Transform(f, data) == if IntactElem(e) && Canonizable(f, ElemMeaning(e))
                                  then Some(Print(Canon(f, ElemMeaning(e)))) else None
  {
    hide Document, IntactElem, Canonizable, Print, Canon, ElemMeaning;
  }

  /** Documents that say the same, in whatever order, spacing and spelling, have the same
      canonical bytes, and only those do. */
  lemma CanonicalBytesAgree(f: Format, a: bytes, b: bytes)
    requires WritesNumbers(f) && Document(a).Some? && Document(b).Some?
    ensures var (x, y) := (Transform(Exact(f), a), Transform(Exact(f), b));
            var (d, e) := (Document(a).value, Document(b).value);
            && (Same(Exact(f), ElemMeaning(d), ElemMeaning(e)) && (IntactElem(d) <==> IntactElem(e)) ==> x == y)
            && (x.Some? && x == y ==> Same(Exact(f), ElemMeaning(d), ElemMeaning(e)))
  {
    hide *;
    ExactWritesNumbers(f);
    FormsAgree(Exact(f), a, b);
  }

  lemma FormsAgree(f: Format, a: bytes, b: bytes)
    requires WritesNumbers(f) && Document(a).Some? && Document(b).Some?
    ensures var (x, y) := (Transform(f, a), Transform(f, b));
            var (d, e) := (Document(a).value, Document(b).value);
            && (Same(f, ElemMeaning(d), ElemMeaning(e)) && (IntactElem(d) <==> IntactElem(e)) ==> x == y)
            && (x.Some? && x == y ==> Same(f, ElemMeaning(d), ElemMeaning(e)))
  {
    hide *;
    var j, k := ElemMeaning(Document(a).value), ElemMeaning(Document(b).value);
    FormExists(f, a);
    FormExists(f, b);
    DocumentIsReadable(a);
    DocumentIsReadable(b);
    if Same(f, j, k) { SameCanonizable(f, j, k); }
    if Canonizable(f, j) && Canonizable(f, k) {
      SameCanon(f, j, k);
      CanonIsSound(f, j);
      CanonIsSound(f, k);
      if Print(Canon(f, j)) == Print(Canon(f, k)) { PrintInjective(Canon(f, j), Canon(f, k)); }
    }
  }

  /** A value says the same as itself, so spacing and spelling alone never matter. */
  lemma {:induction false} SameReflexive(f: Format, a: Json)
    ensures Same(f, a, a)
    decreases a, 0
  {
    match a
    case JArr(items) => SameItemsReflexive(f, items);
    case JObj(fields) => SameFieldsReflexive(f, fields);
    case _ =>
  }

  lemma {:induction false} SameItemsReflexive(f: Format, xs: seq<Json>)
    ensures SameItems(f, xs, xs)
    decreases xs, 1
  {
    if xs != [] {
      SameReflexive(f, xs[0]);
      SameItemsReflexive(f, xs[1..]);
    }
  }

  lemma {:induction false} SameFieldsReflexive(f: Format, xs: seq<Field>)
    ensures SameFields(f, xs, xs)
    decreases xs, 1
  {
    if xs != [] {
      SameReflexive(f, xs[0].val);
      SameFieldsReflexive(f, xs[1..]);
      hide Same;
      WithoutFirst(xs);
    }
  }

  // ----- Canonicalizing twice -----

  /** What `f` writes for a number, it writes again as it is. */
  ghost predicate Stable(f: Format) {
    forall lit :: IsNumber(lit) && f(lit).Some? ==> f(f(lit).value) == f(lit)
  }

  lemma ExactStable(f: Format)
    requires Stable(f)
    ensures Stable(Exact(f))
  {
    hide Oversized;
  }

  /** A value that is its own canonical form. */
  ghost predicate Fixed(f: Format, j: Json) {
    Canonizable(f, j) && Canon(f, j) == j
  }

  lemma {:induction false} CanonFixed(f: Format, j: Json)
    requires Stable(f) && Readable(j) && Canonizable(f, j)
    ensures Fixed(f, Canon(f, j))
    decreases j, 0
  {
    match j
    case JArr(items) =>
      CanonItemsFixed(f, items);
      hide CanonItems, CanonizableItems, ReadableItems, Stable;
    case JObj(fields) =>
      CanonFieldsFixed(f, fields);
      hide *;
      SortedFixed(f, fields);
    case _ => hide IsNumber, Utf8.Valid;
  }

  lemma {:induction false} CanonItemsFixed(f: Format, items: seq<Json>)
    requires Stable(f) && ReadableItems(items) && CanonizableItems(f, items)
    ensures CanonizableItems(f, CanonItems(f, items)) && CanonItems(f, CanonItems(f, items)) == CanonItems(f, items)
    decreases items, 1
  {
    if items != [] {
      CanonFixed(f, items[0]);
      CanonItemsFixed(f, items[1..]);
      hide Canon, Readable, Canonizable, Stable;
      var c := CanonItems(f, items);
      assert c == [Canon(f, items[0])] + CanonItems(f, items[1..]) && c[1..] == CanonItems(f, items[1..]);
    }
  }

  ghost predicate FieldsFixed(f: Format, ys: seq<Field>) {
    forall y :: y in ys ==> Fixed(f, y.val)
  }

  lemma {:induction false} CanonFieldsFixed(f: Format, fields: seq<Field>)
    requires Stable(f) && ReadableFields(fields) && CanonizableFields(f, fields)
    ensures FieldsFixed(f, CanonFields(f, fields))
    decreases fields, 1
  {
    if fields != [] {
      CanonFixed(f, fields[0].val);
      CanonFieldsFixed(f, fields[1..]);
      CanonFieldsStep(f, fields);
      hide Canon, Readable, Canonizable, Stable, CanonFields, Fixed;
    }
  }

  lemma {:induction false} FixedFields(f: Format, ys: seq<Field>)
    requires FieldsFixed(f, ys)
    ensures CanonizableFields(f, ys) && CanonFields(f, ys) == ys
  {
    hide *;
    CanonFieldsStep(f, ys);
    CanonizableStep(f, ys);
    if ys != [] {
      FirstFixed(f, ys);
      FixedFields(f, ys[1..]);
      assert ys == [ys[0]] + ys[1..];
    }
  }

  lemma FirstFixed(f: Format, ys: seq<Field>)
    requires FieldsFixed(f, ys) && ys != []
    ensures FieldsFixed(f, ys[1..]) && Canonizable(f, ys[0].val) && CanonField(f, ys[0]) == ys[0]
  {
    hide Canonizable, Canon;
    assert ys[0] in ys;
    forall y | y in ys[1..] ensures y in ys {}
  }

  lemma SortedFixed(f: Format, fields: seq<Field>)
    requires FieldsFixed(f, CanonFields(f, fields)) && Canonizable(f, JObj(fields))
    ensures Fixed(f, Canon(f, JObj(fields)))
  {
    hide *;
    var a := CanonFields(f, fields);
    var s := SortBy(FieldRank, a);
    SortAscends(FieldRank, a);
    FixedPermuted(f, a, s);
    FixedFields(f, s);
    SortIdentity(FieldRank, s);
    SortedDistinct(f, fields);
    ObjectFixed(f, fields, s);
  }

  lemma FixedPermuted(f: Format, xs: seq<Field>, ys: seq<Field>)
    requires FieldsFixed(f, xs) && multiset(ys) == multiset(xs)
    ensures FieldsFixed(f, ys)
  {
    hide Fixed;
    forall y | y in ys ensures y in xs {
      assert y in multiset(ys);
    }
  }

  lemma ObjectFixed(f: Format, fields: seq<Field>, s: seq<Field>)
    requires s == SortBy(FieldRank, CanonFields(f, fields)) && Canonizable(f, JObj(fields))
    requires CanonizableFields(f, s) && CanonFields(f, s) == s && SortBy(FieldRank, s) == s
    requires Distinct(s) <==> Distinct(fields)
    ensures Fixed(f, Canon(f, JObj(fields)))
  {
    hide SortBy, CanonFields, CanonizableFields, Distinct, FieldRank;
  }

  lemma {:induction false} EscapeIntact(s: bytes)
    requires Utf8.Valid(s)
    ensures IntactString(Escape(s))
    decreases |s|
  {
    hide *;
    if s == [] {
      NothingIntact();
    } else {
      Utf8Step(s);
      var n := Utf8.CharLen(s);
      EscapeIntact(s[n..]);
      assert s == s[..n] + s[n..];
      if n == 1 {
        AsciiIntact(s[..n], s[n..]);
      } else {
        HighIntact(s[..n], s[n..]);
      }
    }
  }

  lemma NothingIntact()
    ensures IntactString(Escape([]))
  {
  }

  lemma AsciiIntact(c: bytes, t: bytes)
    requires Utf8.CharLen(c) == |c| == 1 && IntactString(Escape(t))
    ensures IntactString(Escape(c + t))
  {
    var b, rest := c[0], Escape(t);
    assert b < 0x80 && c == [b] && (c + t)[1..] == t && (c + t)[0] == b;
    assert Escape(c + t) == EscapeByte(b) + rest;
    hide Escape;
    EscapedByteIntact(b, rest);
  }

  lemma EscapedByteIntact(b: byte, rest: bytes)
    requires b < 0x80 && IntactString(rest)
    ensures IntactString(EscapeByte(b) + rest)
  {
    var s := EscapeByte(b) + rest;
    if |EscapeByte(b)| == 6 {
      assert s[2] == 0x30 && s[3] == 0x30 && s[4] == HexDigit(b / 16) && s[5] == HexDigit(b % 16);
      assert CodeUnit(s) == b && s[6..] == rest && StartsUnit(s) && !StartsPair(s) && Utf8.IsScalar(b);
    } else if |EscapeByte(b)| == 2 {
      assert !StartsUnit(s) && s[0] == BACKSLASH && s[2..] == rest;
    } else {
      assert s[1..] == rest && s[0] == b && Utf8.CharLen(s) == 1;
    }
  }

  lemma HighIntact(c: bytes, t: bytes)
    requires Utf8.CharLen(c) == |c| > 1 && IntactString(Escape(t))
    ensures IntactString(Escape(c + t))
  {
    hide Escape, Utf8.CharLen;
    HighBytes(c);
    EscapeKeepsHigh(c, t);
    var s := c + Escape(t);
    Utf8.CharLenPrefix(c, Escape(t));
    assert s[0] == c[0] && s[|c|..] == Escape(t);
  }

  lemma {:induction false} CompactIntact(j: Json)
    requires Sound(j)
    ensures Intact(JsonPrint.Compact(j))
    decreases j, 0
  {
    match j
    case JStr(s) => EscapeIntact(s);
    case JArr(items) => CompactItemsIntact(items);
    case JObj(fields) => CompactFieldsIntact(fields);
    case _ =>
  }

  lemma {:induction false} CompactItemsIntact(items: seq<Json>)
    requires SoundItems(items)
    ensures IntactElems(JsonPrint.CompactItems(items))
    decreases items, 1
  {
    if items != [] {
      CompactIntact(items[0]);
      CompactItemsIntact(items[1..]);
      hide Sound, Intact, JsonPrint.Compact;
      assert JsonPrint.CompactItems(items)[1..] == JsonPrint.CompactItems(items[1..]);
    }
  }

  lemma {:induction false} CompactFieldsIntact(fields: seq<Field>)
    requires SoundFields(fields)
    ensures IntactMembers(JsonPrint.CompactFields(fields))
    decreases fields, 1
  {
    if fields != [] {
      CompactIntact(fields[0].val);
      EscapeIntact(fields[0].name);
      CompactFieldsIntact(fields[1..]);
      CompactFieldIntact(fields[0]);
      var m, ms := JsonPrint.CompactField(fields[0]), JsonPrint.CompactFields(fields[1..]);
      assert JsonPrint.CompactFields(fields) == [m] + ms;
      hide *;
      MembersJoin(m, ms);
    }
  }

  lemma CompactFieldIntact(f: Field)
    requires Intact(JsonPrint.Compact(f.val)) && IntactString(Escape(f.name))
    ensures IntactMember(JsonPrint.CompactField(f))
  {
    hide Intact, JsonPrint.Compact, Escape, IntactString;
  }

  /** A printed sound value is a document again, with that value and nothing lost. */
  lemma PrintedDocument(j: Json)
    requires Sound(j)
    ensures var d := Document(Print(j)); d.Some? && ElemMeaning(d.value) == j && IntactElem(d.value)
  {
    hide Sound, Print, JsonPrint.Compact, Intact, Text, WellFormed, Meaning, Document;
    JsonPrint.CompactMeans(j);
    JsonPrint.PrintIsText(j);
    CompactIntact(j);
    var e := Elem([], JsonPrint.Compact(j), []);
    JsonPrint.BareElem(e.val);
    TextDocument(e);
  }

  /** Canonicalizing what is canonical gives the same bytes. */
  lemma CanonicalizedTwice(f: Format, data: bytes)
    requires WritesNumbers(f) && Stable(f) && Transform(Exact(f), data).Some?
    ensures Transform(Exact(f), Transform(Exact(f), data).value) == Transform(Exact(f), data)
  {
    hide *;
    ExactWritesNumbers(f);
    ExactStable(f);
    FormTwice(Exact(f), data);
  }

  lemma FormTwice(f: Format, data: bytes)
    requires WritesNumbers(f) && Stable(f) && Transform(f, data).Some?
    ensures Transform(f, Transform(f, data).value) == Transform(f, data)
  {
    hide *;
    OnlyDocuments(f, data);
    var j := ElemMeaning(Document(data).value);
    FormExists(f, data);
    DocumentIsReadable(data);
    CanonIsSound(f, j);
    CanonFixed(f, j);
    PrintedDocument(Canon(f, j));
    FormExists(f, Print(Canon(f, j)));
    FixedMeans(f, Canon(f, j));
  }

  lemma OnlyDocuments(f: Format, data: bytes)
    requires Transform(f, data).Some?
    ensures Document(data).Some?
  {
  }

  lemma FixedMeans(f: Format, j: Json)
    requires Fixed(f, j)
    ensures Canonizable(f, j) && Canon(f, j) == j
  {
  }
}
