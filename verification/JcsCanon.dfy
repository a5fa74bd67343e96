/**
 Canonical JSON (RFC 8785 section 3.2): members sorted by the UTF-16 code units of
 their names, numbers formatted, no white space.  Trees with numbered holes are
 canonicalized the same way whatever the holes stand for.
 */
module JcsCanon {
  import opened Bytes
  import opened JsonTree
  import opened JcsSplice
  import opened JcsScan
  import Numbers
  import Ordering
  import Utf8

  // ----- Sorting -----

  /** The UTF-16 code units of a UTF-8 string. */
  function Units(s: bytes): seq<int>
  {
    var n := Utf8.CharLen(s);
    if n == 0 then []
    else
      var c := Utf8.CodePoint(s);
      (if c < 0x1_0000 then [c] else [0xD800 + (c - 0x1_0000) / 0x400, 0xDC00 + (c - 0x1_0000) % 0x400]) + Units(s[n..])
  }

  function InsertBy<T>(rank: T -> seq<int>, x: T, sorted: seq<T>): (r: seq<T>)
    ensures |r| == |sorted| + 1
  {
    if sorted == [] || Ordering.LexLe(rank(x), rank(sorted[0])) then [x] + sorted
    else [sorted[0]] + InsertBy(rank, x, sorted[1..])
  }

  function SortBy<T>(rank: T -> seq<int>, xs: seq<T>): (r: seq<T>)
    ensures |r| == |xs|
  {
    if xs == [] then [] else InsertBy(rank, xs[0], SortBy(rank, xs[1..]))
  }

  ghost predicate Ascends<T>(rank: T -> seq<int>, xs: seq<T>) {
    |xs| <= 1 || (Ordering.NotAfter(rank(xs[0]), rank(xs[1])) && Ascends(rank, xs[1..]))
  }

  lemma {:induction false} InsertAscends<T>(rank: T -> seq<int>, x: T, sorted: seq<T>)
    requires Ascends(rank, sorted)
    ensures Ascends(rank, InsertBy(rank, x, sorted))
  {
    hide Ordering.NotAfter, Ordering.LexLe;
    if sorted != [] { Ordering.LexLeDecides(rank(x), rank(sorted[0])); }
    if sorted == [] || Ordering.NotAfter(rank(x), rank(sorted[0])) {
      assert ([x] + sorted)[1..] == sorted;
    } else {
      var rest := InsertBy(rank, x, sorted[1..]);
      InsertAscends(rank, x, sorted[1..]);
      Ordering.LexTotal(rank(x), rank(sorted[0]));
      assert ([sorted[0]] + rest)[1..] == rest;
      assert rest[0] == x || rest[0] == sorted[1];
    }
  }

  lemma {:induction false} InsertPermutes<T>(rank: T -> seq<int>, x: T, sorted: seq<T>)
    ensures multiset(InsertBy(rank, x, sorted)) == multiset{x} + multiset(sorted)
  {
    if sorted != [] && !Ordering.LexLe(rank(x), rank(sorted[0])) {
      InsertPermutes(rank, x, sorted[1..]);
      assert sorted == [sorted[0]] + sorted[1..];
    }
  }

  lemma {:induction false} AscendsAt<T>(rank: T -> seq<int>, xs: seq<T>, i: nat, j: nat)
    requires Ascends(rank, xs) && i < j < |xs|
    ensures Ordering.NotAfter(rank(xs[i]), rank(xs[j]))
    decreases j
  {
    if i > 0 {
      AscendsAt(rank, xs[1..], i - 1, j - 1);
    } else if j > 1 {
      AscendsAt(rank, xs[1..], 0, j - 1);
      Ordering.LexTransitive(rank(xs[0]), rank(xs[1]), rank(xs[j]));
    }
  }

  /** Sorting permutes the members into ascending order. */
  lemma {:induction false} SortAscends<T>(rank: T -> seq<int>, xs: seq<T>)
    ensures Ascends(rank, SortBy(rank, xs)) && multiset(SortBy(rank, xs)) == multiset(xs)
  {
    if xs != [] {
      SortAscends(rank, xs[1..]);
      InsertAscends(rank, xs[0], SortBy(rank, xs[1..]));
      InsertPermutes(rank, xs[0], SortBy(rank, xs[1..]));
      assert xs == [xs[0]] + xs[1..];
    }
  }

  /** Where ranks tell elements apart, a bag has one ascending list. */
  lemma {:induction false} AscendingUnique<T>(rank: T -> seq<int>, a: seq<T>, b: seq<T>)
    requires Ascends(rank, a) && Ascends(rank, b) && multiset(a) == multiset(b)
    requires forall x, y :: x in a && y in a && rank(x) == rank(y) ==> x == y
    ensures a == b
    decreases |a|
  {
    hide *;
    SameLength(a, b);
    if a == [] {
      assert b == [];
    } else {
      SameHead(rank, a, b);
      TailBags(a, b);
      AscendsTail(rank, a);
      AscendsTail(rank, b);
      assert forall x :: x in a[1..] ==> x in a;
      AscendingUnique(rank, a[1..], b[1..]);
      assert a == [a[0]] + a[1..] && b == [b[0]] + b[1..];
    }
  }

  lemma SameLength<T>(a: seq<T>, b: seq<T>)
    requires multiset(a) == multiset(b)
    ensures |a| == |b|
  {
    assert |multiset(a)| == |multiset(b)|;
  }

  lemma SameHead<T>(rank: T -> seq<int>, a: seq<T>, b: seq<T>)
    requires Ascends(rank, a) && Ascends(rank, b) && a != [] && b != [] && multiset(a) == multiset(b)
    requires forall x, y :: x in a && y in a && rank(x) == rank(y) ==> x == y
    ensures a[0] == b[0]
  {
    hide *;
    assert a[0] in multiset(a) && b[0] in multiset(b);
    HeadLeast(rank, a, b[0]);
    HeadLeast(rank, b, a[0]);
    Ordering.LexAntisymmetric(rank(a[0]), rank(b[0]));
  }

  lemma TailBags<T>(a: seq<T>, b: seq<T>)
    requires a != [] && b != [] && a[0] == b[0] && multiset(a) == multiset(b)
    ensures multiset(a[1..]) == multiset(b[1..])
  {
    assert a == [a[0]] + a[1..] && b == [b[0]] + b[1..];
    assert multiset(a[1..]) == multiset(a) - multiset{a[0]};
    assert multiset(b[1..]) == multiset(b) - multiset{b[0]};
  }

  lemma AscendsTail<T>(rank: T -> seq<int>, a: seq<T>)
    requires a != [] && Ascends(rank, a)
    ensures Ascends(rank, a[1..])
  {
    hide Ordering.NotAfter;
  }

  lemma HeadLeast<T>(rank: T -> seq<int>, a: seq<T>, x: T)
    requires a != [] && Ascends(rank, a) && x in multiset(a)
    ensures Ordering.NotAfter(rank(a[0]), rank(x))
  {
    hide *;
    var k :| 0 <= k < |a| && a[k] == x;
    if k > 0 { AscendsAt(rank, a, 0, k); } else { Ordering.LexTotal(rank(x), rank(x)); }
  }

  /** Sorting leaves what ascends as it is. */
  lemma {:induction false} SortIdentity<T>(rank: T -> seq<int>, xs: seq<T>)
    requires Ascends(rank, xs)
    ensures SortBy(rank, xs) == xs
  {
    if xs != [] {
      SortIdentity(rank, xs[1..]);
      hide Ordering.NotAfter, Ordering.LexLe;
      if |xs| > 1 { Ordering.LexLeDecides(rank(xs[0]), rank(xs[1])); }
      assert xs == [xs[0]] + xs[1..];
    }
  }

  // ----- Canonical form -----

  /** How a number literal is written; None where it cannot be. */
  type Format = bytes -> Option<bytes>

  function Formatted(f: Format, lit: bytes): bytes {
    match f(lit)
    case None => lit
    case Some(text) => text
  }

  /** Integers beyond 2^53 exactly as written, everything else as `f` does. */
  function Exact(f: Format): Format {
    (lit: bytes) => if Oversized(lit) then Some(lit) else f(lit)
  }

  function FieldRank(f: Field): seq<int> {
    Units(f.name)
  }

  function Canon(f: Format, j: Json): Json
    decreases j, 0
  {
    match j
    case JNum(lit) => JNum(Formatted(f, lit))
    case JArr(items) => JArr(CanonItems(f, items))
    case JObj(fields) => JObj(SortBy(FieldRank, CanonFields(f, fields)))
    case _ => j
  }

  function CanonItems(f: Format, items: seq<Json>): seq<Json>
    decreases items, 1
  {
    if items == [] then [] else [Canon(f, items[0])] + CanonItems(f, items[1..])
  }

  function CanonFields(f: Format, fields: seq<Field>): (r: seq<Field>)
    decreases fields, 1
  {
    if fields == [] then []
    else [Field(fields[0].name, Canon(f, fields[0].val))] + CanonFields(f, fields[1..])
  }

  /** No object repeats a name and every number can be written. */
  predicate Canonizable(f: Format, j: Json)
    decreases j, 0
  {
    match j
    case JNum(lit) => f(lit).Some?
    case JArr(items) => CanonizableItems(f, items)
    case JObj(fields) => Distinct(fields) && CanonizableFields(f, fields)
    case _ => true
  }

  predicate CanonizableItems(f: Format, items: seq<Json>)
    decreases items, 1
  {
    items == [] || (Canonizable(f, items[0]) && CanonizableItems(f, items[1..]))
  }

  predicate CanonizableFields(f: Format, fields: seq<Field>)
    decreases fields, 1
  {
    fields == [] || (Canonizable(f, fields[0].val) && CanonizableFields(f, fields[1..]))
  }

  // ----- Literals in document order -----

  function NumLits(j: Json): seq<bytes>
    decreases j, 0
  {
    match j
    case JNum(lit) => [lit]
    case JArr(items) => ItemsNumLits(items)
    case JObj(fields) => FieldsNumLits(fields)
    case _ => []
  }

  function ItemsNumLits(items: seq<Json>): seq<bytes>
    decreases items, 1
  {
    if items == [] then [] else NumLits(items[0]) + ItemsNumLits(items[1..])
  }

  function FieldsNumLits(fields: seq<Field>): seq<bytes>
    decreases fields, 1
  {
    if fields == [] then [] else NumLits(fields[0].val) + FieldsNumLits(fields[1..])
  }

  function Offenders(lits: seq<bytes>): (r: seq<bytes>)
    ensures forall k :: 0 <= k < |r| ==> Oversized(r[k])
  {
    if lits == [] then [] else (if Oversized(lits[0]) then [lits[0]] else []) + Offenders(lits[1..])
  }

  lemma OffendersStep(lits: seq<bytes>)
    ensures Offenders(lits) ==
            if lits == [] then [] else (if Oversized(lits[0]) then [lits[0]] else []) + Offenders(lits[1..])
  {
  }

  lemma {:induction false} OffendersConcat(a: seq<bytes>, b: seq<bytes>)
    ensures Offenders(a + b) == Offenders(a) + Offenders(b)
  {
    hide *;
    AppendStep(a, b);
    OffendersStep(a);
    if a == [] {
      Associate([], [], Offenders(b));
    } else {
      OffendersStep(a + b);
      OffendersConcat(a[1..], b);
      Associate(if Oversized(a[0]) then [a[0]] else [], Offenders(a[1..]), Offenders(b));
    }
  }

  /** The integers of a value that a double may not hold. */
  function Big(j: Json): seq<bytes> {
    Offenders(NumLits(j))
  }

  function BigItems(items: seq<Json>): seq<bytes> {
    Offenders(ItemsNumLits(items))
  }

  function BigFields(fields: seq<Field>): seq<bytes> {
    Offenders(FieldsNumLits(fields))
  }

  lemma BigNumber(lit: bytes)
    ensures Big(JNum(lit)) == if Oversized(lit) then [lit] else []
  {
    hide Oversized;
    assert [lit][1..] == [];
    assert Offenders([]) == [];
    assert NumLits(JNum(lit)) == [lit];
  }

  lemma BigItemsStep(items: seq<Json>)
    requires items != []
    ensures BigItems(items) == Big(items[0]) + BigItems(items[1..])
  {
    OffendersConcat(NumLits(items[0]), ItemsNumLits(items[1..]));
  }

  lemma BigFieldsStep(fields: seq<Field>)
    requires fields != []
    ensures BigFields(fields) == Big(fields[0].val) + BigFields(fields[1..])
  {
    OffendersConcat(NumLits(fields[0].val), FieldsNumLits(fields[1..]));
  }

  // ----- Trees with holes -----

  datatype NTree =
    | NHole(i: nat)
    | NLeaf(scalar: Json)
    | NArr(items: seq<NTree>)
    | NObj(fields: seq<NField>)

  datatype NField = NField(name: bytes, val: NTree)

  /** Oversized integers become holes, numbered in document order from `i`. */
  function Labelled(j: Json, i: nat): NTree
    decreases j, 0
  {
    match j
    case JNum(lit) => if Oversized(lit) then NHole(i) else NLeaf(j)
    case JArr(items) => NArr(LabelledItems(items, i))
    case JObj(fields) => NObj(LabelledFields(fields, i))
    case _ => NLeaf(j)
  }

  function LabelledItems(items: seq<Json>, i: nat): seq<NTree>
    decreases items, 1
  {
    if items == [] then [] else [Labelled(items[0], i)] + LabelledItems(items[1..], i + |Big(items[0])|)
  }

  function LabelledFields(fields: seq<Field>, i: nat): (r: seq<NField>)
    decreases fields, 1
  {
    if fields == [] then []
    else [NField(fields[0].name, Labelled(fields[0].val, i))] + LabelledFields(fields[1..], i + |Big(fields[0].val)|)
  }

  /** The tree with `h(i)` in place of the i-th hole. */
  function As(h: nat -> Json, t: NTree): Json
    decreases t, 0
  {
    match t
    case NHole(i) => h(i)
    case NLeaf(j) => j
    case NArr(items) => JArr(AsItems(h, items))
    case NObj(fields) => JObj(AsFields(h, fields))
  }

  function AsItems(h: nat -> Json, items: seq<NTree>): seq<Json>
    decreases items, 1
  {
    if items == [] then [] else [As(h, items[0])] + AsItems(h, items[1..])
  }

  function AsField(h: nat -> Json, f: NField): Field
    decreases f, 0
  {
    Field(f.name, As(h, f.val))
  }

  function AsFields(h: nat -> Json, fields: seq<NField>): (r: seq<Field>)
    ensures |r| == |fields|
    decreases fields, 1
  {
    if fields == [] then [] else [AsField(h, fields[0])] + AsFields(h, fields[1..])
  }

  function NFieldRank(f: NField): seq<int> {
    Units(f.name)
  }

  function CanonTree(f: Format, t: NTree): NTree
    decreases t, 0
  {
    match t
    case NHole(_) => t
    case NLeaf(j) => NLeaf(if j.JNum? then JNum(Formatted(f, j.lit)) else j)
    case NArr(items) => NArr(CanonTrees(f, items))
    case NObj(fields) => NObj(SortBy(NFieldRank, CanonNFields(f, fields)))
  }

  function CanonTrees(f: Format, items: seq<NTree>): seq<NTree>
    decreases items, 1
  {
    if items == [] then [] else [CanonTree(f, items[0])] + CanonTrees(f, items[1..])
  }

  function CanonNFields(f: Format, fields: seq<NField>): (r: seq<NField>)
    decreases fields, 1
  {
    if fields == [] then []
    else [NField(fields[0].name, CanonTree(f, fields[0].val))] + CanonNFields(f, fields[1..])
  }

  /** Holes standing for their own literals. */
  function Literal(lits: seq<bytes>): nat -> Json {
    (i: nat) => JNum(if i < |lits| then lits[i] else [])
  }

  /** The content of the i-th token. */
  function TokenText(p: bytes, i: nat): bytes {
    p + [DASH] + Numbers.Digits(i)
  }

  /** Holes standing for their placeholders. */
  function Stubbed(p: bytes): nat -> Json {
    (i: nat) => JStr(TokenText(p, i))
  }

  lemma ItemsCons(f: Format, h: nat -> Json, x: NTree, r: seq<NTree>)
    ensures AsItems(h, [x] + r) == [As(h, x)] + AsItems(h, r)
    ensures CanonTrees(f, [x] + r) == [CanonTree(f, x)] + CanonTrees(f, r)
  {
    hide As, CanonTree;
    assert ([x] + r)[1..] == r;
  }

  lemma FieldsCons(f: Format, h: nat -> Json, x: NField, r: seq<NField>)
    ensures AsFields(h, [x] + r) == [Field(x.name, As(h, x.val))] + AsFields(h, r)
    ensures CanonNFields(f, [x] + r) == [NField(x.name, CanonTree(f, x.val))] + CanonNFields(f, r)
  {
    hide As, CanonTree;
    assert ([x] + r)[1..] == r;
  }

  lemma ItemsJoin(h: nat -> Json, x: NTree, r: seq<NTree>, items: seq<Json>)
    requires items != [] && As(h, x) == items[0] && AsItems(h, r) == items[1..]
    ensures AsItems(h, [x] + r) == items
  {
    hide As;
    assert ([x] + r)[1..] == r;
  }

  lemma FieldsJoin(h: nat -> Json, x: NField, r: seq<NField>, fields: seq<Field>)
    requires fields != [] && x.name == fields[0].name && As(h, x.val) == fields[0].val
    requires AsFields(h, r) == fields[1..]
    ensures AsFields(h, [x] + r) == fields
  {
    hide As;
    assert ([x] + r)[1..] == r;
  }

  lemma JsonItemsCons(f: Format, x: Json, r: seq<Json>)
    ensures CanonItems(f, [x] + r) == [Canon(f, x)] + CanonItems(f, r)
  {
    hide Canon;
    assert ([x] + r)[1..] == r;
  }

  lemma JsonFieldsCons(f: Format, x: Field, r: seq<Field>)
    ensures CanonFields(f, [x] + r) == [Field(x.name, Canon(f, x.val))] + CanonFields(f, r)
  {
    hide Canon;
    assert ([x] + r)[1..] == r;
  }

  lemma ItemsSquare(f: Format, g: Format, h: nat -> Json, x: NTree, r: seq<NTree>)
    requires As(h, CanonTree(g, x)) == Canon(f, As(h, x))
    requires AsItems(h, CanonTrees(g, r)) == CanonItems(f, AsItems(h, r))
    ensures AsItems(h, CanonTrees(g, [x] + r)) == CanonItems(f, AsItems(h, [x] + r))
  {
    hide *;
    ItemsCons(g, h, x, r);
    ItemsCons(g, h, CanonTree(g, x), CanonTrees(g, r));
    JsonItemsCons(f, As(h, x), AsItems(h, r));
  }

  lemma FieldsSquare(f: Format, g: Format, h: nat -> Json, x: NField, r: seq<NField>)
    requires As(h, CanonTree(g, x.val)) == Canon(f, As(h, x.val))
    requires AsFields(h, CanonNFields(g, r)) == CanonFields(f, AsFields(h, r))
    ensures AsFields(h, CanonNFields(g, [x] + r)) == CanonFields(f, AsFields(h, [x] + r))
  {
    hide *;
    FieldsCons(g, h, x, r);
    FieldsCons(g, h, NField(x.name, CanonTree(g, x.val)), CanonNFields(g, r));
    JsonFieldsCons(f, Field(x.name, As(h, x.val)), AsFields(h, r));
  }

  lemma EmptyBack(h: nat -> Json, i: nat)
    ensures AsItems(h, LabelledItems([], i)) == [] && AsFields(h, LabelledFields([], i)) == []
  {
  }

  lemma EmptySquare(f: Format, g: Format, h: nat -> Json, i: nat)
    ensures AsItems(h, CanonTrees(g, LabelledItems([], i))) == CanonItems(f, AsItems(h, LabelledItems([], i)))
    ensures AsFields(h, CanonNFields(g, LabelledFields([], i))) == CanonFields(f, AsFields(h, LabelledFields([], i)))
  {
  }

  lemma LabelledItemsStep(items: seq<Json>, i: nat)
    requires items != []
    ensures LabelledItems(items, i) == [Labelled(items[0], i)] + LabelledItems(items[1..], i + |Big(items[0])|)
  {
  }

  lemma LabelledFieldsStep(fields: seq<Field>, i: nat)
    requires fields != []
    ensures LabelledFields(fields, i) ==
            [NField(fields[0].name, Labelled(fields[0].val, i))] + LabelledFields(fields[1..], i + |Big(fields[0].val)|)
  {
  }

  /** The literals from the i-th on are `some`. */
  predicate Holds(lits: seq<bytes>, i: nat, some: seq<bytes>) {
    i + |some| <= |lits| && lits[i..i + |some|] == some
  }

  /** Putting the literals back undoes the labelling. */
  lemma {:induction false} LabelledBack(lits: seq<bytes>, j: Json, i: nat)
    requires Holds(lits, i, Big(j))
    ensures As(Literal(lits), Labelled(j, i)) == j
    decreases j, 0
  {
    match j
    case JNum(lit) =>
      if Oversized(lit) {
        BigNumber(lit);
        assert lits[i..i + 1][0] == lit;
      }
    case JArr(items) => LabelledItemsBack(lits, items, i);
    case JObj(fields) => LabelledFieldsBack(lits, fields, i);
    case _ =>
  }

  lemma HoldsSplit(lits: seq<bytes>, i: nat, a: seq<bytes>, b: seq<bytes>)
    requires Holds(lits, i, a + b)
    ensures Holds(lits, i, a) && Holds(lits, i + |a|, b)
  {
    var s := lits[i..i + |a + b|];
    assert s[..|a|] == a && s[|a|..] == b;
    assert lits[i..i + |a|] == s[..|a|] && lits[i + |a|..i + |a| + |b|] == s[|a|..];
  }

  lemma {:induction false} LabelledItemsBack(lits: seq<bytes>, items: seq<Json>, i: nat)
    requires Holds(lits, i, BigItems(items))
    ensures AsItems(Literal(lits), LabelledItems(items, i)) == items
    decreases items, 1
  {
    hide *;
    if items == [] {
      EmptyBack(Literal(lits), i);
    } else {
      BigItemsStep(items);
      HoldsSplit(lits, i, Big(items[0]), BigItems(items[1..]));
      var i' := i + |Big(items[0])|;
      LabelledBack(lits, items[0], i);
      LabelledItemsBack(lits, items[1..], i');
      LabelledItemsStep(items, i);
      ItemsJoin(Literal(lits), Labelled(items[0], i), LabelledItems(items[1..], i'), items);
    }
  }

  lemma {:induction false} LabelledFieldsBack(lits: seq<bytes>, fields: seq<Field>, i: nat)
    requires Holds(lits, i, BigFields(fields))
    ensures AsFields(Literal(lits), LabelledFields(fields, i)) == fields
    decreases fields, 1
  {
    hide *;
    if fields == [] {
      EmptyBack(Literal(lits), i);
    } else {
      var x := fields[0];
      BigFieldsStep(fields);
      HoldsSplit(lits, i, Big(x.val), BigFields(fields[1..]));
      var i' := i + |Big(x.val)|;
      LabelledBack(lits, x.val, i);
      LabelledFieldsBack(lits, fields[1..], i');
      LabelledFieldsStep(fields, i);
      FieldsJoin(Literal(lits), NField(x.name, Labelled(x.val, i)), LabelledFields(fields[1..], i'), fields);
    }
  }

  // ----- Canonicalizing around the holes -----

  lemma {:induction false} InsertAs(h: nat -> Json, x: NField, sorted: seq<NField>)
    ensures AsFields(h, InsertBy(NFieldRank, x, sorted)) == InsertBy(FieldRank, AsField(h, x), AsFields(h, sorted))
  {
    hide Units, Ordering.NotAfter, As;
    if sorted == [] || Ordering.LexLe(Units(x.name), Units(sorted[0].name)) {
      assert ([x] + sorted)[1..] == sorted;
    } else {
      InsertAs(h, x, sorted[1..]);
      var r := InsertBy(NFieldRank, x, sorted[1..]);
      assert ([sorted[0]] + r)[1..] == r;
      assert AsFields(h, sorted)[1..] == AsFields(h, sorted[1..]);
    }
  }

  lemma {:induction false} SortAs(h: nat -> Json, fields: seq<NField>)
    ensures AsFields(h, SortBy(NFieldRank, fields)) == SortBy(FieldRank, AsFields(h, fields))
  {
    if fields != [] {
      hide Units, As, InsertBy, AsField;
      SortAs(h, fields[1..]);
      InsertAs(h, fields[0], SortBy(NFieldRank, fields[1..]));
      assert AsFields(h, fields)[1..] == AsFields(h, fields[1..]);
    }
  }

  /** `f` and `g` write alike what is not oversized. */
  ghost predicate AgreeBelow(f: Format, g: Format) {
    forall lit :: !Oversized(lit) ==> f(lit) == g(lit)
  }

  /** `f` leaves alone what stands in the holes from `i` to `i + n`. */
  ghost predicate Inert(f: Format, h: nat -> Json, i: nat, n: nat) {
    forall k: nat :: i <= k < i + n ==> Canon(f, h(k)) == h(k)
  }

  /** Whether the holes are filled before or after canonicalizing makes no difference. */
  lemma {:induction false} CanonAs(f: Format, g: Format, h: nat -> Json, j: Json, i: nat)
    requires AgreeBelow(f, g) && Inert(f, h, i, |Big(j)|)
    ensures As(h, CanonTree(g, Labelled(j, i))) == Canon(f, As(h, Labelled(j, i)))
    decreases j, 0
  {
    match j
    case JNum(lit) =>
      if Oversized(lit) {
        BigNumber(lit);
        assert Canon(f, h(i)) == h(i);
      }
    case JArr(items) => CanonItemsAs(f, g, h, items, i);
    case JObj(fields) =>
      CanonFieldsAs(f, g, h, fields, i);
      SortAs(h, CanonNFields(g, LabelledFields(fields, i)));
    case _ =>
  }

  lemma {:induction false} CanonItemsAs(f: Format, g: Format, h: nat -> Json, items: seq<Json>, i: nat)
    requires AgreeBelow(f, g) && Inert(f, h, i, |BigItems(items)|)
    ensures AsItems(h, CanonTrees(g, LabelledItems(items, i))) == CanonItems(f, AsItems(h, LabelledItems(items, i)))
    decreases items, 1
  {
    hide *;
    if items == [] {
      EmptySquare(f, g, h, i);
    } else {
      BigItemsStep(items);
      var i' := i + |Big(items[0])|;
      InertSplit(f, h, i, |Big(items[0])|, |BigItems(items[1..])|);
      CanonAs(f, g, h, items[0], i);
      CanonItemsAs(f, g, h, items[1..], i');
      var x, r := Labelled(items[0], i), LabelledItems(items[1..], i');
      LabelledItemsStep(items, i);
      ItemsSquare(f, g, h, x, r);
    }
  }

  lemma InertSplit(f: Format, h: nat -> Json, i: nat, m: nat, n: nat)
    requires Inert(f, h, i, m + n)
    ensures Inert(f, h, i, m) && Inert(f, h, i + m, n)
  {
    hide Canon;
  }

  lemma {:induction false} CanonFieldsAs(f: Format, g: Format, h: nat -> Json, fields: seq<Field>, i: nat)
    requires AgreeBelow(f, g) && Inert(f, h, i, |BigFields(fields)|)
    ensures AsFields(h, CanonNFields(g, LabelledFields(fields, i)))
            == CanonFields(f, AsFields(h, LabelledFields(fields, i)))
    decreases fields, 1
  {
    hide *;
    if fields == [] {
      EmptySquare(f, g, h, i);
    } else {
      var v := fields[0].val;
      BigFieldsStep(fields);
      var i' := i + |Big(v)|;
      InertSplit(f, h, i, |Big(v)|, |BigFields(fields[1..])|);
      CanonAs(f, g, h, v, i);
      CanonFieldsAs(f, g, h, fields[1..], i');
      var x, r := NField(fields[0].name, Labelled(v, i)), LabelledFields(fields[1..], i');
      LabelledFieldsStep(fields, i);
      FieldsSquare(f, g, h, x, r);
    }
  }

  /** Stubbing the holes changes neither the names nor which numbers can be written. */
  lemma {:induction false} StubCanonizable(f: Format, p: bytes, j: Json, i: nat)
    ensures Canonizable(f, As(Stubbed(p), Labelled(j, i))) <==> Canonizable(Exact(f), j)
    decreases j, 0
  {
    match j
    case JArr(items) => StubItemsCanonizable(f, p, items, i);
    case JObj(fields) => StubFieldsCanonizable(f, p, fields, i);
    case _ =>
  }

  lemma {:induction false} StubItemsCanonizable(f: Format, p: bytes, items: seq<Json>, i: nat)
    ensures CanonizableItems(f, AsItems(Stubbed(p), LabelledItems(items, i))) <==> CanonizableItems(Exact(f), items)
    decreases items, 1
  {
    hide *;
    if items == [] {
      EmptyBack(Stubbed(p), i);
      EmptyCanonizable(f);
    } else {
      var i' := i + |Big(items[0])|;
      StubCanonizable(f, p, items[0], i);
      StubItemsCanonizable(f, p, items[1..], i');
      LabelledItemsStep(items, i);
      ItemsCons(f, Stubbed(p), Labelled(items[0], i), LabelledItems(items[1..], i'));
      CanonizableItemsCons(f, As(Stubbed(p), Labelled(items[0], i)),
                           AsItems(Stubbed(p), LabelledItems(items[1..], i')));
      CanonizableItemsCons(Exact(f), items[0], items[1..]);
      FirstAndRest(items);
    }
  }

  lemma EmptyCanonizable(f: Format)
    ensures CanonizableItems(f, []) && CanonizableFields(f, []) && CanonizableItems(Exact(f), [])
            && CanonizableFields(Exact(f), [])
  {
  }

  lemma FirstAndRest<T>(s: seq<T>)
    requires s != []
    ensures s == [s[0]] + s[1..]
  {
  }

  lemma CanonizableItemsCons(f: Format, x: Json, r: seq<Json>)
    ensures CanonizableItems(f, [x] + r) == (Canonizable(f, x) && CanonizableItems(f, r))
  {
    hide Canonizable;
    assert ([x] + r)[1..] == r;
  }

  lemma CanonizableFieldsCons(f: Format, x: Field, r: seq<Field>)
    ensures CanonizableFields(f, [x] + r) == (Canonizable(f, x.val) && CanonizableFields(f, r))
  {
    hide Canonizable;
    assert ([x] + r)[1..] == r;
  }

  lemma {:induction false} StubFieldsCanonizable(f: Format, p: bytes, fields: seq<Field>, i: nat)
    ensures var stub := AsFields(Stubbed(p), LabelledFields(fields, i));
            && |stub| == |fields| && (forall k :: 0 <= k < |fields| ==> stub[k].name == fields[k].name)
            && (CanonizableFields(f, stub) <==> CanonizableFields(Exact(f), fields))
    decreases fields, 1
  {
    hide *;
    if fields == [] {
      EmptyBack(Stubbed(p), i);
      EmptyCanonizable(f);
    } else {
      var i' := i + |Big(fields[0].val)|;
      StubCanonizable(f, p, fields[0].val, i);
      StubFieldsCanonizable(f, p, fields[1..], i');
      LabelledFieldsStep(fields, i);
      var x := NField(fields[0].name, Labelled(fields[0].val, i));
      var stub := AsFields(Stubbed(p), LabelledFields(fields[1..], i'));
      FieldsCons(f, Stubbed(p), x, LabelledFields(fields[1..], i'));
      CanonizableFieldsCons(f, Field(x.name, As(Stubbed(p), x.val)), stub);
      CanonizableFieldsCons(Exact(f), fields[0], fields[1..]);
      FirstAndRest(fields);
    }
  }

  /** Where nothing is oversized the two formats give the same result. */
  lemma {:induction false} NothingBig(f: Format, j: Json)
    requires Big(j) == []
    ensures Canon(Exact(f), j) == Canon(f, j) && (Canonizable(Exact(f), j) <==> Canonizable(f, j))
    decreases j, 0
  {
    match j
    case JNum(lit) => BigNumber(lit);
    case JArr(items) => NoItemBig(f, items);
    case JObj(fields) => NoFieldBig(f, fields);
    case _ =>
  }

  lemma {:induction false} NoItemBig(f: Format, items: seq<Json>)
    requires BigItems(items) == []
    ensures CanonItems(Exact(f), items) == CanonItems(f, items)
    ensures CanonizableItems(Exact(f), items) <==> CanonizableItems(f, items)
    decreases items, 1
  {
    if items != [] {
      hide Big, BigItems, Canon, Canonizable, Exact, Formatted;
      BigItemsStep(items);
      NothingBig(f, items[0]);
      NoItemBig(f, items[1..]);
    }
  }

  lemma {:induction false} NoFieldBig(f: Format, fields: seq<Field>)
    requires BigFields(fields) == []
    ensures CanonFields(Exact(f), fields) == CanonFields(f, fields)
    ensures CanonizableFields(Exact(f), fields) <==> CanonizableFields(f, fields)
    decreases fields, 1
  {
    if fields != [] {
      hide Big, BigFields, Canon, Canonizable, Exact, Formatted;
      BigFieldsStep(fields);
      NothingBig(f, fields[0].val);
      NoFieldBig(f, fields[1..]);
    }
  }
}
