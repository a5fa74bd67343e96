/** A tree with holes printed around them, and which holes a printed tree has. */
module JcsFlatten {
  import opened Bytes
  import opened JsonText
  import opened JsonTree
  import opened JcsSplice
  import opened JcsScan
  import opened JcsCanon

  function Prepend(b: bytes, x: Spliced): Spliced {
    match x
    case End(run) => End(b + run)
    case Cut(run, i, rest) => Cut(b + run, i, rest)
  }

  /** The printed tree followed by `tail`. */
  function Flatten(t: NTree, tail: Spliced): Spliced
    decreases t, 0
  {
    match t
    case NHole(i) => Cut([], i, tail)
    case NLeaf(j) => Prepend(Print(j), tail)
    case NArr(items) => Prepend([OPEN_ARRAY], FlattenItems(items, Prepend([CLOSE_ARRAY], tail)))
    case NObj(fields) => Prepend([OPEN_OBJECT], FlattenFields(fields, Prepend([CLOSE_OBJECT], tail)))
  }

  function FlattenItems(items: seq<NTree>, tail: Spliced): Spliced
    decreases items, 1
  {
    if items == [] then tail
    else Flatten(items[0], if |items| == 1 then tail else Prepend([COMMA], FlattenItems(items[1..], tail)))
  }

  function FlattenField(f: NField, tail: Spliced): Spliced
    decreases f, 0
  {
    Prepend(Quoted(f.name) + [COLON], Flatten(f.val, tail))
  }

  function FlattenFields(fields: seq<NField>, tail: Spliced): Spliced
    decreases fields, 1
  {
    if fields == [] then tail
    else FlattenField(fields[0], if |fields| == 1 then tail else Prepend([COMMA], FlattenFields(fields[1..], tail)))
  }

  // ----- Rendering -----

  /** The text with `r(i)` in place of the i-th hole. */
  function Render(r: nat -> bytes, x: Spliced): bytes {
    match x
    case End(run) => run
    case Cut(run, i, rest) => run + (r(i) + Render(r, rest))
  }

  function Printed(h: nat -> Json): nat -> bytes {
    (i: nat) => Print(h(i))
  }

  lemma RenderPrepend(r: nat -> bytes, b: bytes, x: Spliced)
    ensures Render(r, Prepend(b, x)) == b + Render(r, x)
  {
    if x.Cut? {
      var t := r(x.hole) + Render(r, x.rest);
      assert (b + x.run) + t == b + (x.run + t);
    }
  }

  /** Printing the filled tree fills the printed tree. */
  lemma {:induction false} FlattenPrints(h: nat -> Json, t: NTree, tail: Spliced)
    ensures Render(Printed(h), Flatten(t, tail)) == Print(As(h, t)) + Render(Printed(h), tail)
    decreases t, 0
  {
    match t
    case NHole(i) =>
      assert [] + (Print(h(i)) + Render(Printed(h), tail)) == Print(h(i)) + Render(Printed(h), tail);
    case NLeaf(j) => RenderPrepend(Printed(h), Print(j), tail);
    case NArr(items) =>
      ItemsPrint(h, items, Prepend([CLOSE_ARRAY], tail));
      Wrapped(Printed(h), OPEN_ARRAY, CLOSE_ARRAY, PrintItems(AsItems(h, items)),
              FlattenItems(items, Prepend([CLOSE_ARRAY], tail)), tail);
    case NObj(fields) =>
      FieldsPrint(h, fields, Prepend([CLOSE_OBJECT], tail));
      Wrapped(Printed(h), OPEN_OBJECT, CLOSE_OBJECT, PrintFields(AsFields(h, fields)),
              FlattenFields(fields, Prepend([CLOSE_OBJECT], tail)), tail);
  }

  lemma Wrapped(r: nat -> bytes, open: byte, close: byte, inner: bytes, x: Spliced, tail: Spliced)
    requires Render(r, x) == inner + Render(r, Prepend([close], tail))
    ensures Render(r, Prepend([open], x)) == ([open] + inner + [close]) + Render(r, tail)
  {
    hide Render, Prepend;
    RenderPrepend(r, [open], x);
    RenderPrepend(r, [close], tail);
  }

  /** One element printed, the rest already known. */
  lemma Separated(r: nat -> bytes, first: bytes, rest: bytes, x: Spliced, y: Spliced, tail: Spliced)
    requires Render(r, x) == first + Render(r, Prepend([COMMA], y))
    requires Render(r, y) == rest + Render(r, tail)
    ensures Render(r, x) == (first + ([COMMA] + rest)) + Render(r, tail)
  {
    hide Render, Prepend;
    RenderPrepend(r, [COMMA], y);
    assert first + ([COMMA] + (rest + Render(r, tail))) == (first + ([COMMA] + rest)) + Render(r, tail);
  }

  lemma {:induction false} ItemsPrint(h: nat -> Json, items: seq<NTree>, tail: Spliced)
    ensures Render(Printed(h), FlattenItems(items, tail)) ==
            PrintItems(AsItems(h, items)) + Render(Printed(h), tail)
    decreases items, 1
  {
    hide *;
    ItemsUnfold(h, items, tail);
    if items != [] {
      if |items| == 1 {
        FlattenPrints(h, items[0], tail);
      } else {
        var y := FlattenItems(items[1..], tail);
        FlattenPrints(h, items[0], Prepend([COMMA], y));
        ItemsPrint(h, items[1..], tail);
        Separated(Printed(h), Print(As(h, items[0])), PrintItems(AsItems(h, items[1..])),
                  Flatten(items[0], Prepend([COMMA], y)), y, tail);
      }
    }
  }

  lemma ItemsUnfold(h: nat -> Json, items: seq<NTree>, tail: Spliced)
    ensures items == [] ==> Render(Printed(h), FlattenItems(items, tail)) ==
                            PrintItems(AsItems(h, items)) + Render(Printed(h), tail)
    ensures |items| == 1 ==> FlattenItems(items, tail) == Flatten(items[0], tail)
                             && PrintItems(AsItems(h, items)) == Print(As(h, items[0]))
    ensures |items| > 1 ==>
              FlattenItems(items, tail) == Flatten(items[0], Prepend([COMMA], FlattenItems(items[1..], tail)))
                            && PrintItems(AsItems(h, items)) ==
                               Print(As(h, items[0])) + ([COMMA] + PrintItems(AsItems(h, items[1..])))
  {
    hide Print, As, Flatten, Render, Prepend;
    if items != [] {
      var js := AsItems(h, items);
      assert js[0] == As(h, items[0]) && js[1..] == AsItems(h, items[1..]);
      assert |items| > 1 ==> items[1..] != [] && js[1..] != [];
      assert Print(js[0]) + [] == Print(js[0]);
    } else {
      assert [] + Render(Printed(h), tail) == Render(Printed(h), tail);
    }
  }

  lemma {:induction false} FieldPrints(h: nat -> Json, f: NField, tail: Spliced)
    ensures Render(Printed(h), FlattenField(f, tail)) == PrintField(AsField(h, f)) + Render(Printed(h), tail)
    decreases f, 0
  {
    hide Print, As, Flatten, Render, Prepend, Quoted;
    FlattenPrints(h, f.val, tail);
    RenderPrepend(Printed(h), Quoted(f.name) + [COLON], Flatten(f.val, tail));
    assert (Quoted(f.name) + [COLON]) + (Print(As(h, f.val)) + Render(Printed(h), tail)) ==
           (Quoted(f.name) + [COLON] + Print(As(h, f.val))) + Render(Printed(h), tail);
  }

  lemma {:induction false} FieldsPrint(h: nat -> Json, fields: seq<NField>, tail: Spliced)
    ensures Render(Printed(h), FlattenFields(fields, tail)) ==
            PrintFields(AsFields(h, fields)) + Render(Printed(h), tail)
    decreases fields, 1
  {
    hide *;
    FieldsUnfold(h, fields, tail);
    if fields != [] {
      if |fields| == 1 {
        FieldPrints(h, fields[0], tail);
      } else {
        var y := FlattenFields(fields[1..], tail);
        FieldPrints(h, fields[0], Prepend([COMMA], y));
        FieldsPrint(h, fields[1..], tail);
        Separated(Printed(h), PrintField(AsField(h, fields[0])), PrintFields(AsFields(h, fields[1..])),
                  FlattenField(fields[0], Prepend([COMMA], y)), y, tail);
      }
    }
  }

  lemma FieldsUnfold(h: nat -> Json, fields: seq<NField>, tail: Spliced)
    ensures fields == [] ==> Render(Printed(h), FlattenFields(fields, tail)) ==
                             PrintFields(AsFields(h, fields)) + Render(Printed(h), tail)
    ensures |fields| == 1 ==> FlattenFields(fields, tail) == FlattenField(fields[0], tail)
                              && PrintFields(AsFields(h, fields)) == PrintField(AsField(h, fields[0]))
    ensures |fields| > 1 ==>
              FlattenFields(fields, tail) == FlattenField(fields[0], Prepend([COMMA], FlattenFields(fields[1..], tail)))
              && PrintFields(AsFields(h, fields)) ==
                 PrintField(AsField(h, fields[0])) + ([COMMA] + PrintFields(AsFields(h, fields[1..])))
  {
    hide PrintField, AsField, FlattenField, Render, Prepend;
    if fields != [] {
      var js := AsFields(h, fields);
      assert js[0] == AsField(h, fields[0]) && js[1..] == AsFields(h, fields[1..]);
      assert |fields| > 1 ==> fields[1..] != [] && js[1..] != [];
      assert PrintField(js[0]) + [] == PrintField(js[0]);
    } else {
      assert [] + Render(Printed(h), tail) == Render(Printed(h), tail);
    }
  }

  // ----- The holes of a tree -----

  function HoleBag(t: NTree): multiset<nat>
    decreases t, 0
  {
    match t
    case NHole(i) => multiset{i}
    case NLeaf(_) => multiset{}
    case NArr(items) => ItemsBag(items)
    case NObj(fields) => FieldsBag(fields)
  }

  function ItemsBag(items: seq<NTree>): multiset<nat>
    decreases items, 1
  {
    if items == [] then multiset{} else HoleBag(items[0]) + ItemsBag(items[1..])
  }

  function FieldsBag(fields: seq<NField>): multiset<nat>
    decreases fields, 1
  {
    if fields == [] then multiset{} else HoleBag(fields[0].val) + FieldsBag(fields[1..])
  }

  lemma PrependHoles(b: bytes, x: Spliced)
    ensures Holes(Prepend(b, x)) == Holes(x)
  {
  }

  lemma {:induction false} FlattenHoles(t: NTree, tail: Spliced)
    ensures multiset(Holes(Flatten(t, tail))) == HoleBag(t) + multiset(Holes(tail))
    decreases t, 0
  {
    match t
    case NHole(i) => assert Holes(Flatten(t, tail)) == [i] + Holes(tail);
    case NLeaf(j) => PrependHoles(Print(j), tail);
    case NArr(items) =>
      FlattenItemsHoles(items, Prepend([CLOSE_ARRAY], tail));
      PrependHoles([CLOSE_ARRAY], tail);
      PrependHoles([OPEN_ARRAY], FlattenItems(items, Prepend([CLOSE_ARRAY], tail)));
    case NObj(fields) =>
      FlattenFieldsHoles(fields, Prepend([CLOSE_OBJECT], tail));
      PrependHoles([CLOSE_OBJECT], tail);
      PrependHoles([OPEN_OBJECT], FlattenFields(fields, Prepend([CLOSE_OBJECT], tail)));
  }

  lemma {:induction false} FlattenItemsHoles(items: seq<NTree>, tail: Spliced)
    ensures multiset(Holes(FlattenItems(items, tail))) == ItemsBag(items) + multiset(Holes(tail))
    decreases items, 1
  {
    if items != [] {
      var y := FlattenItems(items[1..], tail);
      FlattenItemsHoles(items[1..], tail);
      PrependHoles([COMMA], y);
      FlattenHoles(items[0], if |items| == 1 then tail else Prepend([COMMA], y));
      hide Holes, Prepend, Flatten, HoleBag;
    }
  }

  lemma {:induction false} FlattenFieldsHoles(fields: seq<NField>, tail: Spliced)
    ensures multiset(Holes(FlattenFields(fields, tail))) == FieldsBag(fields) + multiset(Holes(tail))
    decreases fields, 1
  {
    hide *;
    if fields == [] {
      NoFields(tail);
    } else {
      var y := FlattenFields(fields[1..], tail);
      FlattenFieldsHoles(fields[1..], tail);
      PrependHoles([COMMA], y);
      var tail' := if |fields| == 1 then tail else Prepend([COMMA], y);
      FlattenHoles(fields[0].val, tail');
      FirstFieldHoles(fields, tail);
    }
  }

  lemma NoFields(tail: Spliced)
    ensures multiset(Holes(FlattenFields([], tail))) == FieldsBag([]) + multiset(Holes(tail))
  {
  }

  lemma FirstFieldHoles(fields: seq<NField>, tail: Spliced)
    requires fields != []
    ensures var tail' := if |fields| == 1 then tail else Prepend([COMMA], FlattenFields(fields[1..], tail));
            Holes(FlattenFields(fields, tail)) == Holes(Flatten(fields[0].val, tail'))
    ensures FieldsBag(fields) == HoleBag(fields[0].val) + FieldsBag(fields[1..])
    ensures |fields| == 1 ==> FieldsBag(fields[1..]) == multiset{}
  {
    hide HoleBag, Flatten;
    var tail' := if |fields| == 1 then tail else Prepend([COMMA], FlattenFields(fields[1..], tail));
    PrependHoles(Quoted(fields[0].name) + [COLON], Flatten(fields[0].val, tail'));
    hide Quoted, Holes, Prepend;
  }

  // ----- Canonicalizing keeps the holes -----

  lemma {:induction false} InsertBag(x: NField, sorted: seq<NField>)
    ensures FieldsBag(InsertBy(NFieldRank, x, sorted)) == HoleBag(x.val) + FieldsBag(sorted)
  {
    hide HoleBag, NFieldRank;
    var r := InsertBy(NFieldRank, x, sorted);
    if sorted == [] || r == [x] + sorted {
      assert ([x] + sorted)[1..] == sorted;
    } else {
      InsertBag(x, sorted[1..]);
      assert ([sorted[0]] + InsertBy(NFieldRank, x, sorted[1..]))[1..] == InsertBy(NFieldRank, x, sorted[1..]);
    }
  }

  lemma {:induction false} SortBag(fields: seq<NField>)
    ensures FieldsBag(SortBy(NFieldRank, fields)) == FieldsBag(fields)
  {
    hide HoleBag, NFieldRank, InsertBy;
    if fields != [] {
      SortBag(fields[1..]);
      InsertBag(fields[0], SortBy(NFieldRank, fields[1..]));
    }
  }

  lemma {:induction false} CanonBag(f: Format, t: NTree)
    ensures HoleBag(CanonTree(f, t)) == HoleBag(t)
    decreases t, 0
  {
    match t
    case NHole(_) =>
    case NLeaf(_) =>
    case NArr(items) => CanonItemsBag(f, items);
    case NObj(fields) =>
      CanonFieldsBag(f, fields);
      SortBag(CanonNFields(f, fields));
  }

  lemma {:induction false} CanonItemsBag(f: Format, items: seq<NTree>)
    ensures ItemsBag(CanonTrees(f, items)) == ItemsBag(items)
    decreases items, 1
  {
    if items != [] {
      CanonBag(f, items[0]);
      CanonItemsBag(f, items[1..]);
      hide HoleBag, CanonTree;
      assert CanonTrees(f, items)[1..] == CanonTrees(f, items[1..]);
    }
  }

  lemma {:induction false} CanonFieldsBag(f: Format, fields: seq<NField>)
    ensures FieldsBag(CanonNFields(f, fields)) == FieldsBag(fields)
    decreases fields, 1
  {
    if fields != [] {
      CanonBag(f, fields[0].val);
      CanonFieldsBag(f, fields[1..]);
      hide HoleBag, CanonTree;
      assert CanonNFields(f, fields)[1..] == CanonNFields(f, fields[1..]);
    }
  }

  // ----- Labels are consecutive -----

  /** The indices from `i` on, `n` of them. */
  ghost predicate Consecutive(bag: multiset<nat>, i: nat, n: nat) {
    forall k: nat :: bag[k] == if i <= k < i + n then 1 else 0
  }

  lemma ConsecutiveJoin(a: multiset<nat>, b: multiset<nat>, i: nat, m: nat, n: nat)
    requires Consecutive(a, i, m) && Consecutive(b, i + m, n)
    ensures Consecutive(a + b, i, m + n)
  {
    forall k: nat ensures (a + b)[k] == if i <= k < i + m + n then 1 else 0 {
      assert a[k] == if i <= k < i + m then 1 else 0;
      assert b[k] == if i + m <= k < i + m + n then 1 else 0;
    }
  }

  lemma {:induction false} LabelledBag(j: Json, i: nat)
    ensures Consecutive(HoleBag(Labelled(j, i)), i, |Big(j)|)
    decreases j, 0
  {
    hide Consecutive, Offenders, Oversized, ItemsBag, FieldsBag;
    match j
    case JNum(lit) => NumberBag(lit, i);
    case JArr(items) => LabelledItemsBag(items, i);
    case JObj(fields) => LabelledFieldsBag(fields, i);
    case _ => NothingBag(i);
  }

  lemma NumberBag(lit: bytes, i: nat)
    ensures Consecutive(HoleBag(Labelled(JNum(lit), i)), i, |Big(JNum(lit))|)
  {
    hide Oversized;
    BigNumber(lit);
  }

  lemma NothingBag(i: nat)
    ensures Consecutive(multiset{}, i, |Offenders([])|)
    ensures Consecutive(ItemsBag([]), i, |BigItems([])|) && Consecutive(FieldsBag([]), i, |BigFields([])|)
  {
  }

  lemma {:induction false} LabelledItemsBag(items: seq<Json>, i: nat)
    ensures Consecutive(ItemsBag(LabelledItems(items, i)), i, |BigItems(items)|)
    decreases items, 1
  {
    hide *;
    if items == [] {
      NothingBag(i);
      NoLabels(i);
    } else {
      LabelledBag(items[0], i);
      var m := |Big(items[0])|;
      LabelledItemsBag(items[1..], i + m);
      BigItemsStep(items);
      ConsecutiveJoin(HoleBag(Labelled(items[0], i)), ItemsBag(LabelledItems(items[1..], i + m)), i, m,
                      |BigItems(items[1..])|);
      LabelledItemsStep(items, i);
      ItemsBagStep(Labelled(items[0], i), LabelledItems(items[1..], i + m));
    }
  }

  lemma NoLabels(i: nat)
    ensures LabelledItems([], i) == [] && LabelledFields([], i) == []
  {
  }

  lemma ItemsBagStep(x: NTree, r: seq<NTree>)
    ensures ItemsBag([x] + r) == HoleBag(x) + ItemsBag(r)
  {
    assert ([x] + r)[1..] == r;
  }

  lemma FieldsBagStep(x: NField, r: seq<NField>)
    ensures FieldsBag([x] + r) == HoleBag(x.val) + FieldsBag(r)
  {
    assert ([x] + r)[1..] == r;
  }

  lemma {:induction false} LabelledFieldsBag(fields: seq<Field>, i: nat)
    ensures Consecutive(FieldsBag(LabelledFields(fields, i)), i, |BigFields(fields)|)
    decreases fields, 1
  {
    hide *;
    if fields == [] {
      NothingBag(i);
      NoLabels(i);
    } else {
      var x := NField(fields[0].name, Labelled(fields[0].val, i));
      LabelledBag(fields[0].val, i);
      var m := |Big(fields[0].val)|;
      LabelledFieldsBag(fields[1..], i + m);
      BigFieldsStep(fields);
      ConsecutiveJoin(HoleBag(x.val), FieldsBag(LabelledFields(fields[1..], i + m)), i, m, |BigFields(fields[1..])|);
      LabelledFieldsStep(fields, i);
      FieldsBagStep(x, LabelledFields(fields[1..], i + m));
    }
  }

  /** A canonicalized, printed document has every hole exactly once. */
  lemma EveryHoleOnce(f: Format, j: Json)
    ensures Exactly(Holes(Flatten(CanonTree(f, Labelled(j, 0)), End([]))), |Big(j)|)
  {
    hide Flatten, CanonTree, HoleBag, Labelled, Big;
    var t := Labelled(j, 0);
    LabelledBag(j, 0);
    CanonBag(f, t);
    FlattenHoles(CanonTree(f, t), End([]));
    assert HoleBag(t) + multiset{} == HoleBag(t);
  }
}
