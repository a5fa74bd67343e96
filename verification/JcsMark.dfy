/**
 The spliced document: cutting the oversized integers out of a text and writing
 placeholders in is the same as doing so in its syntax tree.
 */
module JcsMark {
  import opened Bytes
  import opened JsonText
  import opened JsonTree
  import opened JcsSplice
  import opened JcsScan
  import opened JcsCanon
  import opened JcsMentions

  // ----- The tokens of a document carry its text and its numbers -----

  function Numerals(ps: seq<Piece>): seq<bytes> {
    if ps == [] then [] else (if ps[0].Numeral? then [ps[0].lit] else []) + Numerals(ps[1..])
  }

  predicate Carries(ps: seq<Piece>, text: bytes, lits: seq<bytes>) {
    PiecesText(ps) == text && Numerals(ps) == lits
  }

  lemma NumeralsStep(ps: seq<Piece>)
    ensures Numerals(ps) == if ps == [] then [] else (if ps[0].Numeral? then [ps[0].lit] else []) + Numerals(ps[1..])
  {
  }

  lemma {:induction false} NumeralsConcat(a: seq<Piece>, b: seq<Piece>)
    ensures Numerals(a + b) == Numerals(a) + Numerals(b)
  {
    hide *;
    AppendStep(a, b);
    NumeralsStep(a);
    if a == [] {
      Associate([], [], Numerals(b));
    } else {
      NumeralsStep(a + b);
      NumeralsConcat(a[1..], b);
      Associate(if a[0].Numeral? then [a[0].lit] else [], Numerals(a[1..]), Numerals(b));
    }
  }

  lemma CarriesBoth(a: seq<Piece>, b: seq<Piece>, t: bytes, u: bytes, l: seq<bytes>, m: seq<bytes>)
    requires Carries(a, t, l) && Carries(b, u, m)
    ensures Carries(a + b, t + u, l + m)
  {
    hide PiecesText, Numerals;
    PiecesTextConcat(a, b);
    NumeralsConcat(a, b);
  }

  lemma CarriesPlain(t: bytes)
    ensures Carries([Plain(t)], t, [])
  {
    assert [Plain(t)][1..] == [] && PiecesText([]) == [] && Numerals([]) == [];
    assert t + [] == t;
  }

  lemma CarriesAround(pre: bytes, ps: seq<Piece>, t: bytes, l: seq<bytes>, post: bytes)
    requires Carries(ps, t, l)
    ensures Carries([Plain(pre)] + ps + [Plain(post)], pre + t + post, l)
  {
    hide Carries;
    CarriesPlain(pre);
    CarriesPlain(post);
    CarriesBoth([Plain(pre)], ps, pre, t, [], l);
    CarriesBoth([Plain(pre)] + ps, [Plain(post)], pre + t, post, [] + l, []);
    assert [] + l + [] == l;
  }

  lemma CarriesBefore(pre: bytes, ps: seq<Piece>, t: bytes, l: seq<bytes>)
    requires Carries(ps, t, l)
    ensures Carries([Plain(pre)] + ps, pre + t, l)
  {
    hide Carries;
    CarriesPlain(pre);
    CarriesBoth([Plain(pre)], ps, pre, t, [], l);
    assert [] + l == l;
  }

  lemma CarriesNumeral(lit: bytes)
    ensures Carries([Numeral(lit)], lit, [lit])
  {
    assert [Numeral(lit)][1..] == [] && PiecesText([]) == [] && Numerals([]) == [];
    assert lit + [] == lit;
  }

  lemma {:induction false} DocCarries(d: Doc)
    ensures Carries(DocPieces(d), Text(d), NumLits(Meaning(d)))
    decreases d, 0
  {
    hide Carries;
    match d
    case Num(lit) => CarriesNumeral(lit);
    case Arr(es, gap) =>
      if es == [] {
        CarriesPlain(gap + [CLOSE_ARRAY]);
        CarriesBefore([OPEN_ARRAY], [Plain(gap + [CLOSE_ARRAY])], gap + [CLOSE_ARRAY], []);
      } else {
        ElemsCarry(es);
        CarriesBefore([OPEN_ARRAY], ElemsPieces(es), ElemsText(es), ItemsNumLits(ElemsMeaning(es)));
      }
    case Obj(ms, gap) =>
      if ms == [] {
        CarriesPlain(gap + [CLOSE_OBJECT]);
        CarriesBefore([OPEN_OBJECT], [Plain(gap + [CLOSE_OBJECT])], gap + [CLOSE_OBJECT], []);
      } else {
        MembersCarry(ms);
        CarriesBefore([OPEN_OBJECT], MembersPieces(ms), MembersText(ms), FieldsNumLits(MembersMeaning(ms)));
      }
    case _ => CarriesPlain(Text(d));
  }

  lemma {:induction false} ElemCarries(e: Elem)
    ensures Carries(ElemPieces(e), ElemText(e), NumLits(ElemMeaning(e)))
    decreases e, 1
  {
    hide Carries, Text, Meaning, NumLits;
    DocCarries(e.val);
    CarriesAround(e.pre, DocPieces(e.val), Text(e.val), NumLits(Meaning(e.val)), e.post);
  }

  lemma {:induction false} ElemsCarry(es: seq<Elem>)
    requires es != []
    ensures Carries(ElemsPieces(es), ElemsText(es), ItemsNumLits(ElemsMeaning(es)))
    decreases es, 2
  {
    hide *;
    ElemCarries(es[0]);
    ElemsUnfold(es);
    var l := NumLits(ElemMeaning(es[0]));
    if |es| == 1 {
      CarriesPlain([CLOSE_ARRAY]);
      CarriesBoth(ElemPieces(es[0]), [Plain([CLOSE_ARRAY])], ElemText(es[0]), [CLOSE_ARRAY], l, []);
    } else {
      var rest, t, m := ElemsPieces(es[1..]), ElemsText(es[1..]), ItemsNumLits(ElemsMeaning(es[1..]));
      ElemsCarry(es[1..]);
      CarriesBefore([COMMA], rest, t, m);
      CarriesBoth(ElemPieces(es[0]), [Plain([COMMA])] + rest, ElemText(es[0]), [COMMA] + t, l, m);
    }
  }

  lemma ElemsUnfold(es: seq<Elem>)
    requires es != []
    ensures |es| == 1 ==> && ElemsPieces(es) == ElemPieces(es[0]) + [Plain([CLOSE_ARRAY])]
                          && ElemsText(es) == ElemText(es[0]) + [CLOSE_ARRAY]
                          && ItemsNumLits(ElemsMeaning(es)) == NumLits(ElemMeaning(es[0])) + []
    ensures |es| > 1 ==> && ElemsPieces(es) == ElemPieces(es[0]) + ([Plain([COMMA])] + ElemsPieces(es[1..]))
                         && ElemsText(es) == ElemText(es[0]) + ([COMMA] + ElemsText(es[1..]))
                         && ItemsNumLits(ElemsMeaning(es))
                            == NumLits(ElemMeaning(es[0])) + ItemsNumLits(ElemsMeaning(es[1..]))
  {
    hide ElemPieces, ElemText, ElemMeaning, NumLits;
    var js := ElemsMeaning(es);
    assert js[0] == ElemMeaning(es[0]) && js[1..] == ElemsMeaning(es[1..]);
  }

  lemma {:induction false} MemberCarries(m: Member)
    ensures Carries(MemberPieces(m), MemberText(m), NumLits(MemberMeaning(m).val))
    decreases m, 2
  {
    hide Carries, ElemText, ElemMeaning, NumLits, KeyText;
    ElemCarries(m.elem);
    CarriesBefore(KeyText(m.key), ElemPieces(m.elem), ElemText(m.elem), NumLits(ElemMeaning(m.elem)));
  }

  lemma {:induction false} MembersCarry(ms: seq<Member>)
    requires ms != []
    ensures Carries(MembersPieces(ms), MembersText(ms), FieldsNumLits(MembersMeaning(ms)))
    decreases ms, 3
  {
    hide *;
    MemberCarries(ms[0]);
    MembersUnfold(ms);
    var l := NumLits(MemberMeaning(ms[0]).val);
    if |ms| == 1 {
      CarriesPlain([CLOSE_OBJECT]);
      CarriesBoth(MemberPieces(ms[0]), [Plain([CLOSE_OBJECT])], MemberText(ms[0]), [CLOSE_OBJECT], l, []);
    } else {
      var rest, t, m := MembersPieces(ms[1..]), MembersText(ms[1..]), FieldsNumLits(MembersMeaning(ms[1..]));
      MembersCarry(ms[1..]);
      CarriesBefore([COMMA], rest, t, m);
      CarriesBoth(MemberPieces(ms[0]), [Plain([COMMA])] + rest, MemberText(ms[0]), [COMMA] + t, l, m);
    }
  }

  lemma MembersUnfold(ms: seq<Member>)
    requires ms != []
    ensures |ms| == 1 ==> && MembersPieces(ms) == MemberPieces(ms[0]) + [Plain([CLOSE_OBJECT])]
                          && MembersText(ms) == MemberText(ms[0]) + [CLOSE_OBJECT]
                          && FieldsNumLits(MembersMeaning(ms)) == NumLits(MemberMeaning(ms[0]).val) + []
    ensures |ms| > 1 ==> && MembersPieces(ms) == MemberPieces(ms[0]) + ([Plain([COMMA])] + MembersPieces(ms[1..]))
                         && MembersText(ms) == MemberText(ms[0]) + ([COMMA] + MembersText(ms[1..]))
                         && FieldsNumLits(MembersMeaning(ms)) ==
                            NumLits(MemberMeaning(ms[0]).val) + FieldsNumLits(MembersMeaning(ms[1..]))
  {
    hide MemberPieces, MemberText, MemberMeaning, NumLits;
    var js := MembersMeaning(ms);
    assert js[0] == MemberMeaning(ms[0]) && js[1..] == MembersMeaning(ms[1..]);
  }

  // ----- The scanner reports the oversized integers of the document -----

  predicate IsBig(piece: Piece) {
    piece.Numeral? && Oversized(piece.lit)
  }

  lemma PieceOffenders(ps: seq<Piece>)
    requires ps != []
    ensures Offenders(Numerals(ps)) == (if IsBig(ps[0]) then [PieceText(ps[0])] else []) + Offenders(Numerals(ps[1..]))
  {
    var rest := Numerals(ps[1..]);
    if ps[0].Numeral? {
      OffendersConcat([ps[0].lit], rest);
      OneOffender(ps[0].lit);
    } else {
      hide Offenders;
      assert [] + rest == rest && [] + Offenders(rest) == Offenders(rest);
    }
  }

  lemma OneOffender(lit: bytes)
    ensures Offenders([lit]) == if Oversized(lit) then [lit] else []
  {
    BigNumber(lit);
    assert Big(JNum(lit)) == Offenders([lit]);
  }

  lemma SpanLiteralsStep(ps: seq<Piece>, at: nat)
    requires ps != []
    ensures var rest := Literals(Spans(ps[1..], at + |PieceText(ps[0])|));
            Literals(Spans(ps, at)) == (if IsBig(ps[0]) then [PieceText(ps[0])] else []) + rest
  {
    var end := at + |PieceText(ps[0])|;
    var rest := Spans(ps[1..], end);
    SpansUnfold(ps, at);
    hide Spans, Oversized;
    if IsBig(ps[0]) {
      var sp := Span(at, end, ps[0].lit);
      assert ([sp] + rest)[1..] == rest;
    } else {
      assert [] + Literals(rest) == Literals(rest);
    }
  }

  lemma {:induction false} SpansAreOffenders(ps: seq<Piece>, at: nat)
    ensures Literals(Spans(ps, at)) == Offenders(Numerals(ps))
  {
    hide *;
    if ps == [] {
      NoSpans(at);
    } else {
      SpansAreOffenders(ps[1..], at + |PieceText(ps[0])|);
      SpanLiteralsStep(ps, at);
      PieceOffenders(ps);
    }
  }

  lemma NoSpans(at: nat)
    ensures Literals(Spans([], at)) == [] && Offenders(Numerals([])) == []
  {
  }

  lemma {:induction false} NumeralIn(ps: seq<Piece>, k: nat)
    requires k < |ps| && ps[k].Numeral?
    ensures ps[k].lit in Numerals(ps)
  {
    if k > 0 { NumeralIn(ps[1..], k - 1); }
  }

  lemma {:induction false} NumericLits(j: Json, lit: bytes)
    requires Numeric(j) && lit in NumLits(j)
    ensures IsNumber(lit)
    decreases j, 0
  {
    match j
    case JArr(items) => NumericItemLits(items, lit);
    case JObj(fields) => NumericFieldLits(fields, lit);
    case _ =>
  }

  lemma {:induction false} NumericItemLits(items: seq<Json>, lit: bytes)
    requires NumericItems(items) && lit in ItemsNumLits(items)
    ensures IsNumber(lit)
    decreases items, 1
  {
    if lit in NumLits(items[0]) { NumericLits(items[0], lit); } else { NumericItemLits(items[1..], lit); }
  }

  lemma {:induction false} NumericFieldLits(fields: seq<Field>, lit: bytes)
    requires NumericFields(fields) && lit in FieldsNumLits(fields)
    ensures IsNumber(lit)
    decreases fields, 1
  {
    if lit in NumLits(fields[0].val) { NumericLits(fields[0].val, lit); } else { NumericFieldLits(fields[1..], lit); }
  }

  lemma {:induction false} NumericMeaning(d: Doc)
    requires WellFormed(d)
    ensures Numeric(Meaning(d))
    decreases d, 0
  {
    match d
    case Arr(es, _) => NumericElems(es);
    case Obj(ms, _) => NumericMembers(ms);
    case _ =>
  }

  lemma {:induction false} NumericElems(es: seq<Elem>)
    requires ElemsWellFormed(es)
    ensures NumericItems(ElemsMeaning(es))
    decreases es, 2
  {
    if es != [] {
      NumericMeaning(es[0].val);
      NumericElems(es[1..]);
      hide Numeric, Meaning;
      assert ElemsMeaning(es)[1..] == ElemsMeaning(es[1..]);
    }
  }

  lemma {:induction false} NumericElem(e: Elem)
    requires ElemWellFormed(e)
    ensures Numeric(ElemMeaning(e))
    decreases e, 1
  {
    NumericMeaning(e.val);
  }

  lemma {:induction false} NumericMember(m: Member)
    requires MemberWellFormed(m)
    ensures Numeric(MemberMeaning(m).val)
    decreases m, 2
  {
    NumericElem(m.elem);
  }

  lemma {:induction false} NumericMembers(ms: seq<Member>)
    requires MembersWellFormed(ms)
    ensures NumericFields(MembersMeaning(ms))
    decreases ms, 3
  {
    if ms != [] {
      NumericMember(ms[0]);
      NumericMembers(ms[1..]);
      hide Numeric, Meaning;
      assert MembersMeaning(ms)[1..] == MembersMeaning(ms[1..]);
    }
  }

  // ----- Marking the syntax tree -----

  /** Oversized integers replaced by placeholder strings, numbered from `i`. */
  function Mark(p: bytes, d: Doc, i: nat): Doc
    decreases d, 0
  {
    match d
    case Num(lit) => if Oversized(lit) then Str(TokenText(p, i)) else d
    case Arr(es, gap) => Arr(MarkElems(p, es, i), gap)
    case Obj(ms, gap) => Obj(MarkMembers(p, ms, i), gap)
    case _ => d
  }

  function MarkElem(p: bytes, e: Elem, i: nat): Elem
    decreases e, 1
  {
    Elem(e.pre, Mark(p, e.val, i), e.post)
  }

  function MarkElems(p: bytes, es: seq<Elem>, i: nat): (r: seq<Elem>)
    ensures |r| == |es|
    decreases es, 2
  {
    if es == [] then [] else [MarkElem(p, es[0], i)] + MarkElems(p, es[1..], i + |Big(ElemMeaning(es[0]))|)
  }

  function MarkMember(p: bytes, m: Member, i: nat): Member
    decreases m, 2
  {
    Member(m.key, MarkElem(p, m.elem, i))
  }

  function MarkMembers(p: bytes, ms: seq<Member>, i: nat): (r: seq<Member>)
    ensures |r| == |ms|
    decreases ms, 3
  {
    if ms == [] then []
    else [MarkMember(p, ms[0], i)] + MarkMembers(p, ms[1..], i + |Big(ElemMeaning(ms[0].elem))|)
  }

  // ----- Splicing the text is marking the tree -----

  function StubPieces(p: bytes, ps: seq<Piece>, i: nat): bytes {
    if ps == [] then []
    else if ps[0].Numeral? && Oversized(ps[0].lit) then Token(p, i) + StubPieces(p, ps[1..], i + 1)
    else PieceText(ps[0]) + StubPieces(p, ps[1..], i)
  }

  lemma {:induction false} CutoutIsStub(p: bytes, data: bytes, ps: seq<Piece>, at: nat, i: nat, from: nat)
    requires from <= at <= |data| && data[at..] == PiecesText(ps)
    requires Located(data, Spans(ps, at), from)
    ensures Stub(p, Cutout(data, Spans(ps, at), i, from)) == data[from..at] + StubPieces(p, ps, i)
    decreases |ps|
  {
    hide *;
    if ps == [] {
      CutoutNothing(p, data, at, i, from);
    } else {
      var end := at + |PieceText(ps[0])|;
      PieceSpan(data, ps, at);
      SpansUnfold(ps, at);
      StubPiecesStep(p, ps, i);
      BigPiece(ps[0]);
      if IsBig(ps[0]) {
        SpansLocated(data, ps[1..], end, end);
        CutoutIsStub(p, data, ps[1..], end, i + 1, end);
        CutoutFirst(p, data, Span(at, end, ps[0].lit), Spans(ps[1..], end), i, from);
        EmptySlice(data, end, StubPieces(p, ps[1..], i + 1));
      } else {
        SpansLocated(data, ps[1..], end, from);
        CutoutIsStub(p, data, ps[1..], end, i, from);
        Shift(data, from, at, end, StubPieces(p, ps[1..], i));
      }
    }
  }

  lemma CutoutNothing(p: bytes, data: bytes, at: nat, i: nat, from: nat)
    requires from <= at <= |data| && data[at..] == PiecesText([]) && Located(data, Spans([], at), from)
    ensures Stub(p, Cutout(data, Spans([], at), i, from)) == data[from..at] + StubPieces(p, [], i)
  {
    assert data[from..] == data[from..at] + data[at..];
  }

  lemma EmptySlice(data: bytes, end: nat, rest: bytes)
    requires end <= |data|
    ensures data[end..end] + rest == rest
  {
  }

  lemma BigPiece(piece: Piece)
    ensures IsBig(piece) == (piece.Numeral? && Oversized(piece.lit))
    ensures piece.Numeral? ==> PieceText(piece) == piece.lit
  {
  }

  lemma Shift(data: bytes, from: nat, at: nat, end: nat, rest: bytes)
    requires from <= at <= end <= |data|
    ensures data[from..end] + rest == data[from..at] + (data[at..end] + rest)
  {
    assert data[from..end] == data[from..at] + data[at..end];
  }

  lemma CutoutFirst(p: bytes, data: bytes, sp: Span, rest: seq<Span>, i: nat, from: nat)
    requires Located(data, [sp] + rest, from) && Located(data, rest, sp.end)
    ensures Stub(p, Cutout(data, [sp] + rest, i, from)) ==
            data[from..sp.start] + (Token(p, i) + Stub(p, Cutout(data, rest, i + 1, sp.end)))
  {
    hide Token;
    assert ([sp] + rest)[1..] == rest;
  }

  /** The pieces with `n` oversized integers among them, spliced from `i` on. */
  predicate Splices(p: bytes, ps: seq<Piece>, i: nat, n: nat, text: bytes) {
    StubPieces(p, ps, i) == text && |Offenders(Numerals(ps))| == n
  }

  lemma StubPiecesStep(p: bytes, ps: seq<Piece>, i: nat)
    requires ps != []
    ensures StubPieces(p, ps, i) ==
            if IsBig(ps[0]) then Token(p, i) + StubPieces(p, ps[1..], i + 1)
            else PieceText(ps[0]) + StubPieces(p, ps[1..], i)
  {
  }

  lemma {:induction false} StubConcat(p: bytes, a: seq<Piece>, b: seq<Piece>, i: nat)
    ensures StubPieces(p, a + b, i) == StubPieces(p, a, i) + StubPieces(p, b, i + |Offenders(Numerals(a))|)
  {
    hide *;
    if a == [] {
      StubNothing(p, b, i);
    } else {
      AppendStep(a, b);
      StubPiecesStep(p, a + b, i);
      StubPiecesStep(p, a, i);
      CountStep(a);
      if IsBig(a[0]) {
        StubConcat(p, a[1..], b, i + 1);
        Associate(Token(p, i), StubPieces(p, a[1..], i + 1), StubPieces(p, b, i + |Offenders(Numerals(a))|));
      } else {
        StubConcat(p, a[1..], b, i);
        Associate(PieceText(a[0]), StubPieces(p, a[1..], i), StubPieces(p, b, i + |Offenders(Numerals(a))|));
      }
    }
  }

  lemma CountStep(a: seq<Piece>)
    requires a != []
    ensures |Offenders(Numerals(a))| == |Offenders(Numerals(a[1..]))| + if IsBig(a[0]) then 1 else 0
  {
    hide *;
    PieceOffenders(a);
  }

  lemma StubNothing(p: bytes, b: seq<Piece>, i: nat)
    ensures StubPieces(p, [] + b, i) == StubPieces(p, [], i) + StubPieces(p, b, i + |Offenders(Numerals([]))|)
  {
    hide *;
    NothingStubbed(p, i);
    AppendStep([], b);
    Associate([], [], StubPieces(p, b, i));
  }

  lemma NothingStubbed(p: bytes, i: nat)
    ensures StubPieces(p, [], i) == [] && Offenders(Numerals([])) == []
  {
  }

  lemma SplicesBoth(p: bytes, a: seq<Piece>, b: seq<Piece>, i: nat, m: nat, n: nat, t: bytes, u: bytes)
    requires Splices(p, a, i, m, t) && Splices(p, b, i + m, n, u)
    ensures Splices(p, a + b, i, m + n, t + u)
  {
    hide StubPieces, Numerals, Offenders;
    StubConcat(p, a, b, i);
    NumeralsConcat(a, b);
    OffendersConcat(Numerals(a), Numerals(b));
  }

  lemma SplicesPlain(p: bytes, t: bytes, i: nat)
    ensures Splices(p, [Plain(t)], i, 0, t)
  {
    assert [Plain(t)][1..] == [] && Numerals([]) == [] && StubPieces(p, [], i) == [];
    assert t + [] == t;
  }

  lemma SplicesBefore(p: bytes, pre: bytes, ps: seq<Piece>, i: nat, n: nat, t: bytes)
    requires Splices(p, ps, i, n, t)
    ensures Splices(p, [Plain(pre)] + ps, i, n, pre + t)
  {
    hide Splices;
    SplicesPlain(p, pre, i);
    SplicesBoth(p, [Plain(pre)], ps, i, 0, n, pre, t);
  }

  lemma SplicesNumeral(p: bytes, lit: bytes, i: nat)
    ensures Splices(p, [Numeral(lit)], i, |Big(JNum(lit))|, Text(Mark(p, Num(lit), i)))
  {
    hide Oversized;
    BigNumber(lit);
    assert Big(JNum(lit)) == Offenders([lit]);
    var ps := [Numeral(lit)];
    assert ps[1..] == [] && Numerals([]) == [] && Numerals(ps) == [lit];
    assert StubPieces(p, [], i) == [] == StubPieces(p, [], i + 1);
    TokenIsQuoted(p, i);
    assert lit + [] == lit;
  }

  lemma TokenIsQuoted(p: bytes, i: nat)
    ensures Token(p, i) == [QUOTE] + TokenText(p, i) + [QUOTE] && Token(p, i) + [] == Token(p, i)
  {
  }

  lemma {:induction false} DocSplices(p: bytes, d: Doc, i: nat)
    ensures Splices(p, DocPieces(d), i, |Big(Meaning(d))|, Text(Mark(p, d, i)))
    decreases d, 0
  {
    hide *;
    if d.Num? {
      SplicesNumeral(p, d.lit, i);
      NumeralPieces(d);
    } else if d.Arr? {
      if d.elems == [] {
        EmptyArraySplices(p, d.gap, i);
      } else {
        ElemsSplice(p, d.elems, i);
        ArraySplices(p, d.elems, d.gap, i);
      }
    } else if d.Obj? {
      if d.members == [] {
        EmptyObjectSplices(p, d.gap, i);
      } else {
        MembersSplice(p, d.members, i);
        ObjectSplices(p, d.members, d.gap, i);
      }
    } else {
      ScalarSplices(p, d, i);
    }
  }

  lemma NumeralPieces(d: Doc)
    requires d.Num?
    ensures DocPieces(d) == [Numeral(d.lit)] && Meaning(d) == JNum(d.lit) && d == Num(d.lit)
  {
  }

  lemma ScalarSplices(p: bytes, d: Doc, i: nat)
    requires !d.Num? && !d.Arr? && !d.Obj?
    ensures Splices(p, DocPieces(d), i, |Big(Meaning(d))|, Text(Mark(p, d, i)))
  {
    hide Splices, Text;
    SplicesPlain(p, Text(d), i);
    assert NumLits(Meaning(d)) == [] && Offenders([]) == [];
  }

  lemma EmptyArraySplices(p: bytes, gap: bytes, i: nat)
    ensures var d := Arr([], gap); Splices(p, DocPieces(d), i, |Big(Meaning(d))|, Text(Mark(p, d, i)))
  {
    hide Splices, Offenders;
    SplicesPlain(p, gap + [CLOSE_ARRAY], i);
    SplicesBefore(p, [OPEN_ARRAY], [Plain(gap + [CLOSE_ARRAY])], i, 0, gap + [CLOSE_ARRAY]);
    NoBigItems();
    var d := Arr([], gap);
    assert Big(Meaning(d)) == [];
    assert Text(Mark(p, d, i)) == [OPEN_ARRAY] + (gap + [CLOSE_ARRAY]);
  }

  lemma EmptyObjectSplices(p: bytes, gap: bytes, i: nat)
    ensures var d := Obj([], gap); Splices(p, DocPieces(d), i, |Big(Meaning(d))|, Text(Mark(p, d, i)))
  {
    hide Splices, Offenders;
    SplicesPlain(p, gap + [CLOSE_OBJECT], i);
    SplicesBefore(p, [OPEN_OBJECT], [Plain(gap + [CLOSE_OBJECT])], i, 0, gap + [CLOSE_OBJECT]);
    NoBigItems();
    var d := Obj([], gap);
    assert Big(Meaning(d)) == [];
    assert Text(Mark(p, d, i)) == [OPEN_OBJECT] + (gap + [CLOSE_OBJECT]);
  }

  lemma ArraySplices(p: bytes, es: seq<Elem>, gap: bytes, i: nat)
    requires es != [] && Splices(p, ElemsPieces(es), i, |BigItems(ElemsMeaning(es))|, ElemsText(MarkElems(p, es, i)))
    ensures var d := Arr(es, gap); Splices(p, DocPieces(d), i, |Big(Meaning(d))|, Text(Mark(p, d, i)))
  {
    hide *;
    SplicesBefore(p, [OPEN_ARRAY], ElemsPieces(es), i, |BigItems(ElemsMeaning(es))|, ElemsText(MarkElems(p, es, i)));
    ArrayLayout(p, es, gap, i);
  }

  lemma ArrayLayout(p: bytes, es: seq<Elem>, gap: bytes, i: nat)
    requires es != []
    ensures var d := Arr(es, gap);
            && DocPieces(d) == [Plain([OPEN_ARRAY])] + ElemsPieces(es)
            && Big(Meaning(d)) == BigItems(ElemsMeaning(es))
            && Text(Mark(p, d, i)) == [OPEN_ARRAY] + ElemsText(MarkElems(p, es, i))
  {
    hide ElemsPieces, ElemsMeaning, ElemsText, Offenders, ItemsNumLits;
    assert |MarkElems(p, es, i)| > 0;
  }

  lemma ObjectSplices(p: bytes, ms: seq<Member>, gap: bytes, i: nat)
    requires ms != []
    requires Splices(p, MembersPieces(ms), i, |BigFields(MembersMeaning(ms))|, MembersText(MarkMembers(p, ms, i)))
    ensures var d := Obj(ms, gap); Splices(p, DocPieces(d), i, |Big(Meaning(d))|, Text(Mark(p, d, i)))
  {
    hide *;
    SplicesBefore(p, [OPEN_OBJECT], MembersPieces(ms), i, |BigFields(MembersMeaning(ms))|,
                  MembersText(MarkMembers(p, ms, i)));
    ObjectLayout(p, ms, gap, i);
  }

  lemma ObjectLayout(p: bytes, ms: seq<Member>, gap: bytes, i: nat)
    requires ms != []
    ensures var d := Obj(ms, gap);
            && DocPieces(d) == [Plain([OPEN_OBJECT])] + MembersPieces(ms)
            && Big(Meaning(d)) == BigFields(MembersMeaning(ms))
            && Text(Mark(p, d, i)) == [OPEN_OBJECT] + MembersText(MarkMembers(p, ms, i))
  {
    hide MembersPieces, MembersMeaning, MembersText, Offenders, FieldsNumLits;
    assert |MarkMembers(p, ms, i)| > 0;
  }

  lemma {:induction false} ElemSplices(p: bytes, e: Elem, i: nat)
    ensures Splices(p, ElemPieces(e), i, |Big(ElemMeaning(e))|, ElemText(MarkElem(p, e, i)))
    decreases e, 1
  {
    hide Splices, Text, Meaning, Big, Mark;
    DocSplices(p, e.val, i);
    var n, t := |Big(Meaning(e.val))|, Text(Mark(p, e.val, i));
    SplicesBefore(p, e.pre, DocPieces(e.val), i, n, t);
    SplicesPlain(p, e.post, i + n);
    SplicesBoth(p, [Plain(e.pre)] + DocPieces(e.val), [Plain(e.post)], i, n, 0, e.pre + t, e.post);
  }

  lemma {:induction false} ElemsSplice(p: bytes, es: seq<Elem>, i: nat)
    requires es != []
    ensures Splices(p, ElemsPieces(es), i, |BigItems(ElemsMeaning(es))|, ElemsText(MarkElems(p, es, i)))
    decreases es, 2
  {
    hide *;
    ElemSplices(p, es[0], i);
    ElemsUnfold(es);
    MarkElemsUnfold(p, es, i);
    var m, t := |Big(ElemMeaning(es[0]))|, ElemText(MarkElem(p, es[0], i));
    if |es| == 1 {
      SplicesPlain(p, [CLOSE_ARRAY], i + m);
      SplicesBoth(p, ElemPieces(es[0]), [Plain([CLOSE_ARRAY])], i, m, 0, t, [CLOSE_ARRAY]);
    } else {
      var rest, n, u := ElemsPieces(es[1..]), |BigItems(ElemsMeaning(es[1..]))|,
        ElemsText(MarkElems(p, es[1..], i + m));
      ElemsSplice(p, es[1..], i + m);
      SplicesBefore(p, [COMMA], rest, i + m, n, u);
      SplicesBoth(p, ElemPieces(es[0]), [Plain([COMMA])] + rest, i, m, n, t, [COMMA] + u);
    }
  }

  lemma MarkElemsUnfold(p: bytes, es: seq<Elem>, i: nat)
    requires es != []
    ensures var m := |Big(ElemMeaning(es[0]))|;
            && (|es| == 1 ==> && ElemsText(MarkElems(p, es, i)) == ElemText(MarkElem(p, es[0], i)) + [CLOSE_ARRAY]
                              && |BigItems(ElemsMeaning(es))| == m)
            && (|es| > 1 ==> && ElemsText(MarkElems(p, es, i)) ==
                                ElemText(MarkElem(p, es[0], i)) + ([COMMA] + ElemsText(MarkElems(p, es[1..], i + m)))
                             && |BigItems(ElemsMeaning(es))| == m + |BigItems(ElemsMeaning(es[1..]))|)
  {
    hide ElemText, MarkElem, ElemMeaning, Big, BigItems;
    var js, m := ElemsMeaning(es), |Big(ElemMeaning(es[0]))|;
    BigItemsStep(js);
    assert js[0] == ElemMeaning(es[0]) && js[1..] == ElemsMeaning(es[1..]);
    assert MarkElems(p, es, i)[1..] == MarkElems(p, es[1..], i + m);
    NoBigItems();
  }

  lemma NoBigItems()
    ensures BigItems([]) == [] && BigFields([]) == []
  {
  }

  lemma {:induction false} MemberSplices(p: bytes, m: Member, i: nat)
    ensures Splices(p, MemberPieces(m), i, |Big(ElemMeaning(m.elem))|, MemberText(MarkMember(p, m, i)))
    decreases m, 2
  {
    hide Splices, ElemText, ElemMeaning, Big, MarkElem, KeyText;
    ElemSplices(p, m.elem, i);
    SplicesBefore(p, KeyText(m.key), ElemPieces(m.elem), i, |Big(ElemMeaning(m.elem))|,
                  ElemText(MarkElem(p, m.elem, i)));
  }

  lemma {:induction false} MembersSplice(p: bytes, ms: seq<Member>, i: nat)
    requires ms != []
    ensures Splices(p, MembersPieces(ms), i, |BigFields(MembersMeaning(ms))|, MembersText(MarkMembers(p, ms, i)))
    decreases ms, 3
  {
    hide *;
    MemberSplices(p, ms[0], i);
    MembersUnfold(ms);
    MarkMembersUnfold(p, ms, i);
    var m, t := |Big(ElemMeaning(ms[0].elem))|, MemberText(MarkMember(p, ms[0], i));
    if |ms| == 1 {
      SplicesPlain(p, [CLOSE_OBJECT], i + m);
      SplicesBoth(p, MemberPieces(ms[0]), [Plain([CLOSE_OBJECT])], i, m, 0, t, [CLOSE_OBJECT]);
    } else {
      var rest, n, u := MembersPieces(ms[1..]), |BigFields(MembersMeaning(ms[1..]))|,
        MembersText(MarkMembers(p, ms[1..], i + m));
      MembersSplice(p, ms[1..], i + m);
      SplicesBefore(p, [COMMA], rest, i + m, n, u);
      SplicesBoth(p, MemberPieces(ms[0]), [Plain([COMMA])] + rest, i, m, n, t, [COMMA] + u);
    }
  }

  lemma MarkMembersUnfold(p: bytes, ms: seq<Member>, i: nat)
    requires ms != []
    ensures var m := |Big(ElemMeaning(ms[0].elem))|;
            && (|ms| == 1 ==> && MembersText(MarkMembers(p, ms, i))
                                 == MemberText(MarkMember(p, ms[0], i)) + [CLOSE_OBJECT]
                              && |BigFields(MembersMeaning(ms))| == m)
            && (|ms| > 1 ==> && MembersText(MarkMembers(p, ms, i)) ==
                                MemberText(MarkMember(p, ms[0], i))
                                + ([COMMA] + MembersText(MarkMembers(p, ms[1..], i + m)))
                             && |BigFields(MembersMeaning(ms))| == m + |BigFields(MembersMeaning(ms[1..]))|)
  {
    hide MemberText, MarkMember, ElemMeaning, Big, BigFields, Decoded;
    var js, m := MembersMeaning(ms), |Big(ElemMeaning(ms[0].elem))|;
    BigFieldsStep(js);
    assert js[0] == MemberMeaning(ms[0]) && js[1..] == MembersMeaning(ms[1..]);
    assert MarkMembers(p, ms, i)[1..] == MarkMembers(p, ms[1..], i + m);
    NoBigItems();
  }
}
