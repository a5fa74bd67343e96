/**
 Canonicalization that keeps big integers: cut them out, canonicalize, put them back.
 The result is the canonical form of the original document with those integers
 exactly as written.
 */
module JcsCanonicalize {
  import opened Bytes
  import opened JsonText
  import opened JsonTree
  import opened JcsSplice
  import opened JcsScan
  import opened JcsCanon
  import opened JcsFlatten
  import opened JcsMentions
  import opened JcsMark
  import Numbers
  import Utf8

  // ----- Documents the library accepts -----

  /** A spelled string that decodes without loss: UTF-8, and no lone surrogate. */
  predicate IntactString(raw: bytes) {
    if raw == [] then true
    else if raw[0] == BACKSLASH then
      if StartsPair(raw) then IntactString(raw[12..])
      else if StartsUnit(raw) then Utf8.IsScalar(CodeUnit(raw)) && IntactString(raw[6..])
      else |raw| >= 2 && IntactString(raw[2..])
    else Utf8.CharLen(raw) > 0 && IntactString(raw[Utf8.CharLen(raw)..])
  }

  predicate Intact(d: Doc)
    decreases d, 0
  {
    match d
    case Str(raw) => IntactString(raw)
    case Arr(es, _) => IntactElems(es)
    case Obj(ms, _) => IntactMembers(ms)
    case _ => true
  }

  predicate IntactElem(e: Elem)
    decreases e, 1
  {
    Intact(e.val)
  }

  predicate IntactElems(es: seq<Elem>)
    decreases es, 2
  {
    es == [] || (IntactElem(es[0]) && IntactElems(es[1..]))
  }

  predicate IntactMember(m: Member)
    decreases m, 2
  {
    IntactString(m.key.raw) && IntactElem(m.elem)
  }

  predicate IntactMembers(ms: seq<Member>)
    decreases ms, 3
  {
    ms == [] || (IntactMember(ms[0]) && IntactMembers(ms[1..]))
  }

  /** The syntax tree of a text that is a single JSON document. */
  function Document(data: bytes): Option<Elem> {
    match ParseElem(data)
    case None => None
    case Some((e, rest)) => if rest == [] then Some(e) else None
  }

  /** The canonical form with numbers written by `f`, where the document has one. */
  function CanonicalForm(f: Format, e: Elem): Option<bytes> {
    if IntactElem(e) && Canonizable(f, ElemMeaning(e)) then Some(Print(Canon(f, ElemMeaning(e)))) else None
  }

  /** RFC 8785 canonicalization of a text. */
  function Transform(f: Format, data: bytes): Option<bytes> {
    match Document(data)
    case None => None
    case Some(e) => CanonicalForm(f, e)
  }

  // ----- Placeholders are plain text -----

  predicate PlainBytes(s: bytes) {
    forall i :: 0 <= i < |s| ==> IsAlphanumeric(s[i]) || s[i] == DASH
  }

  lemma {:induction false} PlainString(s: bytes)
    requires PlainBytes(s)
    ensures WellSpelled(s) && IntactString(s) && Decoded(s) == s && Escape(s) == s
  {
    if s != [] {
      assert s[0] < 0x80 && s[0] != BACKSLASH && s[0] != QUOTE && s[0] >= 0x20;
      assert EscapeByte(s[0]) == [s[0]] && SpellLen(s) == 1 && Utf8.CharLen(s) == 1;
      PlainString(s[1..]);
      assert s == [s[0]] + s[1..] && s[..1] == [s[0]];
    }
  }

  lemma TokenTextPlain(p: bytes, i: nat)
    requires IsPlaceholder(p)
    ensures PlainBytes(TokenText(p, i))
  {
    var d := Numbers.Digits(i);
    forall k | 0 <= k < |d| ensures IsAlphanumeric(d[k]) {
      assert IsDigit(d[k]);
    }
  }

  lemma TokenIsPrinted(p: bytes, i: nat)
    requires IsPlaceholder(p)
    ensures Token(p, i) == Print(Stubbed(p)(i))
  {
    TokenTextPlain(p, i);
    PlainString(TokenText(p, i));
  }

  // ----- Marking keeps everything but the numbers cut out -----

  ghost predicate Marks(p: bytes, d: Doc, m: Doc, i: nat) {
    && (Intact(m) <==> Intact(d))
    && (WellFormed(d) ==> WellFormed(m))
    && Meaning(m) == As(Stubbed(p), Labelled(Meaning(d), i))
  }

  lemma {:induction false} MarkMarks(p: bytes, d: Doc, i: nat)
    requires IsPlaceholder(p)
    ensures Marks(p, d, Mark(p, d, i), i)
    decreases d, 0
  {
    hide *;
    match d
    case Num(lit) => NumberMarks(p, lit, i);
    case Arr(es, gap) =>
      ElemsMark(p, es, i);
      ArrayMarks(p, es, gap, i);
    case Obj(ms, gap) =>
      MembersMark(p, ms, i);
      ObjectMarks(p, ms, gap, i);
    case _ => ScalarMarks(p, d, i);
  }

  lemma NumberMarks(p: bytes, lit: bytes, i: nat)
    requires IsPlaceholder(p)
    ensures Marks(p, Num(lit), Mark(p, Num(lit), i), i)
  {
    hide Oversized, IntactString, Decoded, WellSpelled, IsNumber, PlainBytes, TokenText;
    TokenTextPlain(p, i);
    PlainString(TokenText(p, i));
  }

  lemma ScalarMarks(p: bytes, d: Doc, i: nat)
    requires d.Null? || d.Bool? || d.Str?
    ensures Marks(p, d, Mark(p, d, i), i)
  {
  }

  lemma ArrayMarks(p: bytes, es: seq<Elem>, gap: bytes, i: nat)
    requires MarksElems(p, es, MarkElems(p, es, i), i)
    ensures Marks(p, Arr(es, gap), Mark(p, Arr(es, gap), i), i)
  {
    hide MarkElems, ElemsMeaning, ElemsWellFormed, IntactElems, LabelledItems, AsItems;
  }

  lemma ObjectMarks(p: bytes, ms: seq<Member>, gap: bytes, i: nat)
    requires MarksMembers(p, ms, MarkMembers(p, ms, i), i)
    ensures Marks(p, Obj(ms, gap), Mark(p, Obj(ms, gap), i), i)
  {
    hide MarkMembers, MembersMeaning, MembersWellFormed, IntactMembers, LabelledFields, AsFields;
  }

  ghost predicate MarksElem(p: bytes, e: Elem, m: Elem, i: nat) {
    && (IntactElem(m) <==> IntactElem(e))
    && (ElemWellFormed(e) ==> ElemWellFormed(m))
    && ElemMeaning(m) == As(Stubbed(p), Labelled(ElemMeaning(e), i))
  }

  lemma {:induction false} ElemMarks(p: bytes, e: Elem, i: nat)
    requires IsPlaceholder(p)
    ensures MarksElem(p, e, MarkElem(p, e, i), i)
    decreases e, 1
  {
    hide Intact, Meaning, WellFormed, Mark, Labelled, As, Stubbed;
    MarkMarks(p, e.val, i);
  }

  ghost predicate MarksElems(p: bytes, es: seq<Elem>, ms: seq<Elem>, i: nat) {
    && (IntactElems(ms) <==> IntactElems(es))
    && (ElemsWellFormed(es) ==> ElemsWellFormed(ms))
    && ElemsMeaning(ms) == AsItems(Stubbed(p), LabelledItems(ElemsMeaning(es), i))
  }

  lemma {:induction false} ElemsMark(p: bytes, es: seq<Elem>, i: nat)
    requires IsPlaceholder(p)
    ensures MarksElems(p, es, MarkElems(p, es, i), i)
    decreases es, 2
  {
    hide *;
    if es == [] {
      NothingMarked(p, i);
    } else {
      ElemMarks(p, es[0], i);
      ElemsMark(p, es[1..], i + |Big(ElemMeaning(es[0]))|);
      ElemsMarkStep(p, es, i);
    }
  }

  lemma NothingMarked(p: bytes, i: nat)
    ensures MarksElems(p, [], MarkElems(p, [], i), i) && MarksMembers(p, [], MarkMembers(p, [], i), i)
  {
  }

  lemma ElemsJoin(x: Elem, xs: seq<Elem>)
    ensures IntactElems([x] + xs) == (IntactElem(x) && IntactElems(xs))
    ensures ElemsWellFormed([x] + xs) == (ElemWellFormed(x) && ElemsWellFormed(xs))
    ensures ElemsMeaning([x] + xs) == [ElemMeaning(x)] + ElemsMeaning(xs)
  {
    hide IntactElem, ElemWellFormed, ElemMeaning;
    assert ([x] + xs)[1..] == xs;
  }

  lemma MarkElemsStep(p: bytes, es: seq<Elem>, i: nat)
    requires es != []
    ensures MarkElems(p, es, i) == [MarkElem(p, es[0], i)] + MarkElems(p, es[1..], i + |Big(ElemMeaning(es[0]))|)
    ensures es == [es[0]] + es[1..]
  {
    hide MarkElem, Big;
  }

  lemma {:induction false} ElemsMarkStep(p: bytes, es: seq<Elem>, i: nat)
    requires es != [] && MarksElem(p, es[0], MarkElem(p, es[0], i), i)
    requires var i' := i + |Big(ElemMeaning(es[0]))|; MarksElems(p, es[1..], MarkElems(p, es[1..], i'), i')
    ensures MarksElems(p, es, MarkElems(p, es, i), i)
  {
    hide MarkElem, ElemMeaning, IntactElem, ElemWellFormed, Labelled, As, Stubbed, Big,
         MarkElems, ElemsMeaning, IntactElems, ElemsWellFormed, LabelledItems, AsItems;
    var e, es' := es[0], es[1..];
    var i' := i + |Big(ElemMeaning(e))|;
    MarkElemsStep(p, es, i);
    ElemsJoin(e, es');
    ElemsJoin(MarkElem(p, e, i), MarkElems(p, es', i'));
    LabelledItemsJoin(ElemMeaning(e), ElemsMeaning(es'), i);
    ItemsCons(lit => None, Stubbed(p), Labelled(ElemMeaning(e), i), LabelledItems(ElemsMeaning(es'), i'));
  }

  lemma LabelledItemsJoin(x: Json, xs: seq<Json>, i: nat)
    ensures LabelledItems([x] + xs, i) == [Labelled(x, i)] + LabelledItems(xs, i + |Big(x)|)
  {
    hide Labelled, Big;
    assert ([x] + xs)[1..] == xs;
  }

  lemma LabelledFieldsJoin(x: Field, xs: seq<Field>, i: nat)
    ensures LabelledFields([x] + xs, i) == [NField(x.name, Labelled(x.val, i))] + LabelledFields(xs, i + |Big(x.val)|)
  {
    hide Labelled, Big;
    assert ([x] + xs)[1..] == xs;
  }

  ghost predicate MarksMember(p: bytes, m: Member, n: Member, i: nat) {
    && (IntactMember(n) <==> IntactMember(m))
    && (MemberWellFormed(m) ==> MemberWellFormed(n))
    && MemberMeaning(n) == Field(MemberMeaning(m).name, As(Stubbed(p), Labelled(MemberMeaning(m).val, i)))
  }

  lemma {:induction false} MemberMarks(p: bytes, m: Member, i: nat)
    requires IsPlaceholder(p)
    ensures MarksMember(p, m, MarkMember(p, m, i), i)
    decreases m, 2
  {
    hide IntactElem, ElemMeaning, ElemWellFormed, MarkElem, Labelled, As, Stubbed, IntactString, KeyWellFormed, Decoded;
    ElemMarks(p, m.elem, i);
  }

  ghost predicate MarksMembers(p: bytes, ms: seq<Member>, ns: seq<Member>, i: nat) {
    && (IntactMembers(ns) <==> IntactMembers(ms))
    && (MembersWellFormed(ms) ==> MembersWellFormed(ns))
    && MembersMeaning(ns) == AsFields(Stubbed(p), LabelledFields(MembersMeaning(ms), i))
  }

  lemma {:induction false} MembersMark(p: bytes, ms: seq<Member>, i: nat)
    requires IsPlaceholder(p)
    ensures MarksMembers(p, ms, MarkMembers(p, ms, i), i)
    decreases ms, 3
  {
    hide *;
    if ms == [] {
      NothingMarked(p, i);
    } else {
      MemberMarks(p, ms[0], i);
      MembersMark(p, ms[1..], i + |Big(ElemMeaning(ms[0].elem))|);
      MembersMarkStep(p, ms, i);
    }
  }

  lemma MembersJoin(x: Member, xs: seq<Member>)
    ensures IntactMembers([x] + xs) == (IntactMember(x) && IntactMembers(xs))
    ensures MembersWellFormed([x] + xs) == (MemberWellFormed(x) && MembersWellFormed(xs))
    ensures MembersMeaning([x] + xs) == [MemberMeaning(x)] + MembersMeaning(xs)
  {
    hide IntactMember, MemberWellFormed, MemberMeaning;
    assert ([x] + xs)[1..] == xs;
  }

  lemma MarkMembersStep(p: bytes, ms: seq<Member>, i: nat)
    requires ms != []
    ensures MarkMembers(p, ms, i) ==
            [MarkMember(p, ms[0], i)] + MarkMembers(p, ms[1..], i + |Big(MemberMeaning(ms[0]).val)|)
    ensures ms == [ms[0]] + ms[1..] && ElemMeaning(ms[0].elem) == MemberMeaning(ms[0]).val
  {
    hide MarkMember, Big, Decoded;
  }

  lemma {:induction false} MembersMarkStep(p: bytes, ms: seq<Member>, i: nat)
    requires ms != [] && MarksMember(p, ms[0], MarkMember(p, ms[0], i), i)
    requires var i' := i + |Big(ElemMeaning(ms[0].elem))|; MarksMembers(p, ms[1..], MarkMembers(p, ms[1..], i'), i')
    ensures MarksMembers(p, ms, MarkMembers(p, ms, i), i)
  {
    hide MarkMember, ElemMeaning, MemberMeaning, IntactMember, MemberWellFormed, Labelled, As, Stubbed, Big,
         MarkMembers, MembersMeaning, IntactMembers, MembersWellFormed, LabelledFields, AsFields;
    var m, ms' := ms[0], ms[1..];
    MarkMembersStep(p, ms, i);
    var f := MemberMeaning(m);
    var i' := i + |Big(f.val)|;
    MembersJoin(m, ms');
    MembersJoin(MarkMember(p, m, i), MarkMembers(p, ms', i'));
    LabelledFieldsJoin(f, MembersMeaning(ms'), i);
    FieldsCons(lit => None, Stubbed(p), NField(f.name, Labelled(f.val, i)), LabelledFields(MembersMeaning(ms'), i'));
  }

  // ----- The spliced document -----

  lemma DocumentText(data: bytes)
    requires Document(data).Some?
    ensures ElemWellFormed(Document(data).value) && data == ElemText(Document(data).value)
  {
    hide ElemText, ParseElem;
    ElemTextExact(data);
    var e := Document(data).value;
    assert ElemText(e) + [] == ElemText(e);
  }

  lemma TextDocument(e: Elem)
    requires ElemWellFormed(e)
    ensures Document(ElemText(e)) == Some(e)
  {
    hide ElemText, ParseElem;
    ParseElemExact(e, []);
    assert ElemText(e) + [] == ElemText(e);
  }

  /** What the scanner is given and what it finds. */
  lemma Scanned(data: bytes, e: Elem)
    requires Document(data) == Some(e)
    ensures var ps, j := ElemPieces(e), ElemMeaning(e);
            && PiecesText(ps) == data && Numeric(j)
            && (forall k :: 0 <= k < |ps| && ps[k].Numeral? ==> IsNumber(ps[k].lit))
            && Located(data, Spans(ps, 0), 0) && Literals(Spans(ps, 0)) == Big(j)
  {
    hide *;
    var ps, j := ElemPieces(e), ElemMeaning(e);
    DocumentText(data);
    ElemCarries(e);
    CarriesMeans(ps, data, NumLits(j));
    NumericElem(e);
    forall k | 0 <= k < |ps| && ps[k].Numeral? ensures IsNumber(ps[k].lit) {
      NumeralIn(ps, k);
      NumericLits(j, ps[k].lit);
    }
    assert data[0..] == data;
    SpansLocated(data, ps, 0, 0);
    SpansAreOffenders(ps, 0);
    BigMeans(j);
  }

  lemma CarriesMeans(ps: seq<Piece>, text: bytes, lits: seq<bytes>)
    requires Carries(ps, text, lits)
    ensures PiecesText(ps) == text && Numerals(ps) == lits
  {
  }

  lemma BigMeans(j: Json)
    ensures Big(j) == Offenders(NumLits(j))
  {
  }

  /** Splicing writes the document with its big integers marked. */
  lemma SplicedDocument(p: bytes, data: bytes, e: Elem)
    requires IsPlaceholder(p) && Document(data) == Some(e)
    requires Located(data, Spans(ElemPieces(e), 0), 0)
    ensures Document(Stub(p, Cutout(data, Spans(ElemPieces(e), 0), 0, 0))) == Some(MarkElem(p, e, 0))
    ensures MarksElem(p, e, MarkElem(p, e, 0), 0)
  {
    hide *;
    var ps := ElemPieces(e);
    Scanned(data, e);
    assert data[0..] == data && data[0..0] == [];
    CutoutIsStub(p, data, ps, 0, 0, 0);
    ElemSplices(p, e, 0);
    SplicesMeans(p, ps, 0, |Big(ElemMeaning(e))|, ElemText(MarkElem(p, e, 0)));
    assert [] + StubPieces(p, ps, 0) == StubPieces(p, ps, 0);
    ElemMarks(p, e, 0);
    DocumentText(data);
    MarksWellFormed(p, e, MarkElem(p, e, 0), 0);
    TextDocument(MarkElem(p, e, 0));
  }

  lemma SplicesMeans(p: bytes, ps: seq<Piece>, i: nat, n: nat, text: bytes)
    requires Splices(p, ps, i, n, text)
    ensures StubPieces(p, ps, i) == text
  {
  }

  lemma MarksWellFormed(p: bytes, e: Elem, m: Elem, i: nat)
    requires MarksElem(p, e, m, i) && ElemWellFormed(e)
    ensures ElemWellFormed(m)
  {
  }

  // ----- The canonicalized document -----

  /** The canonical form, cut at its big integers. */
  function CanonCut(f: Format, j: Json): Spliced {
    Flatten(CanonTree(f, Labelled(j, 0)), End([]))
  }

  lemma {:induction false} StubIsRender(p: bytes, x: Spliced)
    requires IsPlaceholder(p)
    ensures Stub(p, x) == Render(Printed(Stubbed(p)), x)
  {
    if x.Cut? {
      TokenIsPrinted(p, x.hole);
      hide Token, Stubbed;
      StubIsRender(p, x.rest);
    }
  }

  lemma {:induction false} FillIsRender(lits: seq<bytes>, x: Spliced)
    ensures Fill(lits, x) == Render(Printed(Literal(lits)), x)
  {
    if x.Cut? { FillIsRender(lits, x.rest); }
  }

  /** Canonicalizing the spliced document moves the tokens about in the canonical form
      of the original. */
  lemma CanonicalizedStub(f: Format, p: bytes, j: Json)
    requires IsPlaceholder(p)
    ensures Print(Canon(f, As(Stubbed(p), Labelled(j, 0)))) == Stub(p, CanonCut(f, j))
  {
    hide *;
    var t := Labelled(j, 0);
    StubsInert(f, p, |Big(j)|);
    CanonAs(f, f, Stubbed(p), j, 0);
    FlattenPrints(Stubbed(p), CanonTree(f, t), End([]));
    StubIsRender(p, CanonCut(f, j));
    EndRender(f, j, Printed(Stubbed(p)));
    assert Print(As(Stubbed(p), CanonTree(f, t))) + [] == Print(As(Stubbed(p), CanonTree(f, t)));
  }

  lemma EndRender(f: Format, j: Json, r: nat -> bytes)
    ensures Render(r, End([])) == [] && CanonCut(f, j) == Flatten(CanonTree(f, Labelled(j, 0)), End([]))
  {
  }

  lemma StubsInert(f: Format, p: bytes, n: nat)
    ensures AgreeBelow(f, f) && Inert(f, Stubbed(p), 0, n)
  {
  }

  /** Filling that in gives the canonical form with the big integers as written. */
  lemma CanonicalizedFill(f: Format, j: Json)
    ensures Print(Canon(Exact(f), j)) == Fill(Big(j), CanonCut(f, j))
  {
    hide *;
    var t, lits := Labelled(j, 0), Big(j);
    LiteralsInert(f, j);
    CanonAs(Exact(f), f, Literal(lits), j, 0);
    HoldsAll(lits);
    LabelledBack(lits, j, 0);
    FlattenPrints(Literal(lits), CanonTree(f, t), End([]));
    FillIsRender(lits, CanonCut(f, j));
    EndRender(f, j, Printed(Literal(lits)));
    assert Print(Canon(Exact(f), j)) + [] == Print(Canon(Exact(f), j));
  }

  lemma HoldsAll(lits: seq<bytes>)
    ensures Holds(lits, 0, lits)
  {
    assert lits[0..0 + |lits|] == lits;
  }

  lemma LiteralsInert(f: Format, j: Json)
    ensures AgreeBelow(Exact(f), f) && Inert(Exact(f), Literal(Big(j)), 0, |Big(j)|)
  {
    hide Oversized, NumLits, Big;
    BigMeans(j);
    forall k: nat | 0 <= k < |Big(j)| ensures Canon(Exact(f), Literal(Big(j))(k)) == Literal(Big(j))(k) {
      assert Oversized(Big(j)[k]);
    }
  }

  /** Where the placeholder occurs in the canonical form: in a string that decodes to it. */
  lemma FormOccurs(f: Format, p: bytes, j: Json)
    requires IsPlaceholder(p) && WritesNumbers(f) && Numeric(j)
    ensures Occurs(p, Print(Canon(Exact(f), j))) <==> Mentions(p, j)
  {
    hide *;
    ExactWritesNumbers(f);
    CanonMentions(p, Exact(f), j);
    PrintOccurs(p, Canon(Exact(f), j));
  }

  lemma ExactWritesNumbers(f: Format)
    requires WritesNumbers(f)
    ensures WritesNumbers(Exact(f))
  {
    hide IsNumber, Oversized;
  }

  // ----- The theorem -----

  /** What comes out of canonicalizing and restoring the spliced document: the canonical
      form with every big integer as written, unless there is none, or a string of the
      document contains the placeholder; then it is refused. */
  lemma RestoredForm(f: Format, p: bytes, data: bytes, e: Elem)
    requires IsPlaceholder(p) && WritesNumbers(f) && Document(data) == Some(e)
    requires Located(data, Spans(ElemPieces(e), 0), 0)
    ensures var form := CanonicalForm(Exact(f), e);
            var out := Transform(f, Stub(p, Cutout(data, Spans(ElemPieces(e), 0), 0, 0)));
            && (out.None? <==> form.None?)
            && (out.Some? ==> var back := Restored(p, Big(ElemMeaning(e)), out.value);
                              if Mentions(p, ElemMeaning(e)) then back.Err? else back == Ok(form.value))
  {
    hide *;
    var j := ElemMeaning(e);
    Scanned(data, e);
    SplicedDocument(p, data, e);
    StubCanonizable(f, p, j, 0);
    MarkedForm(f, p, data, e);
    if CanonicalForm(Exact(f), e).Some? {
      CanonicalizedStub(f, p, j);
      CanonicalizedFill(f, j);
      EveryHoleOnce(f, j);
      EndRender(f, j, i => []);
      RestoreExact(p, Big(j), CanonCut(f, j));
      FormOccurs(f, p, j);
    }
  }

  lemma MarkedForm(f: Format, p: bytes, data: bytes, e: Elem)
    requires Located(data, Spans(ElemPieces(e), 0), 0)
    requires Document(Stub(p, Cutout(data, Spans(ElemPieces(e), 0), 0, 0))) == Some(MarkElem(p, e, 0))
    requires MarksElem(p, e, MarkElem(p, e, 0), 0)
    requires Canonizable(f, As(Stubbed(p), Labelled(ElemMeaning(e), 0))) <==> Canonizable(Exact(f), ElemMeaning(e))
    ensures var form := CanonicalForm(Exact(f), e);
            var out := Transform(f, Stub(p, Cutout(data, Spans(ElemPieces(e), 0), 0, 0)));
            && (out.None? <==> form.None?)
            && (out.Some? ==> && out.value == Print(Canon(f, As(Stubbed(p), Labelled(ElemMeaning(e), 0))))
                              && form.value == Print(Canon(Exact(f), ElemMeaning(e))))
  {
    hide Document, Stub, Cutout, MarkElem, IntactElem, ElemMeaning, Canonizable, Canon, Print, Exact, As, Labelled,
      Stubbed, ElemWellFormed;
  }

  /** Without big integers the library's own result is the canonical form. */
  lemma PlainForm(f: Format, e: Elem)
    requires Big(ElemMeaning(e)) == []
    ensures CanonicalForm(f, e) == CanonicalForm(Exact(f), e)
  {
    hide *;
    NothingBig(f, ElemMeaning(e));
    FormMeans(f, e);
    FormMeans(Exact(f), e);
  }

  lemma FormMeans(f: Format, e: Elem)
    ensures CanonicalForm(f, e) ==
            if IntactElem(e) && Canonizable(f, ElemMeaning(e)) then Some(Print(Canon(f, ElemMeaning(e)))) else None
  {
  }

  // ----- The operation -----

  datatype Canonical = Canonical(text: bytes, oversized: seq<bytes>)

  datatype CanonError = NotJson | Refused | Unrestored(e: RestoreError)

  method Canonicalize(f: Format, p: bytes, data: bytes) returns (res: Result<Canonical, CanonError>)
    requires IsPlaceholder(p) && WritesNumbers(f)
    ensures Document(data).None? ==> res == Err(NotJson)
    ensures Document(data).Some? ==>
              var e := Document(data).value;
              var form, j := CanonicalForm(Exact(f), e), ElemMeaning(e);
              if form.None? || (Big(j) != [] && Mentions(p, j)) then res.Err?
              else && res.Ok? && res.value.text == form.value
                   && multiset(res.value.oversized) == multiset(Big(j))
                   && var o := res.value.oversized;
                      forall i, k :: 0 <= i < k < |o| ==> Value(o[i]) <= Value(o[k])
  {
    hide *;
    var doc := Document(data);
    if doc.None? {
      return Err(NotJson);
    }
    ghost var e := doc.value;
    Scanned(data, e);
    var spans := ScanIntegers(data, ElemPieces(doc.value));
    LiteralsCount(spans);
    if |spans| == 0 {
      PlainForm(f, e);
      TransformMeans(f, data);
      var canonical := Transform(f, data);
      return if canonical.None? then Err(Refused) else Ok(Canonical(canonical.value, []));
    }
    RestoredForm(f, p, data, e);
    var spliced := Splice(data, spans, p);
    var transformed := Transform(f, spliced);
    if transformed.None? {
      return Err(Refused);
    }
    var canonical := Restore(transformed.value, p, Literals(spans));
    if canonical.Err? {
      return Err(Unrestored(canonical.error));
    }
    var oversized := LiteralsAscending(spans);
    return Ok(Canonical(canonical.value, oversized));
  }

  lemma LiteralsCount(spans: seq<Span>)
    ensures |Literals(spans)| == |spans|
    ensures spans == [] ==> Literals(spans) == []
  {
  }

  lemma TransformMeans(f: Format, data: bytes)
    requires Document(data).Some?
    ensures Transform(f, data) == CanonicalForm(f, Document(data).value)
  {
  }
}
