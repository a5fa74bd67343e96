/**
 The order of members in canonical output (RFC 8785 section 3.2.3), at every depth of
 the document: ascending by the UTF-16 code units of their names.
 */
module JcsOrder {
  import opened Bytes
  import opened JsonText
  import opened JsonTree
  import opened JcsCanon
  import opened JcsMentions
  import opened JcsCanonicalize
  import opened JcsMeaning
  import opened StandardText
  import JsonPrint
  import Ordering
  import Utf8

  // ----- UTF-16 -----

  predicate IsPair(us: seq<int>) {
    |us| >= 2 && 0xD800 <= us[0] <= 0xDBFF && 0xDC00 <= us[1] <= 0xDFFF
  }

  /** The characters that code units stand for: a surrogate pair is one character. */
  function FromUnits(us: seq<int>): seq<int> {
    if us == [] then []
    else if IsPair(us) then
      [0x1_0000 + (us[0] - 0xD800) * 0x400 + (us[1] - 0xDC00)] + FromUnits(us[2..])
    else [us[0]] + FromUnits(us[1..])
  }

  /** Names are ranked by 16-bit code units that stand for their very characters. */
  lemma {:induction false} UnitsAreUtf16(s: bytes)
    requires Utf8.Valid(s)
    ensures FromUnits(Units(s)) == CodePoints(s)
    ensures forall k :: 0 <= k < |Units(s)| ==> 0 <= Units(s)[k] <= 0xFFFF
    decreases |s|
  {
    hide *;
    if s == [] {
      NothingToRank();
      NoPoints();
    } else {
      CharStep(s);
      var n := Utf8.CharLen(s);
      UnitsAreUtf16(s[n..]);
      FirstCharacter(Utf8.CodePoint(s), Units(s[n..]));
      PointsStep(s);
    }
  }

  lemma NothingToRank()
    ensures Units([]) == [] && FromUnits([]) == []
  {
  }

  lemma FirstCharacter(c: nat, us: seq<int>)
    requires Utf8.IsScalar(c)
    ensures FromUnits(UnitsOf(c) + us) == [c] + FromUnits(us)
    ensures forall k :: 0 <= k < |UnitsOf(c)| ==> 0 <= UnitsOf(c)[k] <= 0xFFFF
  {
    var all := UnitsOf(c) + us;
    if c < 0x1_0000 {
      assert all[0] == c && all[1..] == us;
    } else {
      var d := c - 0x1_0000;
      assert all[0] == 0xD800 + d / 0x400 && all[1] == 0xDC00 + d % 0x400 && all[2..] == us;
    }
  }

  // ----- Canonical values are in order -----

  /** Earlier members have smaller names, and no two the same. */
  ghost predicate NamesAscend(fields: seq<Field>) {
    forall i, k :: 0 <= i < k < |fields| ==>
      Ordering.NotAfter(Units(fields[i].name), Units(fields[k].name)) && fields[i].name != fields[k].name
  }

  /** So it is in every object, at every depth. */
  ghost predicate InOrder(j: Json)
    decreases j
  {
    match j
    case JArr(items) => forall i :: 0 <= i < |items| ==> InOrder(items[i])
    case JObj(fields) => NamesAscend(fields) && forall i :: 0 <= i < |fields| ==> InOrder(fields[i].val)
    case _ => true
  }

  lemma {:induction false} CanonInOrder(f: Format, j: Json)
    requires Canonizable(f, j)
    ensures InOrder(Canon(f, j))
    decreases j, 0
  {
    match j
    case JArr(items) =>
      CanonItemsInOrder(f, items);
    case JObj(fields) =>
      CanonFieldsInOrder(f, fields);
      SortAscends(FieldRank, CanonFields(f, fields));
      SortedDistinct(f, fields);
      hide Canon, CanonFields, SortBy, Canonizable, InOrder;
      ObjectInOrder(f, fields, SortBy(FieldRank, CanonFields(f, fields)));
    case _ =>
  }

  lemma ObjectInOrder(f: Format, fields: seq<Field>, sorted: seq<Field>)
    requires sorted == SortBy(FieldRank, CanonFields(f, fields)) && Distinct(sorted) && Ascends(FieldRank, sorted)
    requires multiset(sorted) == multiset(CanonFields(f, fields))
    requires forall x :: x in CanonFields(f, fields) ==> InOrder(x.val)
    ensures InOrder(Canon(f, JObj(fields)))
  {
    hide Ordering.NotAfter, Units, Ascends, CanonFields, SortBy;
    forall i, k | 0 <= i < k < |sorted| ensures Ordering.NotAfter(Units(sorted[i].name), Units(sorted[k].name)) {
      AscendsAt(FieldRank, sorted, i, k);
    }
    forall i | 0 <= i < |sorted| ensures InOrder(sorted[i].val) {
      assert sorted[i] in multiset(sorted);
    }
  }

  lemma {:induction false} CanonItemsInOrder(f: Format, items: seq<Json>)
    requires CanonizableItems(f, items)
    ensures forall i :: 0 <= i < |CanonItems(f, items)| ==> InOrder(CanonItems(f, items)[i])
    decreases items, 1
  {
    if items != [] {
      CanonInOrder(f, items[0]);
      CanonItemsInOrder(f, items[1..]);
      hide Canon, InOrder;
    }
  }

  lemma {:induction false} CanonFieldsInOrder(f: Format, fields: seq<Field>)
    requires CanonizableFields(f, fields)
    ensures forall x :: x in CanonFields(f, fields) ==> InOrder(x.val)
    decreases fields, 1
  {
    if fields != [] {
      CanonInOrder(f, fields[0].val);
      CanonFieldsInOrder(f, fields[1..]);
      hide Canon, InOrder;
    }
  }

  // ----- Canonical bytes -----

  /** No white space anywhere, and no escape that is not needed. */
  predicate Bare(d: Doc)
    decreases d, 0
  {
    match d
    case Str(raw) => BareString(raw)
    case Arr(es, gap) => gap == [] && BareElems(es)
    case Obj(ms, gap) => gap == [] && BareMembers(ms)
    case _ => true
  }

  predicate BareElem(e: Elem)
    decreases e, 1
  {
    e.pre == [] && e.post == [] && Bare(e.val)
  }

  predicate BareElems(es: seq<Elem>)
    decreases es, 2
  {
    es == [] || (BareElem(es[0]) && BareElems(es[1..]))
  }

  predicate BareMembers(ms: seq<Member>)
    decreases ms, 3
  {
    ms == [] || (BareMember(ms[0]) && BareMembers(ms[1..]))
  }

  predicate BareMember(m: Member)
    decreases m, 2
  {
    m.key.pre == [] && m.key.mid == [] && BareString(m.key.raw) && BareElem(m.elem)
  }

  /** The string is spelled as escaping its content spells it. */
  predicate BareString(raw: bytes) {
    raw == Escape(Decoded(raw))
  }

  lemma EscapedIsBare(s: bytes)
    requires Utf8.Valid(s)
    ensures BareString(Escape(s))
  {
    DecodedEscape(s);
  }

  lemma {:induction false} CompactIsBare(j: Json)
    requires Sound(j)
    ensures Bare(JsonPrint.Compact(j))
    decreases j, 0
  {
    hide BareString, Escape;
    match j
    case JStr(s) => EscapedIsBare(s);
    case JArr(items) => CompactItemsBare(items);
    case JObj(fields) => CompactFieldsBare(fields);
    case _ =>
  }

  lemma {:induction false} CompactItemsBare(items: seq<Json>)
    requires SoundItems(items)
    ensures BareElems(JsonPrint.CompactItems(items))
    decreases items, 1
  {
    if items != [] {
      CompactIsBare(items[0]);
      CompactItemsBare(items[1..]);
      hide JsonPrint.Compact, Bare;
      assert JsonPrint.CompactItems(items)[1..] == JsonPrint.CompactItems(items[1..]);
    }
  }

  lemma {:induction false} CompactFieldsBare(fields: seq<Field>)
    requires SoundFields(fields)
    ensures BareMembers(JsonPrint.CompactFields(fields))
    decreases fields, 1
  {
    if fields != [] {
      CompactIsBare(fields[0].val);
      EscapedIsBare(fields[0].name);
      CompactFieldsBare(fields[1..]);
      hide JsonPrint.Compact, Bare, BareString, Escape;
      BareField(fields[0]);
      assert JsonPrint.CompactFields(fields)[1..] == JsonPrint.CompactFields(fields[1..]);
    }
  }

  lemma BareField(f: Field)
    requires Bare(JsonPrint.Compact(f.val)) && BareString(Escape(f.name))
    ensures BareMember(JsonPrint.CompactField(f))
  {
    hide JsonPrint.Compact, Bare, BareString, Escape;
  }

  /** A printed sound value is the document that spells it without white space and with
      no escape that is not needed. */
  lemma PrintedBare(j: Json)
    requires Sound(j)
    ensures var out := Document(Print(j));
            out.Some? && BareElem(out.value) && ElemMeaning(out.value) == j
  {
    hide *;
    PrintedDocument(j);
    JsonPrint.CompactMeans(j);
    JsonPrint.PrintIsText(j);
    CompactIsBare(j);
    var e := Elem([], JsonPrint.Compact(j), []);
    JsonPrint.BareElem(e.val);
    BareText(e);
    TextDocument(e);
  }

  lemma BareText(e: Elem)
    requires e.pre == [] && e.post == [] && Bare(e.val) && WellFormed(e.val)
    ensures BareElem(e) && ElemWellFormed(e)
  {
  }

  /** Canonical bytes are a document without white space or needless escapes; every object
      of it, at every depth, lists its members in that order; and what it says is what the
      original document says, if formatting a number twice is formatting it once. */
  lemma CanonicalInOrder(f: Format, data: bytes)
    requires WritesNumbers(f) && Transform(Exact(f), data).Some?
    ensures var out := Document(Transform(Exact(f), data).value);
            && out.Some? && Document(data).Some? && BareElem(out.value) && InOrder(ElemMeaning(out.value))
            && (Stable(f) ==> Same(Exact(f), ElemMeaning(Document(data).value), ElemMeaning(out.value)))
  {
    hide *;
    ExactWritesNumbers(f);
    OnlyDocuments(Exact(f), data);
    var j := ElemMeaning(Document(data).value);
    FormExists(Exact(f), data);
    DocumentIsReadable(data);
    CanonIsSound(Exact(f), j);
    CanonInOrder(Exact(f), j);
    PrintedBare(Canon(Exact(f), j));
    if Stable(f) {
      ExactStable(f);
      DocumentIsReadable(Transform(Exact(f), data).value);
      CanonFixed(Exact(f), j);
      FixedMeans(Exact(f), Canon(Exact(f), j));
      SameCanon(Exact(f), j, Canon(Exact(f), j));
    }
  }

  // ----- The example of RFC 8785, section 3.2.3 -----

  lemma OneCharacter(s: bytes)
    requires Utf8.CharLen(s) == |s| > 0
    ensures Units(s) == UnitsOf(Utf8.CodePoint(s))
  {
    hide Utf8.CharLen, Utf8.CodePoint;
    UnitsStep(s);
    assert s[|s|..] == [];
    NoUnits();
  }

  lemma FirstUnitDecides(a: seq<int>, b: seq<int>)
    requires a != [] && b != [] && a[0] < b[0]
    ensures Ordering.NotAfter(a, b) && a != b
  {
    assert Ordering.FirstDifference(a, b, 0);
  }

  lemma SampleUnits()
    ensures Units([0x0D]) == [0x0D] && Units([0x31]) == [0x31]
    ensures Units([0xC2, 0x80]) == [0x80] && Units([0xC3, 0xB6]) == [0xF6]
  {
    OneCharacter([0x0D]);
    OneCharacter([0x31]);
    OneCharacter([0xC2, 0x80]);
    OneCharacter([0xC3, 0xB6]);
    hide Units;
  }

  lemma SampleHighUnits()
    ensures Units([0xE2, 0x82, 0xAC]) == [0x20AC] && Units([0xEF, 0xAC, 0xB3]) == [0xFB33]
    ensures Units([0xF0, 0x9F, 0x98, 0x80]) == [0xD83D, 0xDE00]
  {
    OneCharacter([0xE2, 0x82, 0xAC]);
    OneCharacter([0xF0, 0x9F, 0x98, 0x80]);
    OneCharacter([0xEF, 0xAC, 0xB3]);
    hide Units;
  }

  /** A return, "1", U+0080, o-umlaut, the euro sign, a smiley beyond the 16-bit plane and
      a Hebrew presentation form sort in this order; by code points the last two would
      change places. */
  lemma SampleOrder(fields: seq<Field>)
    requires |fields| == 7 && fields[0].name == [0x0D] && fields[1].name == [0x31]
    requires fields[2].name == [0xC2, 0x80] && fields[3].name == [0xC3, 0xB6] && fields[4].name == [0xE2, 0x82, 0xAC]
    requires fields[5].name == [0xF0, 0x9F, 0x98, 0x80] && fields[6].name == [0xEF, 0xAC, 0xB3]
    ensures NamesAscend(fields)
  {
    SampleUnits();
    SampleHighUnits();
    hide Units, Ordering.NotAfter;
    var firsts := [0x0D, 0x31, 0x80, 0xF6, 0x20AC, 0xD83D, 0xFB33];
    assert forall i :: 0 <= i < 7 ==> Units(fields[i].name) != [] && Units(fields[i].name)[0] == firsts[i];
    forall i, k | 0 <= i < k < |fields|
      ensures Ordering.NotAfter(Units(fields[i].name), Units(fields[k].name)) && fields[i].name != fields[k].name
    {
      FirstUnitDecides(Units(fields[i].name), Units(fields[k].name));
    }
  }
}
