/** Printed values are well-formed JSON texts that read back to the same value. */
module JsonPrint {
  import opened Bytes
  import opened JsonText
  import opened JsonTree
  import Utf8

  /** The value spelled without white space and with the fewest escapes. */
  function Compact(j: Json): Doc
    decreases j, 0
  {
    match j
    case JNull => Null
    case JBool(b) => Bool(b)
    case JNum(lit) => Num(lit)
    case JStr(s) => Str(Escape(s))
    case JArr(items) => Arr(CompactItems(items), [])
    case JObj(fields) => Obj(CompactFields(fields), [])
  }

  function CompactItems(items: seq<Json>): (es: seq<Elem>)
    ensures |es| == |items|
    decreases items, 1
  {
    if items == [] then [] else [Elem([], Compact(items[0]), [])] + CompactItems(items[1..])
  }

  function CompactField(f: Field): Member
    decreases f, 0
  {
    Member(Key([], Escape(f.name), []), Elem([], Compact(f.val), []))
  }

  function CompactFields(fields: seq<Field>): (ms: seq<Member>)
    ensures |ms| == |fields|
    decreases fields, 1
  {
    if fields == [] then [] else [CompactField(fields[0])] + CompactFields(fields[1..])
  }

  // ----- Printing is the text of the compact spelling -----

  lemma {:induction false} PrintIsText(j: Json)
    ensures Print(j) == Text(Compact(j))
    decreases j, 0
  {
    match j
    case JArr(items) =>
      if items != [] {
        ItemsAreText(items);
        hide PrintItems, ElemsText, CompactItems;
        assert Print(j) == [OPEN_ARRAY] + (PrintItems(items) + [CLOSE_ARRAY]);
      }
    case JObj(fields) =>
      if fields != [] {
        FieldsAreText(fields);
        hide PrintFields, MembersText, CompactFields;
        assert Print(j) == [OPEN_OBJECT] + (PrintFields(fields) + [CLOSE_OBJECT]);
      }
    case _ =>
  }

  lemma {:induction false} ItemsAreText(items: seq<Json>)
    requires items != []
    ensures PrintItems(items) + [CLOSE_ARRAY] == ElemsText(CompactItems(items))
    decreases items, 1
  {
    PrintIsText(items[0]);
    var e, es := Elem([], Compact(items[0]), []), CompactItems(items[1..]);
    BareElem(e.val);
    if |items| == 1 {
      assert CompactItems(items) == [e];
      ElemsLast(e);
      assert PrintItems(items) == Print(items[0]);
    } else {
      ItemsAreText(items[1..]);
      ElemsCons(e, es);
      Reassociate(Print(items[0]), COMMA, PrintItems(items[1..]), CLOSE_ARRAY);
      assert PrintItems(items) == Print(items[0]) + ([COMMA] + PrintItems(items[1..]));
    }
  }

  lemma BareElem(d: Doc)
    ensures ElemText(Elem([], d, [])) == Text(d)
  {
    hide Text;
    assert [] + Text(d) + [] == Text(d);
  }

  lemma Reassociate(a: bytes, sep: byte, b: bytes, close: byte)
    ensures (a + ([sep] + b)) + [close] == a + ([sep] + (b + [close]))
  {
  }

  lemma {:induction false} FieldIsText(f: Field)
    ensures PrintField(f) == MemberText(CompactField(f))
    decreases f, 0
  {
    hide Text, Print, Compact, Escape;
    PrintIsText(f.val);
    BareElem(Compact(f.val));
    var k := Key([], Escape(f.name), []);
    assert KeyText(k) == Quoted(f.name) + [COLON];
  }

  lemma {:induction false} FieldsAreText(fields: seq<Field>)
    requires fields != []
    ensures PrintFields(fields) + [CLOSE_OBJECT] == MembersText(CompactFields(fields))
    decreases fields, 1
  {
    FieldIsText(fields[0]);
    var m, ms := CompactField(fields[0]), CompactFields(fields[1..]);
    if |fields| == 1 {
      assert CompactFields(fields) == [m];
      MembersLast(m);
      assert PrintFields(fields) == PrintField(fields[0]);
    } else {
      FieldsAreText(fields[1..]);
      MembersCons(m, ms);
      Reassociate(PrintField(fields[0]), COMMA, PrintFields(fields[1..]), CLOSE_OBJECT);
      assert PrintFields(fields) == PrintField(fields[0]) + ([COMMA] + PrintFields(fields[1..]));
    }
  }

  // ----- The compact spelling means the value -----

  lemma {:induction false} CompactMeans(j: Json)
    requires Sound(j)
    ensures WellFormed(Compact(j)) && Meaning(Compact(j)) == j
    decreases j, 0
  {
    match j
    case JStr(s) => DecodedEscape(s); EscapeSpells(s);
    case JArr(items) => ItemsMean(items);
    case JObj(fields) => FieldsMean(fields);
    case _ =>
  }

  lemma {:induction false} ItemsMean(items: seq<Json>)
    requires SoundItems(items)
    ensures ElemsWellFormed(CompactItems(items)) && ElemsMeaning(CompactItems(items)) == items
    decreases items, 1
  {
    if items != [] {
      CompactMeans(items[0]);
      ItemsMean(items[1..]);
      var es := CompactItems(items);
      assert es[1..] == CompactItems(items[1..]);
    }
  }

  lemma {:induction false} FieldsMean(fields: seq<Field>)
    requires SoundFields(fields)
    ensures MembersWellFormed(CompactFields(fields)) && MembersMeaning(CompactFields(fields)) == fields
    decreases fields, 1
  {
    if fields != [] {
      FieldMeans(fields[0]);
      FieldsMean(fields[1..]);
      var ms := CompactFields(fields);
      assert ms[1..] == CompactFields(fields[1..]);
    }
  }

  lemma {:induction false} FieldMeans(f: Field)
    requires Utf8.Valid(f.name) && Sound(f.val)
    ensures MemberWellFormed(CompactField(f)) && MemberMeaning(CompactField(f)) == f
    decreases f, 0
  {
    CompactMeans(f.val);
    DecodedEscape(f.name);
    EscapeSpells(f.name);
  }

  /** Printing a sound value gives one JSON text that reads back to that value. */
  lemma ReadPrint(j: Json)
    requires Sound(j)
    ensures Read(Print(j)) == Some(j)
  {
    CompactMeans(j);
    PrintIsText(j);
    var e := Elem([], Compact(j), []);
    BareElem(e.val);
    ParseElemExact(e, []);
    assert Print(j) + [] == Print(j);
  }

  // ----- The printed text is UTF-8 -----

  lemma {:induction false} PrintIsUtf8(j: Json)
    requires Sound(j)
    ensures Utf8.Valid(Print(j))
    decreases j, 0
  {
    match j
    case JNum(lit) => AsciiIsValid(lit);
    case JStr(s) => QuotedIsUtf8(s);
    case JArr(items) => ItemsAreUtf8(items); Bracketed(OPEN_ARRAY, PrintItems(items), CLOSE_ARRAY);
    case JObj(fields) => FieldsAreUtf8(fields); Bracketed(OPEN_OBJECT, PrintFields(fields), CLOSE_OBJECT);
    case _ => AsciiIsValid(Print(j));
  }

  lemma Bracketed(a: byte, s: bytes, b: byte)
    requires a < 0x80 && b < 0x80 && Utf8.Valid(s)
    ensures Utf8.Valid([a] + s + [b])
  {
    AsciiIsValid([a]);
    AsciiIsValid([b]);
    Utf8.ValidConcat([a], s);
    Utf8.ValidConcat([a] + s, [b]);
  }

  lemma QuotedIsUtf8(s: bytes)
    requires Utf8.Valid(s)
    ensures Utf8.Valid(Quoted(s))
  {
    DecodedEscape(s);
    Bracketed(QUOTE, Escape(s), QUOTE);
  }

  lemma Separated(a: bytes, sep: byte, b: bytes)
    requires Utf8.Valid(a) && sep < 0x80 && Utf8.Valid(b)
    ensures Utf8.Valid(a + ([sep] + b))
  {
    AsciiIsValid([sep]);
    Utf8.ValidConcat([sep], b);
    Utf8.ValidConcat(a, [sep] + b);
  }

  lemma {:induction false} ItemsAreUtf8(items: seq<Json>)
    requires SoundItems(items)
    ensures Utf8.Valid(PrintItems(items))
    decreases items, 1
  {
    if items != [] {
      PrintIsUtf8(items[0]);
      if |items| == 1 {
        assert PrintItems(items) == Print(items[0]);
      } else {
        ItemsAreUtf8(items[1..]);
        Separated(Print(items[0]), COMMA, PrintItems(items[1..]));
      }
    }
  }

  lemma {:induction false} FieldsAreUtf8(fields: seq<Field>)
    requires SoundFields(fields)
    ensures Utf8.Valid(PrintFields(fields))
    decreases fields, 1
  {
    if fields != [] {
      FieldIsUtf8(fields[0]);
      if |fields| == 1 {
        assert PrintFields(fields) == PrintField(fields[0]);
      } else {
        FieldsAreUtf8(fields[1..]);
        Separated(PrintField(fields[0]), COMMA, PrintFields(fields[1..]));
      }
    }
  }

  lemma {:induction false} FieldIsUtf8(f: Field)
    requires Utf8.Valid(f.name) && Sound(f.val)
    ensures Utf8.Valid(PrintField(f))
    decreases f, 0
  {
    hide *;
    PrintIsUtf8(f.val);
    QuotedIsUtf8(f.name);
    ColonIsAscii();
    Separated(Quoted(f.name), COLON, Print(f.val));
    FieldLayout(f);
  }

  lemma FieldLayout(f: Field)
    ensures PrintField(f) == Quoted(f.name) + ([COLON] + Print(f.val))
  {
    hide Quoted, Print;
  }

  lemma ColonIsAscii()
    ensures COLON < 0x80
  {
  }
}
