/**
 Why a placeholder that does not occur in the input is enough, but for escapes: a
 string spelled without them decodes to the very bytes it is spelled with.
 */
module JcsFresh {
  import opened Bytes
  import opened JsonText
  import opened JsonTree
  import opened JcsSplice
  import opened JcsCanon
  import opened JcsMentions
  import opened JcsCanonicalize
  import Numbers
  import TextEncodings
  import Utf8

  /** No string or name is spelled with an escape. */
  predicate Unescaped(d: Doc)
    decreases d, 0
  {
    match d
    case Str(raw) => BACKSLASH !in raw
    case Arr(es, _) => UnescapedElems(es)
    case Obj(ms, _) => UnescapedMembers(ms)
    case _ => true
  }

  predicate UnescapedElem(e: Elem)
    decreases e, 1
  {
    Unescaped(e.val)
  }

  predicate UnescapedElems(es: seq<Elem>)
    decreases es, 2
  {
    es == [] || (UnescapedElem(es[0]) && UnescapedElems(es[1..]))
  }

  predicate UnescapedMember(m: Member)
    decreases m, 2
  {
    BACKSLASH !in m.key.raw && UnescapedElem(m.elem)
  }

  predicate UnescapedMembers(ms: seq<Member>)
    decreases ms, 3
  {
    ms == [] || (UnescapedMember(ms[0]) && UnescapedMembers(ms[1..]))
  }

  lemma {:induction false} SpelledAsDecoded(raw: bytes)
    requires IntactString(raw) && BACKSLASH !in raw
    ensures Decoded(raw) == raw
    decreases |raw|
  {
    hide *;
    if raw == [] {
      NothingDecoded();
    } else {
      assert raw[0] in raw;
      FirstCharDecoded(raw);
      var n := Utf8.CharLen(raw);
      assert forall b :: b in raw[n..] ==> b in raw;
      SpelledAsDecoded(raw[n..]);
      assert raw == raw[..n] + raw[n..];
    }
  }

  lemma NothingDecoded()
    ensures Decoded([]) == []
  {
  }

  lemma FirstCharDecoded(raw: bytes)
    requires raw != [] && IntactString(raw) && raw[0] != BACKSLASH
    ensures 0 < Utf8.CharLen(raw) <= |raw| && IntactString(raw[Utf8.CharLen(raw)..])
    ensures Decoded(raw) == raw[..Utf8.CharLen(raw)] + Decoded(raw[Utf8.CharLen(raw)..])
  {
    hide Utf8.CharLen, StartsPair, StartsUnit, Utf8.Encode;
  }

  lemma {:induction false} MentionedIsSpelled(p: bytes, d: Doc)
    requires Intact(d) && Unescaped(d) && Mentions(p, Meaning(d))
    ensures Occurs(p, Text(d))
    decreases d, 0
  {
    match d
    case Str(raw) =>
      SpelledAsDecoded(raw);
      OccursInside(p, [QUOTE], raw, [QUOTE]);
    case Arr(es, gap) =>
      ElemsMentioned(p, es);
      hide Occurs, ElemsText;
      OccursInside(p, [OPEN_ARRAY], ElemsText(es), []);
      assert [OPEN_ARRAY] + ElemsText(es) + [] == Text(d);
    case Obj(ms, gap) =>
      MembersMentioned(p, ms);
      hide Occurs, MembersText;
      OccursInside(p, [OPEN_OBJECT], MembersText(ms), []);
      assert [OPEN_OBJECT] + MembersText(ms) + [] == Text(d);
  }

  lemma {:induction false} ElemMentioned(p: bytes, e: Elem)
    requires IntactElem(e) && UnescapedElem(e) && Mentions(p, ElemMeaning(e))
    ensures Occurs(p, ElemText(e))
    decreases e, 1
  {
    MentionedIsSpelled(p, e.val);
    OccursInside(p, e.pre, Text(e.val), e.post);
  }

  lemma {:induction false} ElemsMentioned(p: bytes, es: seq<Elem>)
    requires IntactElems(es) && UnescapedElems(es) && ItemsMention(p, ElemsMeaning(es))
    ensures es != [] && Occurs(p, ElemsText(es))
    decreases es, 2
  {
    hide Occurs, ElemText, ElemMeaning, IntactElem, UnescapedElem, Mentions;
    var js := ElemsMeaning(es);
    assert es != [] && js[0] == ElemMeaning(es[0]) && js[1..] == ElemsMeaning(es[1..]);
    if Mentions(p, js[0]) {
      ElemMentioned(p, es[0]);
      OccursBefore(p, ElemText(es[0]), if |es| == 1 then [CLOSE_ARRAY] else [COMMA] + ElemsText(es[1..]));
    } else {
      ElemsMentioned(p, es[1..]);
      var first := ElemText(es[0]) + [COMMA];
      OccursInside(p, first, ElemsText(es[1..]), []);
      assert first + ElemsText(es[1..]) + [] == ElemText(es[0]) + ([COMMA] + ElemsText(es[1..]));
    }
  }

  lemma {:induction false} MemberMentioned(p: bytes, m: Member)
    requires IntactMember(m) && UnescapedMember(m) && FieldMentions(p, MemberMeaning(m))
    ensures Occurs(p, MemberText(m))
    decreases m, 2
  {
    hide *;
    MemberParts(m);
    if Occurs(p, MemberMeaning(m).name) {
      SpelledAsDecoded(m.key.raw);
      KeyMentioned(p, m.key);
      OccursBefore(p, KeyText(m.key), ElemText(m.elem));
    } else {
      MentionsVal(p, MemberMeaning(m));
      ElemMentioned(p, m.elem);
      OccursEnd(p, KeyText(m.key), ElemText(m.elem));
    }
  }

  lemma MemberParts(m: Member)
    ensures MemberText(m) == KeyText(m.key) + ElemText(m.elem)
    ensures MemberMeaning(m) == Field(Decoded(m.key.raw), ElemMeaning(m.elem))
    ensures IntactMember(m) == (IntactString(m.key.raw) && IntactElem(m.elem))
    ensures UnescapedMember(m) == (BACKSLASH !in m.key.raw && UnescapedElem(m.elem))
  {
  }

  lemma MentionsVal(p: bytes, f: Field)
    requires FieldMentions(p, f) && !Occurs(p, f.name)
    ensures Mentions(p, f.val)
  {
  }

  lemma OccursEnd(p: bytes, a: bytes, s: bytes)
    requires Occurs(p, s)
    ensures Occurs(p, a + s)
  {
    OccursInside(p, a, s, []);
    assert a + s + [] == a + s;
  }

  lemma KeyMentioned(p: bytes, k: Key)
    requires Occurs(p, k.raw)
    ensures Occurs(p, KeyText(k))
  {
    hide Occurs;
    OccursInside(p, [QUOTE], k.raw, [QUOTE]);
    OccursBefore(p, [QUOTE] + k.raw + [QUOTE], k.mid + [COLON]);
    OccursEnd(p, k.pre, [QUOTE] + k.raw + [QUOTE] + (k.mid + [COLON]));
  }

  lemma {:induction false} MembersMentioned(p: bytes, ms: seq<Member>)
    requires IntactMembers(ms) && UnescapedMembers(ms) && FieldsMention(p, MembersMeaning(ms))
    ensures ms != [] && Occurs(p, MembersText(ms))
    decreases ms, 3
  {
    hide Occurs, MemberText, MemberMeaning, IntactMember, UnescapedMember, FieldMentions;
    var js := MembersMeaning(ms);
    assert ms != [] && js[0] == MemberMeaning(ms[0]) && js[1..] == MembersMeaning(ms[1..]);
    if FieldMentions(p, js[0]) {
      MemberMentioned(p, ms[0]);
      OccursBefore(p, MemberText(ms[0]), if |ms| == 1 then [CLOSE_OBJECT] else [COMMA] + MembersText(ms[1..]));
    } else {
      MembersMentioned(p, ms[1..]);
      var first := MemberText(ms[0]) + [COMMA];
      OccursInside(p, first, MembersText(ms[1..]), []);
      assert first + MembersText(ms[1..]) + [] == MemberText(ms[0]) + ([COMMA] + MembersText(ms[1..]));
    }
  }

  /** A placeholder that does not occur in a document spelled without escapes is in none
      of its strings, so canonicalizing such a document is never refused on its account. */
  lemma FreshIsEnough(f: Format, p: bytes, data: bytes, e: Elem)
    requires IsPlaceholder(p) && Document(data) == Some(e) && CanonicalForm(Exact(f), e).Some?
    requires !Occurs(p, data) && UnescapedElem(e)
    ensures !Mentions(p, ElemMeaning(e))
  {
    hide Mentions, Occurs, ElemMeaning, Canonizable, Canon, Print, ElemText;
    DocumentText(data);
    if Mentions(p, ElemMeaning(e)) { ElemMentioned(p, e); }
  }

  // ----- The placeholders the code derives -----

  lemma {:induction false} HexAlphanumeric(digest: bytes)
    ensures forall i :: 0 <= i < |TextEncodings.Hex(digest)| ==> IsAlphanumeric(TextEncodings.Hex(digest)[i])
  {
    if digest != [] { HexAlphanumeric(digest[1..]); }
  }

  /** Its prefix and the hex of a digest have the shape that is asked of a placeholder, and
      a token is that in quotes with its index behind a dash. */
  lemma DerivedPlaceholder(digest: bytes, i: nat)
    ensures var p := Ascii("TSJCS") + TextEncodings.Hex(digest);
            && IsPlaceholder(p)
            && Token(p, i) == Ascii("\"") + p + Ascii("-") + Numbers.Digits(i) + Ascii("\"")
  {
    HexAlphanumeric(digest);
    hide TextEncodings.Hex, Numbers.Digits;
    assert Ascii("TSJCS") == [0x54, 0x53, 0x4A, 0x43, 0x53];
    assert Ascii("\"") == [QUOTE] && Ascii("-") == [DASH];
  }
}
