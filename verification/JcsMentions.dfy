/**
 Where a placeholder can occur in a printed document: only inside a string or a name
 whose decoded text contains it.
 */
module JcsMentions {
  import opened Bytes
  import opened JsonText
  import opened JsonTree
  import opened JcsSplice
  import opened JcsCanon

  // ----- Substrings of concatenations -----

  lemma OccursSplit(p: bytes, a: bytes, c: byte, b: bytes)
    requires IsPlaceholder(p) && !IsAlphanumeric(c)
    ensures Occurs(p, a + ([c] + b)) <==> Occurs(p, a) || Occurs(p, b)
  {
    var s := a + ([c] + b);
    if Occurs(p, s) {
      var i: nat :| At(s, i, p);
      SplitAt(p, a, c, b, i);
    }
    if Occurs(p, a) { OccursBefore(p, a, [c] + b); }
    if Occurs(p, b) {
      OccursInside(p, a + [c], b, []);
      assert a + [c] + b + [] == s;
    }
  }

  lemma AtCovers(s: bytes, i: nat, p: bytes, k: nat)
    requires At(s, i, p) && i <= k < i + |p|
    ensures s[k] == p[k - i]
  {
    AtBytes(s, i, p);
    assert s[i + (k - i)] == p[k - i];
  }

  lemma SplitAt(p: bytes, a: bytes, c: byte, b: bytes, i: nat)
    requires IsPlaceholder(p) && !IsAlphanumeric(c) && At(a + ([c] + b), i, p)
    ensures Occurs(p, a) || Occurs(p, b)
  {
    var s := a + ([c] + b);
    assert s[|a|] == c;
    if i + |p| <= |a| {
      PrefixAt(a, s, i, p);
    } else {
      assert i > |a| by {
        if i <= |a| { AtCovers(s, i, p, |a|); }
      }
      var k := i - |a| - 1;
      assert b[k..k + |p|] == s[i..i + |p|];
      assert At(b, k, p);
    }
  }

  /** No byte is the capital T that a placeholder starts with. */
  predicate NoStart(s: bytes) {
    forall i :: 0 <= i < |s| ==> s[i] != 0x54
  }

  lemma NoStartNoOccurrence(p: bytes, s: bytes)
    requires IsPlaceholder(p) && NoStart(s)
    ensures !Occurs(p, s)
  {
    if Occurs(p, s) {
      var i: nat :| At(s, i, p);
      AtCovers(s, i, p, i);
    }
  }

  lemma OccursAfter(p: bytes, e: bytes, s: bytes)
    requires IsPlaceholder(p) && NoStart(e)
    ensures Occurs(p, e + s) <==> Occurs(p, s)
  {
    if Occurs(p, e + s) {
      var i: nat :| At(e + s, i, p);
      AtBytes(e + s, i, p);
      assert (e + s)[i + 0] == p[0];
      assert s[i - |e|..i - |e| + |p|] == (e + s)[i..i + |p|];
      assert At(s, i - |e|, p);
    }
    if Occurs(p, s) {
      OccursInside(p, e, s, []);
      assert e + s + [] == e + s;
    }
  }

  lemma OccursCons(p: bytes, b: byte, s: bytes)
    ensures Occurs(p, [b] + s) <==> p <= [b] + s || Occurs(p, s)
  {
    var t := [b] + s;
    assert t[1..] == s;
    AtTail(t, p);
    if p <= t { assert At(t, 0, p); }
    if Occurs(p, t) {
      var i: nat :| At(t, i, p);
      if i > 0 { assert At(s, i - 1, p); }
    }
    if Occurs(p, s) {
      var i: nat :| At(s, i, p);
      assert At(t, i + 1, p);
    }
  }

  // ----- Escaping -----

  predicate AllAlphanumeric(p: bytes) {
    forall i :: 0 <= i < |p| ==> IsAlphanumeric(p[i])
  }

  lemma {:induction false} EscapePrefix(p: bytes, s: bytes)
    requires AllAlphanumeric(p)
    ensures p <= Escape(s) <==> p <= s
  {
    if p == [] || s == [] {
    } else {
      var e, rest := EscapeByte(s[0]), Escape(s[1..]);
      EscapePrefix(p[1..], s[1..]);
      assert p == [p[0]] + p[1..] && s == [s[0]] + s[1..];
      EscapeFirst(s[0]);
      hide EscapeByte;
      if e == [s[0]] {
        ConsPrefix(p[0], p[1..], s[0], rest);
        ConsPrefix(p[0], p[1..], s[0], s[1..]);
      } else {
        assert (e + rest)[0] == e[0] && p[0] != e[0];
      }
    }
  }

  lemma EscapeFirst(b: byte)
    ensures EscapeByte(b) == [b] || (EscapeByte(b)[0] == BACKSLASH && !IsAlphanumeric(b))
    ensures b != 0x54 ==> NoStart(EscapeByte(b))
  {
  }

  lemma ConsPrefix(a: byte, p: bytes, b: byte, s: bytes)
    ensures [a] + p <= [b] + s <==> a == b && p <= s
  {
    if [a] + p <= [b] + s {
      assert ([a] + p)[0] == ([b] + s)[0];
      assert ([a] + p)[1..] == p && ([b] + s)[1..] == s;
      assert ([b] + s)[..1 + |p|][1..] == s[..|p|];
    }
  }

  /** Escaping neither hides nor makes a placeholder. */
  lemma {:induction false} EscapeOccurs(p: bytes, s: bytes)
    requires IsPlaceholder(p)
    ensures Occurs(p, Escape(s)) <==> Occurs(p, s)
  {
    if s == [] {
      assert Escape(s) == s;
    } else {
      var b, t := s[0], s[1..];
      EscapeOccurs(p, t);
      EscapePrefix(p, s);
      OccursCons(p, b, t);
      assert s == [b] + t;
      EscapeFirst(b);
      if b == 0x54 {
        OccursCons(p, b, Escape(t));
      } else {
        OccursAfter(p, EscapeByte(b), Escape(t));
      }
    }
  }

  // ----- Printed documents -----

  /** Some string or name contains `p`. */
  ghost predicate Mentions(p: bytes, j: Json)
    decreases j, 0
  {
    match j
    case JStr(s) => Occurs(p, s)
    case JArr(items) => ItemsMention(p, items)
    case JObj(fields) => FieldsMention(p, fields)
    case _ => false
  }

  ghost predicate ItemsMention(p: bytes, items: seq<Json>)
    decreases items, 1
  {
    items != [] && (Mentions(p, items[0]) || ItemsMention(p, items[1..]))
  }

  ghost predicate FieldMentions(p: bytes, f: Field)
    decreases f, 0
  {
    Occurs(p, f.name) || Mentions(p, f.val)
  }

  ghost predicate FieldsMention(p: bytes, fields: seq<Field>)
    decreases fields, 1
  {
    fields != [] && (FieldMentions(p, fields[0]) || FieldsMention(p, fields[1..]))
  }

  /** Every number is a JSON number. */
  predicate Numeric(j: Json)
    decreases j, 0
  {
    match j
    case JNum(lit) => IsNumber(lit)
    case JArr(items) => NumericItems(items)
    case JObj(fields) => NumericFields(fields)
    case _ => true
  }

  predicate NumericItems(items: seq<Json>)
    decreases items, 1
  {
    items == [] || (Numeric(items[0]) && NumericItems(items[1..]))
  }

  predicate NumericFields(fields: seq<Field>)
    decreases fields, 1
  {
    fields == [] || (Numeric(fields[0].val) && NumericFields(fields[1..]))
  }

  lemma QuotedOccurs(p: bytes, s: bytes)
    requires IsPlaceholder(p)
    ensures Occurs(p, Quoted(s)) <==> Occurs(p, s)
  {
    hide Escape, Occurs, IsPlaceholder;
    EscapeOccurs(p, s);
    Enclosed(p, QUOTE, Escape(s), QUOTE);
  }

  lemma Enclosed(p: bytes, open: byte, s: bytes, close: byte)
    requires IsPlaceholder(p) && !IsAlphanumeric(open) && !IsAlphanumeric(close)
    ensures Occurs(p, [open] + s + [close]) <==> Occurs(p, s)
  {
    hide Occurs;
    NoStartNoOccurrence(p, []);
    OccursSplit(p, [], open, s + [close]);
    OccursSplit(p, s, close, []);
    assert [open] + s + [close] == [] + ([open] + (s + [close]));
    assert s + [close] == s + ([close] + []);
  }

  /** A placeholder occurs in a printed value exactly when some string contains it. */
  lemma {:induction false} PrintOccurs(p: bytes, j: Json)
    requires IsPlaceholder(p) && Numeric(j)
    ensures Occurs(p, Print(j)) <==> Mentions(p, j)
    decreases j, 0
  {
    match j
    case JNull => NoStartNoOccurrence(p, NULL);
    case JBool(b) => NoStartNoOccurrence(p, if b then TRUE else FALSE);
    case JNum(lit) =>
      assert NoStart(lit);
      NoStartNoOccurrence(p, lit);
    case JStr(s) => QuotedOccurs(p, s);
    case JArr(items) =>
      ItemsOccur(p, items);
      Enclosed(p, OPEN_ARRAY, PrintItems(items), CLOSE_ARRAY);
    case JObj(fields) =>
      FieldsOccur(p, fields);
      Enclosed(p, OPEN_OBJECT, PrintFields(fields), CLOSE_OBJECT);
  }

  lemma {:induction false} ItemsOccur(p: bytes, items: seq<Json>)
    requires IsPlaceholder(p) && NumericItems(items)
    ensures Occurs(p, PrintItems(items)) <==> ItemsMention(p, items)
    decreases items, 1
  {
    if items == [] {
      NoStartNoOccurrence(p, []);
    } else {
      PrintOccurs(p, items[0]);
      ItemsOccur(p, items[1..]);
      hide Occurs, IsPlaceholder, Print, Mentions, Numeric;
      if |items| == 1 {
        assert items[1..] == [] && PrintItems(items) == Print(items[0]) + [] == Print(items[0]);
      } else {
        OccursSplit(p, Print(items[0]), COMMA, PrintItems(items[1..]));
      }
    }
  }

  lemma {:induction false} FieldOccurs(p: bytes, f: Field)
    requires IsPlaceholder(p) && Numeric(f.val)
    ensures Occurs(p, PrintField(f)) <==> FieldMentions(p, f)
    decreases f, 0
  {
    hide Occurs, IsPlaceholder, Print, Mentions, Numeric, Quoted;
    PrintOccurs(p, f.val);
    QuotedOccurs(p, f.name);
    OccursSplit(p, Quoted(f.name), COLON, Print(f.val));
    assert PrintField(f) == Quoted(f.name) + ([COLON] + Print(f.val));
  }

  lemma {:induction false} FieldsOccur(p: bytes, fields: seq<Field>)
    requires IsPlaceholder(p) && NumericFields(fields)
    ensures Occurs(p, PrintFields(fields)) <==> FieldsMention(p, fields)
    decreases fields, 1
  {
    if fields == [] {
      NoStartNoOccurrence(p, []);
    } else {
      FieldOccurs(p, fields[0]);
      FieldsOccur(p, fields[1..]);
      hide Occurs, IsPlaceholder, PrintField, FieldMentions, Numeric;
      if |fields| == 1 {
        assert fields[1..] == [] && PrintFields(fields) == PrintField(fields[0]) + [] == PrintField(fields[0]);
      } else {
        OccursSplit(p, PrintField(fields[0]), COMMA, PrintFields(fields[1..]));
      }
    }
  }

  // ----- Canonicalizing neither adds nor removes strings -----

  ghost predicate WritesNumbers(f: Format) {
    forall lit :: IsNumber(lit) && f(lit).Some? ==> IsNumber(f(lit).value)
  }

  lemma {:induction false} InsertMentions(p: bytes, x: Field, sorted: seq<Field>)
    ensures var r := InsertBy(FieldRank, x, sorted);
            && (FieldsMention(p, r) <==> FieldMentions(p, x) || FieldsMention(p, sorted))
            && (NumericFields(r) <==> Numeric(x.val) && NumericFields(sorted))
  {
    hide FieldMentions, Numeric, FieldRank;
    var r := InsertBy(FieldRank, x, sorted);
    if sorted == [] || r == [x] + sorted {
      assert ([x] + sorted)[1..] == sorted;
    } else {
      var rest := InsertBy(FieldRank, x, sorted[1..]);
      InsertMentions(p, x, sorted[1..]);
      assert ([sorted[0]] + rest)[1..] == rest;
    }
  }

  lemma {:induction false} SortMentions(p: bytes, fields: seq<Field>)
    ensures FieldsMention(p, SortBy(FieldRank, fields)) <==> FieldsMention(p, fields)
    ensures NumericFields(SortBy(FieldRank, fields)) <==> NumericFields(fields)
  {
    hide FieldMentions, Numeric, InsertBy;
    if fields != [] {
      SortMentions(p, fields[1..]);
      InsertMentions(p, fields[0], SortBy(FieldRank, fields[1..]));
    }
  }

  lemma {:induction false} CanonMentions(p: bytes, f: Format, j: Json)
    requires WritesNumbers(f)
    ensures Mentions(p, Canon(f, j)) <==> Mentions(p, j)
    ensures Numeric(j) ==> Numeric(Canon(f, j))
    decreases j, 0
  {
    match j
    case JArr(items) => CanonItemsMention(p, f, items);
    case JObj(fields) =>
      CanonFieldsMention(p, f, fields);
      SortMentions(p, CanonFields(f, fields));
    case _ =>
  }

  lemma {:induction false} CanonItemsMention(p: bytes, f: Format, items: seq<Json>)
    requires WritesNumbers(f)
    ensures ItemsMention(p, CanonItems(f, items)) <==> ItemsMention(p, items)
    ensures NumericItems(items) ==> NumericItems(CanonItems(f, items))
    decreases items, 1
  {
    if items != [] {
      CanonMentions(p, f, items[0]);
      CanonItemsMention(p, f, items[1..]);
      hide Mentions, Numeric, Canon;
      assert CanonItems(f, items)[1..] == CanonItems(f, items[1..]);
    }
  }

  lemma {:induction false} CanonFieldsMention(p: bytes, f: Format, fields: seq<Field>)
    requires WritesNumbers(f)
    ensures FieldsMention(p, CanonFields(f, fields)) <==> FieldsMention(p, fields)
    ensures NumericFields(fields) ==> NumericFields(CanonFields(f, fields))
    decreases fields, 1
  {
    if fields != [] {
      CanonMentions(p, f, fields[0].val);
      CanonFieldsMention(p, f, fields[1..]);
      hide Mentions, Numeric, Canon;
      assert CanonFields(f, fields)[1..] == CanonFields(f, fields[1..]);
    }
  }
}
