/**
 What the one-pass converter says about a well-formed item depends on the item's value
 alone: the JSON value, or else the refusal and the path it names.
 */
module BundleRefusals {
  import opened Bytes
  import opened CborSyntax
  import opened JsonTree
  import opened BundleValue
  import opened BundleDecode
  import Numbers

  // ----- The verdict on a value -----

  function SimpleJudged(n: nat, r: Role, path: Path): Result<Json, Error> {
    if n == 20 then Ok(JBool(false))
    else if n == 21 then Ok(JBool(true))
    else if n == 22 then Ok(JNull)
    else if r == Hashed then Err(InvalidSubjectData(path, if n == 23 then Undefined else SimpleValue(n)))
    else Ok(JNull)
  }

  function FloatJudged(fm: FloatFormat, x: uint64, r: Role, path: Path): Result<Json, Error> {
    if Finite(x) then Ok(JNum(fm.literal(x)))
    else if r == Hashed then Err(InvalidSubjectData(path, NonFinite))
    else Ok(JNull)
  }

  /** The JSON value, or the first refusal in wire order. */
  function Judged(fm: FloatFormat, v: Value, r: Role, path: Path): Result<Json, Error>
    decreases v, 0
  {
    match v
    case VInt(n) => Ok(JNum(Numbers.IntLiteral(n)))
    case VBytes(b) => BytesJson(b, r, path)
    case VText(t) => TextJson(t, r, path)
    case VList(vs) =>
      (match ElemsJudged(fm, vs, ElementRole(r), path, [])
       case Err(e) => Err(e)
       case Ok(js) => Ok(JArr(js)))
    case VMap(vs) =>
      (match FieldsJudged(fm, vs, r, path, [], {})
       case Err(e) => Err(e)
       case Ok(fields) => Ok(JObj(fields)))
    case VTag(tag, value) =>
      if r == Hashed then Err(InvalidSubjectData(path, TagItem(tag))) else Judged(fm, value, r, path)
    case VSimple(n) => SimpleJudged(n, r, path)
    case VFloat(x) => FloatJudged(fm, x, r, path)
  }

  function ElemsJudged(fm: FloatFormat, vs: seq<Value>, er: Role, path: Path, acc: seq<Json>): Result<seq<Json>, Error>
    decreases vs, 1
  {
    if vs == [] then Ok(acc)
    else
      match Judged(fm, vs[0], er, path + [Index(|acc|)])
      case Err(e) => Err(e)
      case Ok(j) => ElemsJudged(fm, vs[1..], er, path, acc + [j])
  }

  function KeyJudged(v: Value, r: Role, path: Path): Result<bytes, Error> {
    if v.VText? then
      match TextOf(v.t, r)
      case None => Err(InvalidSubjectData(path, KeyBadUtf8))
      case Some(key) => Ok(key)
    else if r == Hashed then Err(InvalidSubjectData(path, KeyIsNotText(v.VBytes?)))
    else Err(Malformed(KeyNotText(v.VBytes?, path)))
  }

  function MemberJudged(fm: FloatFormat, k: Value, v: Value, r: Role, path: Path, seen: set<bytes>)
    : Result<Field, Error>
    decreases v, 1
  {
    match KeyJudged(k, r, path)
    case Err(e) => Err(e)
    case Ok(key) =>
      if key in seen then Err(Malformed(DuplicateKey(key, path)))
      else
        match Judged(fm, v, ChildRole(r, key), path + [Key(key)])
        case Err(e) => Err(e)
        case Ok(j) => Ok(Field(key, j))
  }

  function FieldsJudged(fm: FloatFormat, vs: seq<Value>, r: Role, path: Path, acc: seq<Field>, seen: set<bytes>)
    : Result<seq<Field>, Error>
    decreases vs, 1
  {
    if |vs| < 2 then Ok(acc)
    else
      match MemberJudged(fm, vs[0], vs[1], r, path, seen)
      case Err(e) => Err(e)
      case Ok(f) => FieldsJudged(fm, vs[2..], r, path, acc + [f], seen + {f.name})
  }

  // ----- The pass gives that verdict -----

  /** A verdict, reached with `rest` still to come. */
  function Reached<T>(res: Result<T, Error>, rest: bytes): Result<(T, bytes), Error> {
    match res
    case Err(e) => Err(e)
    case Ok(v) => Ok((v, rest))
  }

  /** Reading the bytes of an item gives the verdict on its value, refusal and path
      included, and stops at its end. */
  lemma {:induction false} ItemJudged(fm: FloatFormat, i: Item, rest: bytes, r: Role, path: Path)
    requires WellFormed(i)
    ensures DecodeItem(fm, Serial(i) + rest, r, path) == Reached(Judged(fm, ItemValue(fm, i), r, path), rest)
    decreases i, 1
  {
    hide *;
    HeadRead(i, rest);
    ItemIsBody(fm, Serial(i) + rest, HeadOf(i), r, path);
    BodyJudged(fm, i, rest, r, path);
  }

  lemma HeadRead(i: Item, rest: bytes)
    requires WellFormed(i)
    ensures var s, h := Serial(i) + rest, HeadOf(i);
            CborHead(s) == Ok(h) && h.Len() <= |s| && s[h.Len()..] == BodyBytes(i) + rest
  {
    hide *;
    SerialSplits(i, rest);
    var h := HeadOf(i);
    HeadExact(h.major, h.form, h.arg, BodyBytes(i) + rest);
    HeadLength(h);
    assert h == Head(h.major, h.arg, h.form);
  }

  lemma {:induction false} ItemIsBody(fm: FloatFormat, s: bytes, h: Head, r: Role, path: Path)
    requires CborHead(s) == Ok(h)
    ensures DecodeItem(fm, s, r, path) == DecodeBody(fm, h, s[h.Len()..], r, path)
  {
    hide CborHead, DecodeBody;
  }

  lemma {:induction false} BodyJudged(fm: FloatFormat, i: Item, rest: bytes, r: Role, path: Path)
    requires WellFormed(i)
    ensures DecodeBody(fm, HeadOf(i), BodyBytes(i) + rest, r, path)
            == Reached(Judged(fm, ItemValue(fm, i), r, path), rest)
    decreases i, 0
  {
    hide *;
    if i.Whole? || i.Chunked? {
      StringJudged(fm, i, rest, r, path);
    } else if i.List? {
      ItemsAreWellFormed(i);
      ElemsRead(fm, i.items, i.form == Open, rest, ElementRole(r), path, []);
      ListJudged(fm, i, rest, r, path);
    } else if i.Table? {
      ItemsAreWellFormed(i);
      PairsAreWhole(i);
      FieldsRead(fm, i.items, i.form == Open, rest, r, path, [], {});
      TableJudged(fm, i, rest, r, path);
    } else if i.Tag? {
      TaggedIsWellFormed(i);
      ItemJudged(fm, i.item, rest, r, path);
      TagJudged(fm, i, rest, r, path);
    } else {
      ScalarJudged(fm, i, rest, r, path);
    }
  }

  lemma PairsAreWhole(i: Item)
    requires i.Table? && WellFormed(i)
    ensures |i.items| % 2 == 0
  {
    hide ItemsWellFormed;
  }

  lemma {:induction false} ScalarJudged(fm: FloatFormat, i: Item, rest: bytes, r: Role, path: Path)
    requires WellFormed(i) && (i.Number? || i.Simple? || i.Float?)
    ensures DecodeBody(fm, HeadOf(i), BodyBytes(i) + rest, r, path)
            == Reached(Judged(fm, ItemValue(fm, i), r, path), rest)
  {
    assert BodyBytes(i) + rest == rest;
    hide Numbers.IntLiteral, Finite, Fits;
  }

  lemma {:induction false} TagJudged(fm: FloatFormat, i: Item, rest: bytes, r: Role, path: Path)
    requires i.Tag? && WellFormed(i)
    requires DecodeItem(fm, Serial(i.item) + rest, r, path) == Reached(Judged(fm, ItemValue(fm, i.item), r, path), rest)
    ensures DecodeBody(fm, HeadOf(i), BodyBytes(i) + rest, r, path)
            == Reached(Judged(fm, ItemValue(fm, i), r, path), rest)
  {
    hide DecodeItem, Serial, Fits;
  }

  // ----- Strings -----

  /** The content of a string item is read whole. */
  lemma {:induction false} ContentRead(fm: FloatFormat, i: Item, rest: bytes)
    requires WellFormed(i) && (i.Whole? || i.Chunked?)
    ensures var v, content := ItemValue(fm, i), StringContent(i.text, HeadOf(i), BodyBytes(i) + rest);
            && HeadOf(i).major == StringMajor(i.text)
            && content.Ok? && content.value.1 == rest
            && v == if i.text then VText(content.value.0) else VBytes(content.value.0)
  {
    hide *;
    StringMajorOf(i);
    ParseBodyExact(i, rest);
    ContentAgrees(fm, i.text, HeadOf(i), BodyBytes(i) + rest);
  }

  lemma StringMajorOf(i: Item)
    requires WellFormed(i) && (i.Whole? || i.Chunked?)
    ensures HeadOf(i).major == StringMajor(i.text)
  {
    hide Fits, ChunksWellFormed;
  }

  lemma {:induction false} StringJudged(fm: FloatFormat, i: Item, rest: bytes, r: Role, path: Path)
    requires WellFormed(i) && (i.Whole? || i.Chunked?)
    ensures DecodeBody(fm, HeadOf(i), BodyBytes(i) + rest, r, path)
            == Reached(Judged(fm, ItemValue(fm, i), r, path), rest)
  {
    hide *;
    ContentRead(fm, i, rest);
    BodyOfString(fm, i.text, HeadOf(i), BodyBytes(i) + rest, r, path);
    var content := StringContent(i.text, HeadOf(i), BodyBytes(i) + rest).value.0;
    StringVerdict(fm, i.text, content, r, path);
    RestIsReached(if i.text then TextJson(content, r, path) else BytesJson(content, r, path), rest);
  }

  lemma {:induction false} BodyOfString(fm: FloatFormat, text: bool, h: Head, s: bytes, r: Role, path: Path)
    requires h.major == StringMajor(text) && StringContent(text, h, s).Ok?
    ensures var (content, rest) := StringContent(text, h, s).value;
            DecodeBody(fm, h, s, r, path) ==
            WithRest(if text then TextJson(content, r, path) else BytesJson(content, r, path), rest)
  {
    hide StringContent, TextJson, BytesJson, WithRest;
  }

  lemma {:induction false} StringVerdict(fm: FloatFormat, text: bool, content: bytes, r: Role, path: Path)
    ensures Judged(fm, if text then VText(content) else VBytes(content), r, path) ==
            if text then TextJson(content, r, path) else BytesJson(content, r, path)
  {
    hide TextJson, BytesJson;
  }

  lemma RestIsReached(j: Result<Json, Error>, rest: bytes)
    ensures WithRest(j, rest) == Reached(j, rest)
  {
  }

  // ----- Arrays -----

  /** Where a sequence of items ends, and what it starts with. */
  lemma {:induction false} ItemsStart(items: seq<Item>, open: bool, rest: bytes)
    requires ItemsWellFormed(items)
    ensures var s := ItemsBytes(items, open) + rest;
            && (items == [] && open ==> AtBreak(s) && s[1..] == rest)
            && (items == [] && !open ==> s == rest)
            && (items != [] ==>
                  && WellFormed(items[0]) && ItemsWellFormed(items[1..]) && !AtBreak(s)
                  && s == Serial(items[0]) + (ItemsBytes(items[1..], open) + rest))
  {
    hide Serial, WellFormed;
    if items == [] {
      assert [] + rest == rest && ([BREAK] + rest)[1..] == rest;
    } else {
      NoItemStartsWithBreak(items[0]);
      ItemsCons(items[0], items[1..], open, rest);
      assert [items[0]] + items[1..] == items;
    }
  }

  function CountOf(open: bool, n: nat): Option<nat> {
    if open then None else Some(n)
  }

  lemma {:induction false} ElemsRead(fm: FloatFormat, items: seq<Item>, open: bool, rest: bytes, er: Role, path: Path,
                                     acc: seq<Json>)
    requires ItemsWellFormed(items)
    ensures DecodeElems(fm, ItemsBytes(items, open) + rest, CountOf(open, |acc| + |items|), er, path, acc)
            == Reached(ElemsJudged(fm, ItemValues(fm, items), er, path, acc), rest)
    decreases items, 2
  {
    hide *;
    var s, count := ItemsBytes(items, open) + rest, CountOf(open, |acc| + |items|);
    ItemsStart(items, open, rest);
    CountMeans(open, |acc| + |items|);
    ElemsVerdict(fm, items, er, path, acc);
    ReachedMeans(ElemsJudged(fm, ItemValues(fm, items), er, path, acc), rest);
    if items == [] {
      ElemsOver(fm, s, count, er, path, acc);
    } else {
      var more := ItemsBytes(items[1..], open) + rest;
      ItemJudged(fm, items[0], more, er, path + [Index(|acc|)]);
      ElemsUnfold(fm, s, count, er, path, acc);
      var verdict := Judged(fm, ItemValue(fm, items[0]), er, path + [Index(|acc|)]);
      ReachedMeans(verdict, more);
      if verdict.Ok? {
        var acc' := acc + [verdict.value];
        assert |acc'| + |items[1..]| == |acc| + |items|;
        ElemsRead(fm, items[1..], open, rest, er, path, acc');
      }
    }
  }

  lemma CountMeans(open: bool, n: nat)
    ensures CountOf(open, n) == if open then None else Some(n)
  {
  }

  lemma ReachedMeans<T>(res: Result<T, Error>, rest: bytes)
    ensures Reached(res, rest) == match res case Err(e) => Err(e) case Ok(v) => Ok((v, rest))
  {
  }

  lemma {:induction false} ElemsOver(fm: FloatFormat, s: bytes, count: Option<nat>, er: Role, path: Path,
                                     acc: seq<Json>)
    ensures count == Some(|acc|) ==> DecodeElems(fm, s, count, er, path, acc) == Ok((acc, s))
    ensures count.None? && AtBreak(s) ==> DecodeElems(fm, s, count, er, path, acc) == Ok((acc, s[1..]))
  {
    hide DecodeItem;
  }

  lemma {:induction false} ElemsVerdict(fm: FloatFormat, items: seq<Item>, er: Role, path: Path, acc: seq<Json>)
    ensures ElemsJudged(fm, ItemValues(fm, items), er, path, acc) ==
            if items == [] then Ok(acc)
            else
              match Judged(fm, ItemValue(fm, items[0]), er, path + [Index(|acc|)])
              case Err(e) => Err(e)
              case Ok(j) => ElemsJudged(fm, ItemValues(fm, items[1..]), er, path, acc + [j])
  {
    hide Judged, ItemValue;
    if items != [] { FirstValue(fm, items); }
  }

  lemma {:induction false} ListJudged(fm: FloatFormat, i: Item, rest: bytes, r: Role, path: Path)
    requires i.List? && WellFormed(i) && ItemsWellFormed(i.items)
    requires DecodeElems(fm, ItemsBytes(i.items, i.form == Open) + rest, CountOf(i.form == Open, |i.items|),
                         ElementRole(r), path, [])
             == Reached(ElemsJudged(fm, ItemValues(fm, i.items), ElementRole(r), path, []), rest)
    ensures DecodeBody(fm, HeadOf(i), BodyBytes(i) + rest, r, path)
            == Reached(Judged(fm, ItemValue(fm, i), r, path), rest)
  {
    hide DecodeElems, ElemsJudged, ItemValues, ItemsBytes, ItemsWellFormed, ElementRole, Fits;
  }

  // ----- Maps -----

  lemma {:induction false} KeyRead(fm: FloatFormat, k: Item, rest: bytes, r: Role, path: Path)
    requires WellFormed(k)
    ensures DecodeKey(Serial(k) + rest, r, path) == Reached(KeyJudged(ItemValue(fm, k), r, path), rest)
  {
    hide *;
    HeadRead(k, rest);
    var s := Serial(k) + rest;
    if (k.Whole? || k.Chunked?) && k.text {
      TextMajor();
      ContentRead(fm, k, rest);
      TextKeyRead(s, HeadOf(k), r, path);
      TextKeyVerdict(StringContent(true, HeadOf(k), BodyBytes(k) + rest).value.0, r, path, rest);
    } else {
      OtherMajor(fm, k);
      OtherKeyRead(s, HeadOf(k), r, path);
      OtherKeyVerdict(ItemValue(fm, k), r, path, rest);
    }
  }

  lemma TextMajor()
    ensures StringMajor(true) == 3
  {
  }

  lemma {:induction false} OtherMajor(fm: FloatFormat, k: Item)
    requires WellFormed(k) && !((k.Whole? || k.Chunked?) && k.text)
    ensures HeadOf(k).major != 3 && !ItemValue(fm, k).VText?
    ensures HeadOf(k).major == 2 <==> ItemValue(fm, k).VBytes?
  {
    hide Fits, ItemsWellFormed, ChunksWellFormed, Joined, ItemValues;
  }

  lemma TextKeyRead(s: bytes, h: Head, r: Role, path: Path)
    requires CborHead(s) == Ok(h) && h.Len() <= |s| && h.major == 3 && StringContent(true, h, s[h.Len()..]).Ok?
    ensures var (content, rest) := StringContent(true, h, s[h.Len()..]).value;
            DecodeKey(s, r, path) ==
            match TextOf(content, r)
            case None => Err(InvalidSubjectData(path, KeyBadUtf8))
            case Some(key) => Ok((key, rest))
  {
    hide CborHead, StringContent, TextOf;
  }

  lemma TextKeyVerdict(t: bytes, r: Role, path: Path, rest: bytes)
    ensures Reached(KeyJudged(VText(t), r, path), rest) ==
            match TextOf(t, r)
            case None => Err(InvalidSubjectData(path, KeyBadUtf8))
            case Some(key) => Ok((key, rest))
  {
    hide TextOf;
  }

  lemma OtherKeyRead(s: bytes, h: Head, r: Role, path: Path)
    requires CborHead(s) == Ok(h) && h.major != 3
    ensures DecodeKey(s, r, path) ==
            Err(if r == Hashed then InvalidSubjectData(path, KeyIsNotText(h.major == 2))
                else Malformed(KeyNotText(h.major == 2, path)))
  {
    hide CborHead, StringContent;
  }

  lemma OtherKeyVerdict(v: Value, r: Role, path: Path, rest: bytes)
    requires !v.VText?
    ensures Reached(KeyJudged(v, r, path), rest) ==
            Err(if r == Hashed then InvalidSubjectData(path, KeyIsNotText(v.VBytes?))
                else Malformed(KeyNotText(v.VBytes?, path)))
  {
  }

  lemma {:induction false} MemberRead(fm: FloatFormat, k: Item, v: Item, rest: bytes, r: Role, path: Path,
                                      seen: set<bytes>)
    requires WellFormed(k) && WellFormed(v)
    ensures DecodeMember(fm, Serial(k) + (Serial(v) + rest), r, path, seen)
            == Reached(MemberJudged(fm, ItemValue(fm, k), ItemValue(fm, v), r, path, seen), rest)
    decreases v, 2
  {
    hide *;
    var tail, key := Serial(v) + rest, KeyJudged(ItemValue(fm, k), r, path);
    KeyRead(fm, k, tail, r, path);
    ReachedMeans(key, tail);
    if key.Ok? { ItemJudged(fm, v, rest, ChildRole(r, key.value), path + [Key(key.value)]); }
    MemberVerdict(fm, Serial(k) + tail, ItemValue(fm, k), ItemValue(fm, v), tail, rest, r, path, seen);
  }

  lemma {:induction false} MemberVerdict(fm: FloatFormat, s: bytes, k: Value, v: Value, tail: bytes, rest: bytes,
                                         r: Role, path: Path, seen: set<bytes>)
    requires DecodeKey(s, r, path) == Reached(KeyJudged(k, r, path), tail)
    requires KeyJudged(k, r, path).Ok? ==>
               var key := KeyJudged(k, r, path).value;
               DecodeItem(fm, tail, ChildRole(r, key), path + [Key(key)])
               == Reached(Judged(fm, v, ChildRole(r, key), path + [Key(key)]), rest)
    ensures DecodeMember(fm, s, r, path, seen) == Reached(MemberJudged(fm, k, v, r, path, seen), rest)
  {
    hide DecodeKey, KeyJudged, DecodeItem, Judged, ChildRole;
  }

  lemma {:induction false} FieldsRead(fm: FloatFormat, items: seq<Item>, open: bool, rest: bytes, r: Role, path: Path,
                                      acc: seq<Field>, seen: set<bytes>)
    requires ItemsWellFormed(items) && |items| % 2 == 0
    ensures DecodeFields(fm, ItemsBytes(items, open) + rest, CountOf(open, |acc| + |items| / 2), r, path, acc, seen)
            == Reached(FieldsJudged(fm, ItemValues(fm, items), r, path, acc, seen), rest)
    decreases items, 3
  {
    hide *;
    var s, count := ItemsBytes(items, open) + rest, CountOf(open, |acc| + |items| / 2);
    ItemsStart(items, open, rest);
    CountMeans(open, |acc| + |items| / 2);
    FieldsVerdict(fm, items, r, path, acc, seen);
    ReachedMeans(FieldsJudged(fm, ItemValues(fm, items), r, path, acc, seen), rest);
    if items == [] {
      FieldsOver(fm, s, count, r, path, acc, seen);
    } else {
      var k, v, more := items[0], items[1], items[2..];
      assert items[1..][0] == v && items[1..][1..] == more;
      ItemsStart(items[1..], open, rest);
      var tail := ItemsBytes(more, open) + rest;
      MemberRead(fm, k, v, tail, r, path, seen);
      FieldsNext(fm, s, count, r, path, acc, seen);
      var member := MemberJudged(fm, ItemValue(fm, k), ItemValue(fm, v), r, path, seen);
      ReachedMeans(member, tail);
      if member.Ok? {
        var acc' := acc + [member.value];
        assert |acc'| + |more| / 2 == |acc| + |items| / 2;
        FieldsRead(fm, more, open, rest, r, path, acc', seen + {member.value.name});
      }
    }
  }

  lemma {:induction false} FieldsOver(fm: FloatFormat, s: bytes, count: Option<nat>, r: Role, path: Path,
                                      acc: seq<Field>, seen: set<bytes>)
    ensures count == Some(|acc|) ==> DecodeFields(fm, s, count, r, path, acc, seen) == Ok((acc, s))
    ensures count.None? && AtBreak(s) ==> DecodeFields(fm, s, count, r, path, acc, seen) == Ok((acc, s[1..]))
  {
    hide DecodeMember;
  }

  lemma {:induction false} FieldsNext(fm: FloatFormat, s: bytes, count: Option<nat>, r: Role, path: Path,
                                      acc: seq<Field>, seen: set<bytes>)
    requires !(count.Some? && |acc| >= count.value) && !(count.None? && AtBreak(s))
    ensures DecodeFields(fm, s, count, r, path, acc, seen) ==
            match DecodeMember(fm, s, r, path, seen)
            case Err(e) => Err(e)
            case Ok((f, rest)) => DecodeFields(fm, rest, count, r, path, acc + [f], seen + {f.name})
  {
    hide DecodeMember, AtBreak;
  }

  lemma {:induction false} FieldsVerdict(fm: FloatFormat, items: seq<Item>, r: Role, path: Path,
                                         acc: seq<Field>, seen: set<bytes>)
    ensures FieldsJudged(fm, ItemValues(fm, items), r, path, acc, seen) ==
            if |items| < 2 then Ok(acc)
            else
              match MemberJudged(fm, ItemValue(fm, items[0]), ItemValue(fm, items[1]), r, path, seen)
              case Err(e) => Err(e)
              case Ok(f) => FieldsJudged(fm, ItemValues(fm, items[2..]), r, path, acc + [f], seen + {f.name})
  {
    hide *;
    if |items| >= 2 {
      FirstValue(fm, items);
      FirstValue(fm, items[1..]);
      assert items[1..][0] == items[1] && items[1..][1..] == items[2..];
      var vs := ItemValues(fm, items);
      assert vs[1] == vs[1..][0] && vs[2..] == vs[1..][1..];
    }
    PairVerdict(fm, ItemValues(fm, items), r, path, acc, seen);
  }

  lemma {:induction false} PairVerdict(fm: FloatFormat, vs: seq<Value>, r: Role, path: Path, acc: seq<Field>,
                                       seen: set<bytes>)
    ensures FieldsJudged(fm, vs, r, path, acc, seen) ==
            if |vs| < 2 then Ok(acc)
            else
              match MemberJudged(fm, vs[0], vs[1], r, path, seen)
              case Err(e) => Err(e)
              case Ok(f) => FieldsJudged(fm, vs[2..], r, path, acc + [f], seen + {f.name})
  {
    hide MemberJudged;
  }

  lemma {:induction false} TableJudged(fm: FloatFormat, i: Item, rest: bytes, r: Role, path: Path)
    requires i.Table? && WellFormed(i) && ItemsWellFormed(i.items)
    requires DecodeFields(fm, ItemsBytes(i.items, i.form == Open) + rest, CountOf(i.form == Open, |i.items| / 2),
                          r, path, [], {})
             == Reached(FieldsJudged(fm, ItemValues(fm, i.items), r, path, [], {}), rest)
    ensures DecodeBody(fm, HeadOf(i), BodyBytes(i) + rest, r, path)
            == Reached(Judged(fm, ItemValue(fm, i), r, path), rest)
  {
    hide DecodeFields, FieldsJudged, ItemValues, ItemsBytes, ItemsWellFormed, Fits;
  }

  /** The verdict is the converted value exactly where there is one. */
  lemma JudgedConverts(fm: FloatFormat, i: Item, r: Role, path: Path)
    requires WellFormed(i)
    ensures var (verdict, j) := (Judged(fm, ItemValue(fm, i), r, path), Convert(fm, ItemValue(fm, i), r));
            verdict.Ok? == j.Some? && (verdict.Ok? ==> verdict.value == j.value)
  {
    hide *;
    ItemJudged(fm, i, [], r, path);
    ReachedMeans(Judged(fm, ItemValue(fm, i), r, path), []);
    ItemAgrees(fm, Serial(i) + [], r, path);
    ParseExact(i, []);
    AgreesWith(fm, Serial(i) + [], i, r, path);
  }

  lemma {:induction false} AgreesWith(fm: FloatFormat, s: bytes, i: Item, r: Role, path: Path)
    requires Agrees(DecodeItem(fm, s, r, path), Then(fm, ParseItem(s), r)) && ParseItem(s) == Some((i, []))
    ensures var (res, j) := (DecodeItem(fm, s, r, path), Convert(fm, ItemValue(fm, i), r));
            res.Ok? == j.Some? && (res.Ok? ==> res.value == (j.value, []))
  {
    hide DecodeItem, ParseItem, Convert, ItemValue;
  }

  // ----- Bundles -----

  /** However a map is spelled, tagged or not and whatever follows, the whole result is the
      verdict on its value. */
  lemma BundleJudged(fm: FloatFormat, a: Item, tagged: bool, x: bytes)
    requires WellFormed(a) && a.Table?
    ensures DecodeBundle(fm, (if tagged then SELF_DESCRIBED else []) + Serial(a) + x)
            == Judged(fm, ItemValue(fm, a), Bundle, [])
  {
    hide *;
    var data := (if tagged then SELF_DESCRIBED else []) + Serial(a) + x;
    MapByte(a);
    UntaggedIs(Serial(a) + x, tagged);
    assert data == (if tagged then SELF_DESCRIBED else []) + (Serial(a) + x);
    HeadRead(a, x);
    MapMajor(a);
    ItemJudged(fm, a, x, Bundle, []);
    ReachedMeans(Judged(fm, ItemValue(fm, a), Bundle, []), x);
    BundleIsItem(fm, data, HeadOf(a));
  }

  lemma MapMajor(a: Item)
    requires WellFormed(a) && a.Table?
    ensures HeadOf(a).major == 5
  {
    hide ItemsWellFormed, Fits;
  }

  lemma {:induction false} BundleIsItem(fm: FloatFormat, data: bytes, h: Head)
    requires CborHead(Untagged(data)) == Ok(h) && h.major == 5
    ensures DecodeBundle(fm, data) ==
            match DecodeItem(fm, Untagged(data), Bundle, [])
            case Err(e) => Err(e)
            case Ok((j, _)) => Ok(j)
  {
    hide CborHead, Untagged, DecodeItem;
  }

  /** Two well-formed spellings of a map with the same value, whatever their head
      widths, chunking, indefinite lengths, tag and trailing bytes, have the same result:
      the same JSON, or the same refusal at the same path. */
  lemma RepresentationIndependence(fm: FloatFormat, a: Item, b: Item, tagA: bool, tagB: bool, x: bytes, y: bytes)
    requires WellFormed(a) && WellFormed(b) && a.Table? && b.Table?
    requires ItemValue(fm, a) == ItemValue(fm, b)
    ensures DecodeBundle(fm, (if tagA then SELF_DESCRIBED else []) + Serial(a) + x)
            == DecodeBundle(fm, (if tagB then SELF_DESCRIBED else []) + Serial(b) + y)
  {
    hide *;
    BundleJudged(fm, a, tagA, x);
    BundleJudged(fm, b, tagB, y);
  }
}
