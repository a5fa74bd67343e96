/**
 The one-pass reading of a CBOR bundle, error by error, and its refinement: it
 succeeds exactly when the bytes parse and the value converts, with that result.
 */
module BundleDecode {
  import opened Bytes
  import opened CborSyntax
  import opened JsonTree
  import opened BundleValue
  import Numbers
  import TextEncodings

  // ----- Errors -----

  datatype Step = Key(name: bytes) | Index(i: nat)

  type Path = seq<Step>

  datatype Error =
    | Malformed(detail: Detail)                        // not_a_json_object
    | InvalidSubjectData(path: Path, refused: Refusal) // invalid_subject_data

  datatype Detail =
    | BadHead(e: HeadError) | TruncatedString | TruncatedChunks | BadChunk | UnexpectedBreak
    | KeyNotText(isBytes: bool, where: Path) | DuplicateKey(key: bytes, where: Path) | NotAMap

  datatype Refusal =
    | ByteString | BadUtf8 | TagItem(tag: uint64) | Undefined | SimpleValue(n: nat) | NonFinite
    | KeyIsNotText(isBytes: bool) | KeyBadUtf8

  // ----- The pass -----

  /** The content of a byte or text string whose head is `h`. */
  function StringContent(text: bool, h: Head, s: bytes): (r: Result<(bytes, bytes), Error>)
    ensures r.Ok? ==> |r.value.1| <= |s|
  {
    if h.form == Open then ChunkedContent(text, s, [])
    else if h.arg > |s| then Err(Malformed(TruncatedString))
    else Ok((s[..h.arg], s[h.arg..]))
  }

  function ChunkedContent(text: bool, s: bytes, acc: bytes): (r: Result<(bytes, bytes), Error>)
    ensures r.Ok? ==> |r.value.1| <= |s|
    decreases |s|
  {
    if s == [] then Err(Malformed(TruncatedChunks))
    else if s[0] == BREAK then Ok((acc, s[1..]))
    else
      match CborHead(s)
      case Err(_) => Err(Malformed(BadChunk))
      case Ok(h) =>
        if h.major != StringMajor(text) || h.form == Open then Err(Malformed(BadChunk))
        else if h.arg > |s| - h.Len() then Err(Malformed(TruncatedString))
        else ChunkedContent(text, s[h.Len() + h.arg..], acc + s[h.Len()..h.Len() + h.arg])
  }

  function BytesJson(b: bytes, r: Role, path: Path): Result<Json, Error> {
    match r
    case Hashed => Err(InvalidSubjectData(path, ByteString))
    case Base64Slot => Ok(JStr(TextEncodings.Base64(b)))
    case TextSlot => Ok(JNull)
    case _ => Ok(JStr(TextEncodings.Hex(b)))
  }

  function TextJson(t: bytes, r: Role, path: Path): Result<Json, Error> {
    match TextOf(t, r)
    case None => Err(InvalidSubjectData(path, BadUtf8))
    case Some(s) => Ok(JStr(s))
  }

  function SimpleJson(fm: FloatFormat, h: Head, r: Role, path: Path): Result<Json, Error> {
    if h.form == Open then Err(Malformed(UnexpectedBreak))
    else if h.form == Tiny || h.form == One then
      if h.arg == 20 then Ok(JBool(false))
      else if h.arg == 21 then Ok(JBool(true))
      else if h.arg == 22 then Ok(JNull)
      else if r == Hashed then
        Err(InvalidSubjectData(path, if h.arg == 23 then Undefined else SimpleValue(h.arg)))
      else Ok(JNull)
    else if Finite(fm.widen(h.form, h.arg)) then Ok(JNum(fm.literal(fm.widen(h.form, h.arg))))
    else if r == Hashed then Err(InvalidSubjectData(path, NonFinite))
    else Ok(JNull)
  }

  function WithRest(j: Result<Json, Error>, rest: bytes): Result<(Json, bytes), Error> {
    match j
    case Err(e) => Err(e)
    case Ok(v) => Ok((v, rest))
  }

  /** Converts the item at the start of `s`; the rest of `s` follows it. */
  function DecodeItem(fm: FloatFormat, s: bytes, r: Role, path: Path): (res: Result<(Json, bytes), Error>)
    ensures res.Ok? ==> |res.value.1| < |s|
    decreases |s|, 0
  {
    match CborHead(s)
    case Err(e) => Err(Malformed(BadHead(e)))
    case Ok(h) => DecodeBody(fm, h, s[h.Len()..], r, path)
  }

  function DecodeBody(fm: FloatFormat, h: Head, s: bytes, r: Role, path: Path): (res: Result<(Json, bytes), Error>)
    ensures res.Ok? ==> |res.value.1| <= |s|
    decreases |s|, 3
  {
    match h.major
    case 0 => Ok((JNum(Numbers.IntLiteral(h.arg)), s))
    case 1 => Ok((JNum(Numbers.IntLiteral(-1 - h.arg)), s))
    case 2 =>
      (match StringContent(false, h, s)
       case Err(e) => Err(e)
       case Ok((content, rest)) => WithRest(BytesJson(content, r, path), rest))
    case 3 =>
      (match StringContent(true, h, s)
       case Err(e) => Err(e)
       case Ok((content, rest)) => WithRest(TextJson(content, r, path), rest))
    case 4 =>
      (match DecodeElems(fm, s, if h.form == Open then None else Some(h.arg), ElementRole(r), path, [])
       case Err(e) => Err(e)
       case Ok((js, rest)) => Ok((JArr(js), rest)))
    case 5 =>
      (match DecodeFields(fm, s, if h.form == Open then None else Some(h.arg), r, path, [], {})
       case Err(e) => Err(e)
       case Ok((fields, rest)) => Ok((JObj(fields), rest)))
    case 6 =>
      if r == Hashed then Err(InvalidSubjectData(path, TagItem(h.arg))) else DecodeItem(fm, s, r, path)
    case _ => WithRest(SimpleJson(fm, h, r, path), s)
  }

  predicate AtBreak(s: bytes) {
    s != [] && s[0] == BREAK
  }

  /** The loop over array elements, with those already converted in `acc`. */
  function DecodeElems(fm: FloatFormat, s: bytes, count: Option<nat>, er: Role, path: Path, acc: seq<Json>)
    : (res: Result<(seq<Json>, bytes), Error>)
    ensures res.Ok? ==> |res.value.1| <= |s|
    decreases |s|, 1
  {
    if count.Some? && |acc| >= count.value then Ok((acc, s))
    else if count.None? && AtBreak(s) then Ok((acc, s[1..]))
    else
      match DecodeItem(fm, s, er, path + [Index(|acc|)])
      case Err(e) => Err(e)
      case Ok((j, rest)) => DecodeElems(fm, rest, count, er, path, acc + [j])
  }

  function DecodeKey(s: bytes, r: Role, path: Path): (res: Result<(bytes, bytes), Error>)
    ensures res.Ok? ==> |res.value.1| < |s|
  {
    match CborHead(s)
    case Err(e) => Err(Malformed(BadHead(e)))
    case Ok(h) =>
      if h.major != 3 then
        if r == Hashed then Err(InvalidSubjectData(path, KeyIsNotText(h.major == 2)))
        else Err(Malformed(KeyNotText(h.major == 2, path)))
      else
        match StringContent(true, h, s[h.Len()..])
        case Err(e) => Err(e)
        case Ok((content, rest)) =>
          match TextOf(content, r)
          case None => Err(InvalidSubjectData(path, KeyBadUtf8))
          case Some(key) => Ok((key, rest))
  }

  /** One map member: its key, which must be new, and its value. */
  function DecodeMember(fm: FloatFormat, s: bytes, r: Role, path: Path, seen: set<bytes>)
    : (res: Result<(Field, bytes), Error>)
    ensures res.Ok? ==> |res.value.1| < |s|
    decreases |s|, 1
  {
    match DecodeKey(s, r, path)
    case Err(e) => Err(e)
    case Ok((key, s1)) =>
      if key in seen then Err(Malformed(DuplicateKey(key, path)))
      else
        match DecodeItem(fm, s1, ChildRole(r, key), path + [Key(key)])
        case Err(e) => Err(e)
        case Ok((j, rest)) => Ok((Field(key, j), rest))
  }

  /** The loop over map members, with those already converted in `acc` and their
      keys in `seen`. */
  function DecodeFields(fm: FloatFormat, s: bytes, count: Option<nat>, r: Role, path: Path,
                        acc: seq<Field>, seen: set<bytes>)
    : (res: Result<(seq<Field>, bytes), Error>)
    ensures res.Ok? ==> |res.value.1| <= |s|
    decreases |s|, 2
  {
    if count.Some? && |acc| >= count.value then Ok((acc, s))
    else if count.None? && AtBreak(s) then Ok((acc, s[1..]))
    else
      match DecodeMember(fm, s, r, path, seen)
      case Err(e) => Err(e)
      case Ok((f, rest)) => DecodeFields(fm, rest, count, r, path, acc + [f], seen + {f.name})
  }

  // ----- The reference: parse, then convert -----

  function Then(fm: FloatFormat, parsed: Option<(Item, bytes)>, r: Role): Option<(Json, bytes)> {
    match parsed
    case None => None
    case Some((i, rest)) =>
      match Convert(fm, ItemValue(fm, i), r)
      case None => None
      case Some(j) => Some((j, rest))
  }

  function ThenItems(fm: FloatFormat, parsed: Option<(seq<Item>, bytes)>, er: Role): Option<(seq<Json>, bytes)> {
    match parsed
    case None => None
    case Some((items, rest)) =>
      match ConvertItems(fm, ItemValues(fm, items), er)
      case None => None
      case Some(js) => Some((js, rest))
  }

  function ThenPairs(fm: FloatFormat, parsed: Option<(seq<Item>, bytes)>, r: Role, seen: set<bytes>)
    : Option<(seq<Field>, bytes)>
  {
    match parsed
    case None => None
    case Some((items, rest)) =>
      match ConvertPairs(fm, ItemValues(fm, items), r, seen)
      case None => None
      case Some(fields) => Some((fields, rest))
  }

  /** Same success, same result. */
  ghost predicate Agrees<T>(res: Result<T, Error>, ref: Option<T>) {
    res.Ok? == ref.Some? && (res.Ok? ==> res.value == ref.value)
  }

  // ----- Refinement -----

  /** How many items are still to come after `done` of them. */
  function Left(count: Option<nat>, done: nat): Option<nat> {
    if count.None? then None else if done >= count.value then Some(0) else Some(count.value - done)
  }

  function Twice(left: Option<nat>): Option<nat> {
    if left.None? then None else Some(2 * left.value)
  }

  function Less(left: Option<nat>): Option<nat>
    requires left != Some(0)
  {
    if left.None? then None else Some(left.value - 1)
  }

  lemma {:induction false} LeftStep(count: Option<nat>, done: nat)
    requires !(count.Some? && done >= count.value)
    ensures Left(count, done) != Some(0) && Less(Left(count, done)) == Left(count, done + 1)
    ensures Twice(Left(count, done)) != Some(0) && Less(Twice(Left(count, done))) != Some(0)
    ensures Less(Less(Twice(Left(count, done)))) == Twice(Left(count, done + 1))
    ensures Left(count, done).None? == count.None? && Twice(Left(count, done)).None? == count.None?
  {
  }

  lemma {:induction false} ChunkedAgrees(text: bool, s: bytes, acc: bytes)
    ensures var res, ref := ChunkedContent(text, s, acc), ParseChunks(text, s);
            && res.Ok? == ref.Some?
            && (res.Ok? ==> res.value == (acc + Joined(ref.value.0), ref.value.1))
    decreases |s|
  {
    hide CborHead;
    if s == [] {
    } else if s[0] == BREAK {
      assert acc + [] == acc;
    } else if CborHead(s).Ok? {
      var h := CborHead(s).value;
      if !(h.major != StringMajor(text) || h.form == Open || h.arg > |s| - h.Len()) {
        var c, t := s[h.Len()..h.Len() + h.arg], s[h.Len() + h.arg..];
        ChunkedAgrees(text, t, acc + c);
        if ParseChunks(text, t).Some? {
          JoinedCons(acc, Chunk(h.form, c), ParseChunks(text, t).value.0);
        }
      }
    }
  }

  lemma {:induction false} JoinedCons(acc: bytes, c: Chunk, chunks: seq<Chunk>)
    ensures acc + Joined([c] + chunks) == (acc + c.content) + Joined(chunks)
  {
    assert ([c] + chunks)[1..] == chunks;
  }

  lemma {:induction false} ContentAgrees(fm: FloatFormat, text: bool, h: Head, s: bytes)
    requires h.major == StringMajor(text)
    ensures var res, ref := StringContent(text, h, s), ParseBody(h, s);
            && res.Ok? == ref.Some?
            && (res.Ok? ==>
                  && ref.value.1 == res.value.1
                  && ItemValue(fm, ref.value.0) == if text then VText(res.value.0) else VBytes(res.value.0))
  {
    if h.form == Open {
      ChunkedAgrees(text, s, []);
      if ParseChunks(text, s).Some? {
        assert [] + Joined(ParseChunks(text, s).value.0) == Joined(ParseChunks(text, s).value.0);
      }
    }
  }

  /** The one-pass reading of an item equals parsing it and converting its value. */
  lemma {:induction false} ItemAgrees(fm: FloatFormat, s: bytes, r: Role, path: Path)
    ensures Agrees(DecodeItem(fm, s, r, path), Then(fm, ParseItem(s), r))
    decreases |s|, 0
  {
    if CborHead(s).Ok? {
      var h := CborHead(s).value;
      BodyAgrees(fm, h, s[h.Len()..], r, path);
    }
  }

  lemma {:induction false} BodyAgrees(fm: FloatFormat, h: Head, s: bytes, r: Role, path: Path)
    requires h.major < 8
    ensures Agrees(DecodeBody(fm, h, s, r, path), Then(fm, ParseBody(h, s), r))
    decreases |s|, 2
  {
    hide *;
    match h.major
    case 2 => StringAgrees(fm, false, h, s, r, path);
    case 3 => StringAgrees(fm, true, h, s, r, path);
    case 4 =>
      ElemsAgree(fm, s, if h.form == Open then None else Some(h.arg), ElementRole(r), path, []);
      ArrayAgrees(fm, h, s, r, path);
    case 5 =>
      FieldsAgree(fm, s, if h.form == Open then None else Some(h.arg), r, path, [], {});
      ObjectAgrees(fm, h, s, r, path);
    case 6 =>
      ItemAgrees(fm, s, r, path);
      TagAgrees(fm, h, s, r, path);
    case _ =>
      ScalarAgrees(fm, h, s, r, path);
  }

  lemma {:induction false} StringAgrees(fm: FloatFormat, text: bool, h: Head, s: bytes, r: Role, path: Path)
    requires h.major == if text then 3 else 2
    ensures Agrees(DecodeBody(fm, h, s, r, path), Then(fm, ParseBody(h, s), r))
  {
    hide StringContent, ParseStringBody, ItemValue, TextOf;
    ContentAgrees(fm, text, h, s);
  }

  lemma {:induction false} ScalarAgrees(fm: FloatFormat, h: Head, s: bytes, r: Role, path: Path)
    requires h.major in {0, 1, 7}
    ensures Agrees(DecodeBody(fm, h, s, r, path), Then(fm, ParseBody(h, s), r))
  {
  }

  ghost predicate ElemsAgreeFrom(fm: FloatFormat, s: bytes, count: Option<nat>, er: Role, path: Path, acc: seq<Json>) {
    var res, ref := DecodeElems(fm, s, count, er, path, acc), ThenItems(fm, ParseItems(s, Left(count, |acc|)), er);
    && res.Ok? == ref.Some?
    && (res.Ok? ==> res.value == (acc + ref.value.0, ref.value.1))
  }

  lemma {:induction false} ArrayAgrees(fm: FloatFormat, h: Head, s: bytes, r: Role, path: Path)
    requires h.major == 4
    requires ElemsAgreeFrom(fm, s, if h.form == Open then None else Some(h.arg), ElementRole(r), path, [])
    ensures Agrees(DecodeBody(fm, h, s, r, path), Then(fm, ParseBody(h, s), r))
  {
    hide DecodeElems, ParseItems, ConvertItems, ItemValues, ElementRole, ElemsAgreeFrom, ThenItems, DecodeBody,
      ParseBody, Then, Left, Convert;
    var count := if h.form == Open then None else Some(h.arg);
    ElemsAgreeInFull(fm, s, count, ElementRole(r), path);
    ArrayShapes(fm, h, s, r, path);
  }

  lemma {:induction false} ElemsAgreeInFull(fm: FloatFormat, s: bytes, count: Option<nat>, er: Role, path: Path)
    requires ElemsAgreeFrom(fm, s, count, er, path, [])
    ensures var res, parsed := DecodeElems(fm, s, count, er, path, []), ParseItems(s, count);
            if parsed.None? || ConvertItems(fm, ItemValues(fm, parsed.value.0), er).None? then res.Err?
            else res == Ok((ConvertItems(fm, ItemValues(fm, parsed.value.0), er).value, parsed.value.1))
  {
    hide DecodeElems, ParseItems, ConvertItems, ItemValues;
    var parsed := ParseItems(s, count);
    assert Left(count, 0) == count;
    if parsed.Some? && ConvertItems(fm, ItemValues(fm, parsed.value.0), er).Some? {
      var js := ConvertItems(fm, ItemValues(fm, parsed.value.0), er).value;
      assert [] + js == js;
    }
  }

  /** How both sides treat the elements of an array. */
  lemma {:induction false} ArrayShapes(fm: FloatFormat, h: Head, s: bytes, r: Role, path: Path)
    requires h.major == 4
    ensures DecodeBody(fm, h, s, r, path) ==
            match DecodeElems(fm, s, if h.form == Open then None else Some(h.arg), ElementRole(r), path, [])
            case Err(e) => Err(e)
            case Ok((js, rest)) => Ok((JArr(js), rest))
    ensures Then(fm, ParseBody(h, s), r) ==
            match ParseItems(s, if h.form == Open then None else Some(h.arg))
            case None => None
            case Some((items, rest)) =>
              match ConvertItems(fm, ItemValues(fm, items), ElementRole(r))
              case None => None
              case Some(js) => Some((JArr(js), rest))
  {
    hide DecodeElems, ParseItems, ConvertItems, ItemValues, ElementRole;
  }

  lemma {:induction false} TagAgrees(fm: FloatFormat, h: Head, s: bytes, r: Role, path: Path)
    requires h.major == 6 && Agrees(DecodeItem(fm, s, r, path), Then(fm, ParseItem(s), r))
    ensures Agrees(DecodeBody(fm, h, s, r, path), Then(fm, ParseBody(h, s), r))
  {
    hide DecodeItem, ParseItem;
  }

  lemma {:induction false} ElemsAgree(fm: FloatFormat, s: bytes, count: Option<nat>, er: Role, path: Path,
                                      acc: seq<Json>)
    ensures ElemsAgreeFrom(fm, s, count, er, path, acc)
    decreases |s|, 1
  {
    if (count.Some? && |acc| >= count.value) || (count.None? && AtBreak(s)) {
      assert acc + [] == acc;
    } else {
      ItemAgrees(fm, s, er, path + [Index(|acc|)]);
      if DecodeItem(fm, s, er, path + [Index(|acc|)]).Ok? {
        var (j, rest) := DecodeItem(fm, s, er, path + [Index(|acc|)]).value;
        ElemsAgree(fm, rest, count, er, path, acc + [j]);
      }
      ElemsStep(fm, s, count, er, path, acc);
    }
  }

  lemma {:induction false} ElemsStep(fm: FloatFormat, s: bytes, count: Option<nat>, er: Role, path: Path,
                                     acc: seq<Json>)
    requires !(count.Some? && |acc| >= count.value) && !(count.None? && AtBreak(s))
    requires Agrees(DecodeItem(fm, s, er, path + [Index(|acc|)]), Then(fm, ParseItem(s), er))
    requires var first := DecodeItem(fm, s, er, path + [Index(|acc|)]);
             first.Ok? ==> ElemsAgreeFrom(fm, first.value.1, count, er, path, acc + [first.value.0])
    ensures ElemsAgreeFrom(fm, s, count, er, path, acc)
  {
    hide DecodeItem, ParseItem, ItemValue, Convert, ElemsAgreeFrom;
    var first := DecodeItem(fm, s, er, path + [Index(|acc|)]);
    if first.Ok? {
      ElemsAccepted(fm, s, count, er, path, acc, ParseItem(s).value.0, first.value.1, first.value.0);
    } else {
      ElemsRefused(fm, s, count, er, path, acc);
    }
  }

  /** A refused element is refused on both sides. */
  lemma {:induction false} ElemsRefused(fm: FloatFormat, s: bytes, count: Option<nat>, er: Role, path: Path,
                                        acc: seq<Json>)
    requires !(count.Some? && |acc| >= count.value) && !(count.None? && AtBreak(s))
    requires DecodeItem(fm, s, er, path + [Index(|acc|)]).Err?
    requires ParseItem(s).None? || Convert(fm, ItemValue(fm, ParseItem(s).value.0), er).None?
    ensures ElemsAgreeFrom(fm, s, count, er, path, acc)
  {
    hide Left, Less, AtBreak, DecodeItem, ParseItem, ItemValue, ItemValues, ParseItems, Convert, ConvertItems,
      DecodeElems;
    var left := Left(count, |acc|);
    LeftStep(count, |acc|);
    ItemsUnfold(s, left);
    ElemsUnfold(fm, s, count, er, path, acc);
    if ParseItems(s, left).Some? {
      ConsConverted(fm, ParseItem(s).value.0, ParseItems(ParseItem(s).value.1, Less(left)).value.0, er);
    }
  }

  /** An accepted element: both sides carry on after it. */
  lemma {:induction false} ElemsAccepted(fm: FloatFormat, s: bytes, count: Option<nat>, er: Role, path: Path,
                                         acc: seq<Json>, i: Item, s1: bytes, j: Json)
    requires !(count.Some? && |acc| >= count.value) && !(count.None? && AtBreak(s))
    requires DecodeItem(fm, s, er, path + [Index(|acc|)]) == Ok((j, s1))
    requires ParseItem(s) == Some((i, s1)) && Convert(fm, ItemValue(fm, i), er) == Some(j)
    requires ElemsAgreeFrom(fm, s1, count, er, path, acc + [j])
    ensures ElemsAgreeFrom(fm, s, count, er, path, acc)
  {
    hide Left, Less, AtBreak, DecodeItem, ParseItem, ItemValue, ItemValues, ParseItems, Convert, ConvertItems,
      DecodeElems;
    var left := Left(count, |acc|);
    LeftStep(count, |acc|);
    ItemsUnfold(s, left);
    ElemsUnfold(fm, s, count, er, path, acc);
    var parsed := ParseItems(s1, Less(left));
    if parsed.Some? {
      ConsConverted(fm, i, parsed.value.0, er);
      var js := ConvertItems(fm, ItemValues(fm, parsed.value.0), er);
      if js.Some? { assert acc + ([j] + js.value) == (acc + [j]) + js.value; }
      assert |acc + [j]| == |acc| + 1;
    }
  }

  lemma {:induction false} ItemsUnfold(s: bytes, left: Option<nat>)
    requires left != Some(0) && !(left.None? && AtBreak(s))
    ensures ParseItems(s, left) ==
            match ParseItem(s)
            case None => None
            case Some((i, s1)) =>
              match ParseItems(s1, Less(left))
              case None => None
              case Some((items, rest)) => Some(([i] + items, rest))
  {
    hide ParseItem;
  }

  lemma {:induction false} ElemsUnfold(fm: FloatFormat, s: bytes, count: Option<nat>, er: Role, path: Path,
                                       acc: seq<Json>)
    requires !(count.Some? && |acc| >= count.value) && !(count.None? && AtBreak(s))
    ensures DecodeElems(fm, s, count, er, path, acc) ==
            match DecodeItem(fm, s, er, path + [Index(|acc|)])
            case Err(e) => Err(e)
            case Ok((j, rest)) => DecodeElems(fm, rest, count, er, path, acc + [j])
  {
    hide DecodeItem;
  }

  lemma {:induction false} ConsConverted(fm: FloatFormat, i: Item, items: seq<Item>, er: Role)
    ensures var v, vs := ItemValue(fm, i), ItemValues(fm, items);
            ConvertItems(fm, ItemValues(fm, [i] + items), er) ==
            if Convert(fm, v, er).Some? && ConvertItems(fm, vs, er).Some?
            then Some([Convert(fm, v, er).value] + ConvertItems(fm, vs, er).value) else None
  {
    hide ItemValue, Convert;
    assert ([i] + items)[1..] == items;
    assert ItemValues(fm, [i] + items) == [ItemValue(fm, i)] + ItemValues(fm, items);
    assert ([ItemValue(fm, i)] + ItemValues(fm, items))[1..] == ItemValues(fm, items);
  }

  ghost predicate FieldsAgreeFrom(fm: FloatFormat, s: bytes, count: Option<nat>, r: Role, path: Path,
                                  acc: seq<Field>, seen: set<bytes>) {
    var res := DecodeFields(fm, s, count, r, path, acc, seen);
    var ref := ThenPairs(fm, ParseItems(s, Twice(Left(count, |acc|))), r, seen);
    && res.Ok? == ref.Some?
    && (res.Ok? ==> res.value == (acc + ref.value.0, ref.value.1))
  }

  lemma {:induction false} PairsAreEven(fm: FloatFormat, vs: seq<Value>, r: Role, seen: set<bytes>)
    requires ConvertPairs(fm, vs, r, seen).Some?
    ensures |vs| % 2 == 0
    decreases |vs|
  {
    if vs != [] {
      PairsAreEven(fm, vs[2..], r, seen + {TextOf(vs[0].t, r).value});
    }
  }

  lemma {:induction false} ObjectAgrees(fm: FloatFormat, h: Head, s: bytes, r: Role, path: Path)
    requires h.major == 5
    requires FieldsAgreeFrom(fm, s, if h.form == Open then None else Some(h.arg), r, path, [], {})
    ensures Agrees(DecodeBody(fm, h, s, r, path), Then(fm, ParseBody(h, s), r))
  {
    var count, left := if h.form == Open then None else Some(h.arg), if h.form == Open then None else Some(2 * h.arg);
    FieldsAgreeInFull(fm, s, count, left, r, path);
    ObjectShapes(fm, h, s, r, path);
    hide DecodeFields, DecodeBody, ParseBody, ParseItems, ConvertPairs, ItemValues, Convert, FieldsAgreeFrom, Then,
      Twice, Left, ThenPairs;
  }

  lemma {:induction false} FieldsAgreeInFull(fm: FloatFormat, s: bytes, count: Option<nat>, left: Option<nat>, r: Role,
                                             path: Path)
    requires FieldsAgreeFrom(fm, s, count, r, path, [], {}) && left == Twice(Left(count, 0))
    ensures var res, parsed := DecodeFields(fm, s, count, r, path, [], {}), ParseItems(s, left);
            if parsed.None? || ConvertPairs(fm, ItemValues(fm, parsed.value.0), r, {}).None? then res.Err?
            else && |parsed.value.0| % 2 == 0
                 && res == Ok((ConvertPairs(fm, ItemValues(fm, parsed.value.0), r, {}).value, parsed.value.1))
  {
    hide DecodeFields, ParseItems, ConvertPairs, ItemValues, Twice, Left;
    var parsed := ParseItems(s, left);
    if parsed.Some? && ConvertPairs(fm, ItemValues(fm, parsed.value.0), r, {}).Some? {
      PairsAreEven(fm, ItemValues(fm, parsed.value.0), r, {});
      var fields := ConvertPairs(fm, ItemValues(fm, parsed.value.0), r, {}).value;
      assert [] + fields == fields;
    }
  }

  /** How both sides treat the members of a map, odd counts included. */
  lemma {:induction false} ObjectShapes(fm: FloatFormat, h: Head, s: bytes, r: Role, path: Path)
    requires h.major == 5
    ensures DecodeBody(fm, h, s, r, path) ==
            match DecodeFields(fm, s, if h.form == Open then None else Some(h.arg), r, path, [], {})
            case Err(e) => Err(e)
            case Ok((fields, rest)) => Ok((JObj(fields), rest))
    ensures Then(fm, ParseBody(h, s), r) ==
            match ParseItems(s, if h.form == Open then None else Some(2 * h.arg))
            case None => None
            case Some((items, rest)) =>
              if |items| % 2 != 0 then None
              else
                match ConvertPairs(fm, ItemValues(fm, items), r, {})
                case None => None
                case Some(fields) => Some((JObj(fields), rest))
  {
    hide DecodeFields, ParseItems, ConvertPairs, ItemValues;
  }

  lemma {:induction false} KeyAgrees(fm: FloatFormat, s: bytes, r: Role, path: Path)
    ensures var key := DecodeKey(s, r, path);
            && (key.Ok? <==> ParseItem(s).Some? && KeyOf(fm, ParseItem(s).value.0, r).Some?)
            && (key.Ok? ==> key.value == (KeyOf(fm, ParseItem(s).value.0, r).value, ParseItem(s).value.1))
  {
    if CborHead(s).Ok? {
      var h := CborHead(s).value;
      if h.major == 3 {
        ContentAgrees(fm, true, h, s[h.Len()..]);
        hide CborHead, StringContent, ItemValues, Joined;
      } else {
        NotTextKey(fm, s, r);
        hide CborHead, StringContent, ParseItem, KeyOf;
      }
    }
  }

  lemma {:induction false} NotTextKey(fm: FloatFormat, s: bytes, r: Role)
    requires CborHead(s).Ok? && CborHead(s).value.major != 3
    ensures ParseItem(s).Some? ==> KeyOf(fm, ParseItem(s).value.0, r).None?
  {
    hide CborHead, ItemValues, Joined, TextOf;
  }

  /** The emitted name of a key item, or None if it cannot be one. */
  function KeyOf(fm: FloatFormat, i: Item, r: Role): Option<bytes> {
    var v := ItemValue(fm, i);
    if v.VText? then TextOf(v.t, r) else None
  }

  lemma {:induction false} FieldsAgree(fm: FloatFormat, s: bytes, count: Option<nat>, r: Role, path: Path,
                                       acc: seq<Field>, seen: set<bytes>)
    ensures FieldsAgreeFrom(fm, s, count, r, path, acc, seen)
    decreases |s|, 1
  {
    if (count.Some? && |acc| >= count.value) || (count.None? && AtBreak(s)) {
      assert acc + [] == acc;
    } else {
      KeyAgrees(fm, s, r, path);
      if DecodeKey(s, r, path).Ok? {
        var (key, s1) := DecodeKey(s, r, path).value;
        var child := DecodeItem(fm, s1, ChildRole(r, key), path + [Key(key)]);
        ItemAgrees(fm, s1, ChildRole(r, key), path + [Key(key)]);
        if child.Ok? {
          FieldsAgree(fm, child.value.1, count, r, path, acc + [Field(key, child.value.0)], seen + {key});
        }
      }
      FieldsStep(fm, s, count, r, path, acc, seen);
    }
  }

  lemma {:induction false} FieldsStep(fm: FloatFormat, s: bytes, count: Option<nat>, r: Role, path: Path,
                                      acc: seq<Field>, seen: set<bytes>)
    requires !(count.Some? && |acc| >= count.value) && !(count.None? && AtBreak(s))
    requires var key := DecodeKey(s, r, path);
             && (key.Ok? <==> ParseItem(s).Some? && KeyOf(fm, ParseItem(s).value.0, r).Some?)
             && (key.Ok? ==> key.value == (KeyOf(fm, ParseItem(s).value.0, r).value, ParseItem(s).value.1))
             && (key.Ok? ==>
                   var child := DecodeItem(fm, key.value.1, ChildRole(r, key.value.0), path + [Key(key.value.0)]);
                   && Agrees(child, Then(fm, ParseItem(key.value.1), ChildRole(r, key.value.0)))
                   && (child.Ok? ==>
                         FieldsAgreeFrom(fm, child.value.1, count, r, path,
                                         acc + [Field(key.value.0, child.value.0)], seen + {key.value.0})))
    ensures FieldsAgreeFrom(fm, s, count, r, path, acc, seen)
  {
    var left := Twice(Left(count, |acc|));
    LeftStep(count, |acc|);
    var parsed, key := ParseItems(s, left), DecodeKey(s, r, path);
    if parsed.Some? { FirstParsed(s, left); }
    if !key.Ok? || key.value.0 in seen {
      FieldsRefused(fm, s, count, r, path, acc, seen);
    } else {
      hide *;
      var cr := ChildRole(r, key.value.0);
      var child := DecodeItem(fm, key.value.1, cr, path + [Key(key.value.0)]);
      if child.Ok? {
        FieldsAccepted(fm, s, count, r, path, acc, seen, key.value.0, key.value.1, child.value.0, child.value.1);
      } else {
        ChildRefused(fm, s, count, r, path, acc, seen, key.value.0, key.value.1);
      }
    }
  }

  lemma {:induction false} FirstParsed(s: bytes, left: Option<nat>)
    requires left != Some(0) && !(left.None? && AtBreak(s)) && ParseItems(s, left).Some?
    ensures ParseItem(s).Some?
    ensures var items := ParseItems(s, left).value.0; items != [] && items[0] == ParseItem(s).value.0
  {
    hide ParseItem;
  }

  lemma {:induction false} FirstValue(fm: FloatFormat, items: seq<Item>)
    requires items != []
    ensures var vs := ItemValues(fm, items);
            vs[0] == ItemValue(fm, items[0]) && vs[1..] == ItemValues(fm, items[1..])
  {
    hide ItemValue;
  }

  /** A bad key, or one already seen, is refused on both sides. */
  lemma {:induction false} FieldsRefused(fm: FloatFormat, s: bytes, count: Option<nat>, r: Role, path: Path,
                                         acc: seq<Field>, seen: set<bytes>)
    requires !(count.Some? && |acc| >= count.value) && !(count.None? && AtBreak(s))
    requires var key := DecodeKey(s, r, path);
             if key.Ok? then
               && key.value.0 in seen && ParseItem(s).Some?
               && KeyOf(fm, ParseItem(s).value.0, r) == Some(key.value.0)
             else ParseItem(s).None? || KeyOf(fm, ParseItem(s).value.0, r).None?
    ensures FieldsAgreeFrom(fm, s, count, r, path, acc, seen)
  {
    hide *;
    LeftStep(count, |acc|);
    KeyRefused(fm, s, count, r, path, acc, seen);
    FirstKeyRefused(fm, s, Twice(Left(count, |acc|)), r, seen);
    BothRefuse(fm, s, count, r, path, acc, seen);
  }

  lemma {:induction false} KeyRefused(fm: FloatFormat, s: bytes, count: Option<nat>, r: Role, path: Path,
                                      acc: seq<Field>, seen: set<bytes>)
    requires !(count.Some? && |acc| >= count.value) && !(count.None? && AtBreak(s))
    requires var key := DecodeKey(s, r, path); key.Ok? ==> key.value.0 in seen
    ensures DecodeFields(fm, s, count, r, path, acc, seen).Err?
  {
    hide DecodeKey, DecodeItem, AtBreak, ChildRole;
  }

  lemma {:induction false} FirstKeyRefused(fm: FloatFormat, s: bytes, left: Option<nat>, r: Role, seen: set<bytes>)
    requires left != Some(0) && !(left.None? && AtBreak(s))
    requires ParseItem(s).Some? && KeyOf(fm, ParseItem(s).value.0, r).Some? ==>
               KeyOf(fm, ParseItem(s).value.0, r).value in seen
    ensures ThenPairs(fm, ParseItems(s, left), r, seen).None?
  {
    hide *;
    PairsParsed(fm, ParseItems(s, left), r, seen);
    if ParseItems(s, left).Some? {
      FirstParsed(s, left);
      var items := ParseItems(s, left).value.0;
      FirstValue(fm, items);
      FirstPairRefused(fm, items[0], ItemValues(fm, items), r, seen);
    }
  }

  lemma PairsParsed(fm: FloatFormat, parsed: Option<(seq<Item>, bytes)>, r: Role, seen: set<bytes>)
    ensures ThenPairs(fm, parsed, r, seen).None? <==>
            parsed.None? || ConvertPairs(fm, ItemValues(fm, parsed.value.0), r, seen).None?
  {
    hide ConvertPairs, ItemValues;
  }

  lemma {:induction false} FirstPairRefused(fm: FloatFormat, i: Item, vs: seq<Value>, r: Role, seen: set<bytes>)
    requires vs != [] && vs[0] == ItemValue(fm, i) && (KeyOf(fm, i, r).Some? ==> KeyOf(fm, i, r).value in seen)
    ensures ConvertPairs(fm, vs, r, seen).None?
  {
    hide ItemValue, TextOf, Convert, ChildRole;
  }

  lemma BothRefuse(fm: FloatFormat, s: bytes, count: Option<nat>, r: Role, path: Path,
                   acc: seq<Field>, seen: set<bytes>)
    requires DecodeFields(fm, s, count, r, path, acc, seen).Err?
    requires ThenPairs(fm, ParseItems(s, Twice(Left(count, |acc|))), r, seen).None?
    ensures FieldsAgreeFrom(fm, s, count, r, path, acc, seen)
  {
    hide DecodeFields, ThenPairs, ParseItems, Twice, Left;
  }

  lemma {:induction false} BreakIsNoItem(s: bytes)
    requires AtBreak(s)
    ensures ParseItem(s).None?
  {
    assert CborHead(s) == Ok(Head(7, 0, Open));
  }

  /** A refused member value is refused by the reference too, even when a break
      stands where the value should be. */
  lemma {:induction false} ChildRefused(fm: FloatFormat, s: bytes, count: Option<nat>, r: Role, path: Path,
                                        acc: seq<Field>, seen: set<bytes>, key: bytes, s1: bytes)
    requires !(count.Some? && |acc| >= count.value) && !(count.None? && AtBreak(s))
    requires DecodeKey(s, r, path) == Ok((key, s1)) && key !in seen
    requires ParseItem(s).Some? && ParseItem(s).value.1 == s1 && KeyOf(fm, ParseItem(s).value.0, r) == Some(key)
    requires DecodeItem(fm, s1, ChildRole(r, key), path + [Key(key)]).Err?
    requires Then(fm, ParseItem(s1), ChildRole(r, key)).None?
    ensures FieldsAgreeFrom(fm, s, count, r, path, acc, seen)
  {
    hide DecodeKey, ParseItem, ItemValue, DecodeItem, Convert, ChildRole, KeyOf;
    var left := Twice(Left(count, |acc|));
    LeftStep(count, |acc|);
    assert DecodeFields(fm, s, count, r, path, acc, seen).Err?;
    if ParseItems(s, left).Some? {
      var items := ParseItems(s, left).value.0;
      SecondParsed(s, left);
      FirstValue(fm, items);
      if |items| >= 2 { FirstValue(fm, items[1..]); }
      PairRefused(fm, ItemValues(fm, items), r, seen, key) by { KeyIs(fm, items[0], r, key); }
    }
  }

  lemma {:induction false} KeyIs(fm: FloatFormat, i: Item, r: Role, key: bytes)
    requires KeyOf(fm, i, r) == Some(key)
    ensures ItemValue(fm, i).VText? && TextOf(ItemValue(fm, i).t, r) == Some(key)
  {
  }

  lemma {:induction false} SecondParsed(s: bytes, left: Option<nat>)
    requires left != Some(0) && Less(left) != Some(0) && !(left.None? && AtBreak(s)) && ParseItems(s, left).Some?
    ensures ParseItem(s).Some?
    ensures var (i, s1) := ParseItem(s).value;
            var items := ParseItems(s, left).value.0;
            && items != [] && items[0] == i
            && (|items| >= 2 ==> ParseItem(s1).Some? && items[1] == ParseItem(s1).value.0)
  {
    hide ParseItem;
    var (i, s1) := ParseItem(s).value;
    assert ParseItems(s1, Less(left)).Some?;
    if !(left.None? && AtBreak(s1)) { FirstParsed(s1, Less(left)); }
  }

  lemma {:induction false} PairRefused(fm: FloatFormat, vs: seq<Value>, r: Role, seen: set<bytes>, key: bytes)
    requires vs != [] && vs[0].VText? && TextOf(vs[0].t, r) == Some(key)
    requires |vs| == 1 || Convert(fm, vs[1], ChildRole(r, key)).None?
    ensures ConvertPairs(fm, vs, r, seen).None?
  {
    hide Convert, ChildRole;
  }

  /** An accepted member: both sides carry on after it. */
  lemma {:induction false} FieldsAccepted(fm: FloatFormat, s: bytes, count: Option<nat>, r: Role, path: Path,
                                          acc: seq<Field>, seen: set<bytes>, key: bytes, s1: bytes, j: Json, s2: bytes)
    requires !(count.Some? && |acc| >= count.value) && !(count.None? && AtBreak(s))
    requires DecodeKey(s, r, path) == Ok((key, s1)) && key !in seen
    requires ParseItem(s).Some? && ParseItem(s).value.1 == s1 && KeyOf(fm, ParseItem(s).value.0, r) == Some(key)
    requires DecodeItem(fm, s1, ChildRole(r, key), path + [Key(key)]) == Ok((j, s2))
    requires Then(fm, ParseItem(s1), ChildRole(r, key)) == Some((j, s2))
    requires FieldsAgreeFrom(fm, s2, count, r, path, acc + [Field(key, j)], seen + {key})
    ensures FieldsAgreeFrom(fm, s, count, r, path, acc, seen)
  {
    hide Left, Less, Twice, AtBreak, DecodeKey, ParseItem, ItemValue, DecodeItem, Convert, ChildRole, KeyOf,
      DecodeFields, ParseItems, ConvertPairs, ItemValues, TextOf;
    var left, left2 := Twice(Left(count, |acc|)), Twice(Left(count, |acc| + 1));
    LeftStep(count, |acc|);
    var (i0, i1) := (ParseItem(s).value.0, ParseItem(s1).value.0);
    TwoParsed(s, i0, s1, i1, s2, left);
    KeyIs(fm, i0, r, key);
    FieldsUnfold(fm, s, count, r, path, acc, seen, key, s1, j, s2);
    assert |acc + [Field(key, j)]| == |acc| + 1;
    if ParseItems(s2, left2).Some? {
      var items := ParseItems(s2, left2).value.0;
      PairConverted(fm, i0, i1, items, r, seen, key, j);
      var more := ConvertPairs(fm, ItemValues(fm, items), r, seen + {key});
      if more.Some? {
        assert acc + ([Field(key, j)] + more.value) == (acc + [Field(key, j)]) + more.value;
      }
    }
  }

  lemma {:induction false} FieldsUnfold(fm: FloatFormat, s: bytes, count: Option<nat>, r: Role, path: Path,
                                        acc: seq<Field>, seen: set<bytes>, key: bytes, s1: bytes, j: Json, s2: bytes)
    requires !(count.Some? && |acc| >= count.value) && !(count.None? && AtBreak(s))
    requires DecodeKey(s, r, path) == Ok((key, s1)) && key !in seen
    requires DecodeItem(fm, s1, ChildRole(r, key), path + [Key(key)]) == Ok((j, s2))
    ensures DecodeFields(fm, s, count, r, path, acc, seen)
            == DecodeFields(fm, s2, count, r, path, acc + [Field(key, j)], seen + {key})
  {
    hide DecodeKey, DecodeItem, ChildRole;
  }

  lemma {:induction false} TwoParsed(s: bytes, i0: Item, s1: bytes, i1: Item, s2: bytes, left: Option<nat>)
    requires left != Some(0) && Less(left) != Some(0) && !(left.None? && AtBreak(s))
    requires ParseItem(s) == Some((i0, s1)) && ParseItem(s1) == Some((i1, s2))
    ensures var more := ParseItems(s2, Less(Less(left)));
            ParseItems(s, left) == if more.None? then None else Some(([i0, i1] + more.value.0, more.value.1))
  {
    hide Less, ParseItem, ParseItems;
    if AtBreak(s1) { BreakIsNoItem(s1); }
    ItemsUnfold(s, left);
    ItemsUnfold(s1, Less(left));
    var more := ParseItems(s2, Less(Less(left)));
    if more.Some? {
      assert [i0] + ([i1] + more.value.0) == [i0, i1] + more.value.0;
    }
  }

  lemma {:induction false} PairConverted(fm: FloatFormat, i0: Item, i1: Item, items: seq<Item>, r: Role,
                                         seen: set<bytes>, key: bytes, j: Json)
    requires ItemValue(fm, i0).VText? && TextOf(ItemValue(fm, i0).t, r) == Some(key) && key !in seen
    requires Convert(fm, ItemValue(fm, i1), ChildRole(r, key)) == Some(j)
    ensures var more := ConvertPairs(fm, ItemValues(fm, items), r, seen + {key});
            ConvertPairs(fm, ItemValues(fm, [i0, i1] + items), r, seen) ==
            if more.Some? then Some([Field(key, j)] + more.value) else None
  {
    hide ItemValue, Convert, ChildRole, TextOf;
    var all := [i0, i1] + items;
    FirstValue(fm, all);
    assert all[1..] == [i1] + items;
    FirstValue(fm, all[1..]);
    assert all[1..][1..] == items;
    var vs := ItemValues(fm, all);
    assert vs[2..] == vs[1..][1..];
  }

  // ----- Whole documents -----

  /** The self-describing tag 55799 in its shortest form. */
  const SELF_DESCRIBED: bytes := [0xD9, 0xD9, 0xF7]

  function Untagged(data: bytes): bytes {
    if SELF_DESCRIBED <= data then data[3..] else data
  }

  /** The value a whole bundle becomes.  Bytes after the first item are ignored. */
  function DecodeBundle(fm: FloatFormat, data: bytes): Result<Json, Error> {
    match CborHead(Untagged(data))
    case Err(e) => Err(Malformed(BadHead(e)))
    case Ok(h) =>
      if h.major != 5 then Err(Malformed(NotAMap))
      else
        match DecodeItem(fm, Untagged(data), Bundle, [])
        case Err(e) => Err(e)
        case Ok((j, _)) => Ok(j)
  }

  /** The reference for whole bundles: parse one map, convert it as a bundle. */
  function ParseBundle(fm: FloatFormat, data: bytes): Option<Json> {
    match ParseItem(Untagged(data))
    case None => None
    case Some((i, _)) => if i.Table? then Convert(fm, ItemValue(fm, i), Bundle) else None
  }

  /** The one-pass converter computes the reference on every input. */
  lemma {:induction false} BundleAgrees(fm: FloatFormat, data: bytes)
    ensures DecodeBundle(fm, data).Ok? <==> ParseBundle(fm, data).Some?
    ensures DecodeBundle(fm, data).Ok? ==> DecodeBundle(fm, data).value == ParseBundle(fm, data).value
  {
    hide DecodeItem, ParseItem, CborHead, Convert, ItemValue, Untagged;
    var s := Untagged(data);
    ItemAgrees(fm, s, Bundle, []);
    TableHead(s);
  }

  lemma {:induction false} TableHead(s: bytes)
    ensures ParseItem(s).Some? ==> (ParseItem(s).value.0.Table? <==> CborHead(s).value.major == 5)
    ensures ParseItem(s).Some? ==> CborHead(s).Ok?
  {
    hide CborHead, ParseItems;
  }

  /** Any well-formed spelling of a map converts by its value alone. */
  lemma {:induction false} Spelled(fm: FloatFormat, a: Item, tagged: bool, x: bytes)
    requires WellFormed(a) && a.Table?
    ensures var d := DecodeBundle(fm, (if tagged then SELF_DESCRIBED else []) + Serial(a) + x);
            var c := Convert(fm, ItemValue(fm, a), Bundle);
            d.Ok? == c.Some? && (d.Ok? ==> d.value == c.value)
  {
    hide *;
    var data := (if tagged then SELF_DESCRIBED else []) + Serial(a) + x;
    MapByte(a);
    UntaggedIs(Serial(a) + x, tagged);
    assert data == (if tagged then SELF_DESCRIBED else []) + (Serial(a) + x);
    ParseExact(a, x);
    BundleAgrees(fm, data);
    ParsedTable(fm, data, a, x);
  }

  /** The marker tag is taken off, and nothing else that starts like a map. */
  lemma UntaggedIs(s: bytes, tagged: bool)
    requires s != [] && (tagged || s[0] != SELF_DESCRIBED[0])
    ensures Untagged((if tagged then SELF_DESCRIBED else []) + s) == s
  {
    var data := (if tagged then SELF_DESCRIBED else []) + s;
    if tagged {
      assert data[3..] == s;
    } else {
      assert data == s && data[0] != SELF_DESCRIBED[0];
    }
  }

  lemma ParsedTable(fm: FloatFormat, data: bytes, a: Item, x: bytes)
    requires a.Table? && ParseItem(Untagged(data)) == Some((a, x))
    ensures ParseBundle(fm, data) == Convert(fm, ItemValue(fm, a), Bundle)
  {
    hide ParseItem, Untagged, Convert, ItemValue;
  }

  lemma {:induction false} MapByte(a: Item)
    requires WellFormed(a) && a.Table?
    ensures Serial(a) != [] && Serial(a)[0] != SELF_DESCRIBED[0]
  {
    var h := HeadOf(a);
    assert Serial(a)[0] == 32 * 5 + AddInfo(h.form, h.arg) by { hide BodyBytes; }
    AddInfoSmall(h);
  }

  lemma {:induction false} AddInfoSmall(h: Head)
    requires Fits(h.form, h.arg)
    ensures AddInfo(h.form, h.arg) < 32
  {
  }
}
