/** The converter itself: a cursor over the input and a growing output buffer. */
module CborConverter {
  import opened Bytes
  import opened CborSyntax
  import opened JsonTree
  import opened BundleValue
  import opened BundleDecode
  import JsonText
  import Numbers
  import TextEncodings
  import Utf8

  lemma {:induction false} PrintItemsSnoc(items: seq<Json>, j: Json)
    ensures PrintItems(items + [j]) == PrintItems(items) + (if items == [] then [] else [JsonText.COMMA]) + Print(j)
  {
    hide *;
    if items == [] {
      PrintOneItem(j);
    } else {
      PrintItemsSnoc(items[1..], j);
      AppendStep(items, [j]);
      PrintItemsStep(items);
      PrintItemsStep(items + [j]);
      SnocLayout(Print(items[0]), PrintItems(items[1..]), Print(j), |items| == 1);
    }
  }

  lemma PrintOneItem(j: Json)
    ensures PrintItems([] + [j]) == PrintItems([]) + [] + Print(j)
  {
    hide Print;
    assert [] + [j] == [j] && Print(j) + [] == Print(j);
  }

  lemma PrintItemsStep(items: seq<Json>)
    requires items != []
    ensures PrintItems(items) ==
            Print(items[0]) + if |items| == 1 then [] else [JsonText.COMMA] + PrintItems(items[1..])
    ensures |items| == 1 ==> PrintItems(items[1..]) == []
  {
    hide Print;
  }

  lemma SnocLayout(first: bytes, rest: bytes, last: bytes, alone: bool)
    requires alone ==> rest == []
    ensures first + ([JsonText.COMMA] + (rest + (if alone then [] else [JsonText.COMMA]) + last)) ==
            (first + if alone then [] else [JsonText.COMMA] + rest) + [JsonText.COMMA] + last
  {
  }

  lemma {:induction false} PrintFieldsSnoc(fields: seq<Field>, f: Field)
    ensures PrintFields(fields + [f]) ==
            PrintFields(fields) + (if fields == [] then [] else [JsonText.COMMA]) + PrintField(f)
  {
    hide *;
    if fields == [] {
      PrintOneField(f);
    } else {
      PrintFieldsSnoc(fields[1..], f);
      AppendStep(fields, [f]);
      PrintFieldsStep(fields);
      PrintFieldsStep(fields + [f]);
      SnocLayout(PrintField(fields[0]), PrintFields(fields[1..]), PrintField(f), |fields| == 1);
    }
  }

  lemma PrintOneField(f: Field)
    ensures PrintFields([] + [f]) == PrintFields([]) + [] + PrintField(f)
  {
    hide PrintField;
    assert [] + [f] == [f] && PrintField(f) + [] == PrintField(f);
  }

  lemma PrintFieldsStep(fields: seq<Field>)
    requires fields != []
    ensures PrintFields(fields) ==
            PrintField(fields[0]) + if |fields| == 1 then [] else [JsonText.COMMA] + PrintFields(fields[1..])
    ensures |fields| == 1 ==> PrintFields(fields[1..]) == []
  {
    hide PrintField;
  }

  lemma {:induction false} EscapeSnoc(s: bytes, b: byte)
    ensures Escape(s + [b]) == Escape(s) + EscapeByte(b)
  {
    hide EscapeByte;
    if s == [] {
      assert s + [b] == [b] && [b][1..] == [] && EscapeByte(b) + [] == EscapeByte(b);
    } else {
      EscapeSnoc(s[1..], b);
      assert (s + [b])[1..] == s[1..] + [b];
    }
  }

  lemma EscapeNothing()
    ensures Escape([]) == []
  {
  }

  lemma PrintedArray(items: seq<Json>)
    ensures Print(JArr(items)) == [JsonText.OPEN_ARRAY] + PrintItems(items) + [JsonText.CLOSE_ARRAY]
    ensures PrintItems([]) == []
  {
  }

  lemma PrintedObject(fields: seq<Field>)
    ensures Print(JObj(fields)) == [JsonText.OPEN_OBJECT] + PrintFields(fields) + [JsonText.CLOSE_OBJECT]
    ensures PrintFields([]) == []
  {
  }

  lemma {:induction false} ElemsEnd(fm: FloatFormat, s: bytes, count: Option<nat>, er: Role, path: Path, acc: seq<Json>)
    ensures count.Some? && |acc| >= count.value ==> DecodeElems(fm, s, count, er, path, acc) == Ok((acc, s))
    ensures count.None? && AtBreak(s) ==> DecodeElems(fm, s, count, er, path, acc) == Ok((acc, s[1..]))
  {
    hide DecodeItem;
  }

  lemma {:induction false} FieldsEnd(fm: FloatFormat, s: bytes, count: Option<nat>, r: Role, path: Path,
                                     acc: seq<Field>, seen: set<bytes>)
    ensures count.Some? && |acc| >= count.value ==> DecodeFields(fm, s, count, r, path, acc, seen) == Ok((acc, s))
    ensures count.None? && AtBreak(s) ==> DecodeFields(fm, s, count, r, path, acc, seen) == Ok((acc, s[1..]))
  {
    hide DecodeItem;
  }

  lemma {:induction false} MembersUnfold(fm: FloatFormat, s: bytes, count: Option<nat>, r: Role, path: Path,
                                         acc: seq<Field>, seen: set<bytes>)
    requires !(count.Some? && |acc| >= count.value) && !(count.None? && AtBreak(s))
    ensures DecodeFields(fm, s, count, r, path, acc, seen) ==
            match DecodeMember(fm, s, r, path, seen)
            case Err(e) => Err(e)
            case Ok((f, rest)) => DecodeFields(fm, rest, count, r, path, acc + [f], seen + {f.name})
  {
    hide DecodeMember;
  }

  lemma {:induction false} BodyUnfold(fm: FloatFormat, h: Head, s: bytes, r: Role, path: Path)
    ensures h.major == 0 ==> DecodeBody(fm, h, s, r, path) == Ok((JNum(Numbers.IntLiteral(h.arg)), s))
    ensures h.major == 1 ==> DecodeBody(fm, h, s, r, path) == Ok((JNum(Numbers.IntLiteral(-1 - h.arg)), s))
    ensures h.major == 2 ==>
              DecodeBody(fm, h, s, r, path) ==
              match StringContent(false, h, s)
              case Err(e) => Err(e)
              case Ok((content, rest)) => WithRest(BytesJson(content, r, path), rest)
    ensures h.major == 3 ==>
              DecodeBody(fm, h, s, r, path) ==
              match StringContent(true, h, s)
              case Err(e) => Err(e)
              case Ok((content, rest)) => WithRest(TextJson(content, r, path), rest)
    ensures h.major == 4 ==>
              DecodeBody(fm, h, s, r, path) ==
              match DecodeElems(fm, s, if h.form == Open then None else Some(h.arg), ElementRole(r), path, [])
              case Err(e) => Err(e)
              case Ok((js, rest)) => Ok((JArr(js), rest))
    ensures h.major == 5 ==>
              DecodeBody(fm, h, s, r, path) ==
              match DecodeFields(fm, s, if h.form == Open then None else Some(h.arg), r, path, [], {})
              case Err(e) => Err(e)
              case Ok((fields, rest)) => Ok((JObj(fields), rest))
    ensures h.major == 6 ==>
              DecodeBody(fm, h, s, r, path) ==
              if r == Hashed then Err(InvalidSubjectData(path, TagItem(h.arg))) else DecodeItem(fm, s, r, path)
    ensures h.major > 6 ==> DecodeBody(fm, h, s, r, path) == WithRest(SimpleJson(fm, h, r, path), s)
  {
    hide StringContent, SimpleJson, BytesJson, TextJson, DecodeElems, DecodeFields, DecodeItem, ElementRole, WithRest;
  }

  lemma PrintedNumber(lit: bytes)
    ensures Print(JNum(lit)) == lit
  {
  }

  lemma ContentUnfold(text: bool, h: Head, s: bytes)
    ensures StringContent(text, h, s) ==
            if h.form == Open then ChunkedContent(text, s, [])
            else if h.arg > |s| then Err(Malformed(TruncatedString))
            else Ok((s[..h.arg], s[h.arg..]))
  {
    hide ChunkedContent;
  }

  lemma HeadTakesSpace(h: Head)
    ensures h.Len() >= 1
  {
  }

  lemma ChunksUnfold(text: bool, s: bytes, acc: bytes)
    ensures ChunkedContent(text, s, acc) ==
            if s == [] then Err(Malformed(TruncatedChunks))
            else if s[0] == BREAK then Ok((acc, s[1..]))
            else
              match CborHead(s)
              case Err(_) => Err(Malformed(BadChunk))
              case Ok(h) =>
                if h.major != StringMajor(text) || h.form == Open then Err(Malformed(BadChunk))
                else if h.arg > |s| - h.Len() then Err(Malformed(TruncatedString))
                else ChunkedContent(text, s[h.Len() + h.arg..], acc + s[h.Len()..h.Len() + h.arg])
  {
    hide CborHead;
  }

  class Converter {
    const fm: FloatFormat
    const input: bytes
    var pos: nat
    var out: bytes

    constructor (fm: FloatFormat, input: bytes)
      ensures this.fm == fm && this.input == input && pos == 0 && out == []
    {
      this.fm, this.input, pos, out := fm, input, 0, [];
    }

    /** The cursor never leaves the input. */
    ghost predicate Valid()
      reads this
    {
      pos <= |input|
    }

    function Rest(): bytes
      requires Valid()
      reads this
    {
      input[pos..]
    }

    lemma RestMeans()
      requires Valid()
      ensures pos <= |input| && |Rest()| == |input| - pos
      ensures pos < |input| ==> Rest()[0] == input[pos]
    {
    }

    lemma RestPart(a: nat, n: nat)
      requires Valid() && a + n <= |Rest()|
      ensures pos + a + n <= |input| && input[pos + a..pos + a + n] == Rest()[a..a + n]
    {
    }

    /** Advances past `n` bytes of what is left. */
    method Advance(n: nat)
      requires Valid() && n <= |Rest()|
      modifies this`pos
      ensures Valid() && pos == old(pos) + n && Rest() == old(Rest())[n..]
    {
      pos := pos + n;
    }

    method Write(s: bytes)
      modifies this`out
      ensures out == old(out) + s
    {
      out := out + s;
    }

    method WriteJsonString(s: bytes)
      modifies this`out
      ensures out == old(out) + Quoted(s)
    {
      hide EscapeByte, Escape;
      ghost var before := out;
      Write([JsonText.QUOTE]);
      assert s[..0] == [];
      EscapeNothing();
      for i := 0 to |s|
        invariant out == before + ([JsonText.QUOTE] + Escape(s[..i]))
      {
        Write(EscapeByte(s[i]));
        EscapeSnoc(s[..i], s[i]);
        assert s[..i + 1] == s[..i] + [s[i]];
      }
      assert s[..|s|] == s;
      Write([JsonText.QUOTE]);
    }

    /** The content of a string whose head has been consumed. */
    method ReadString(text: bool, h: Head) returns (res: Result<bytes, Error>)
      requires Valid()
      modifies this`pos
      ensures Valid()
      ensures var spec := StringContent(text, h, old(Rest()));
              if spec.Err? then res == Err(spec.error) else res == Ok(spec.value.0) && Rest() == spec.value.1
      ensures res.Ok? ==> pos >= old(pos)
    {
      hide *;
      ContentUnfold(text, h, Rest());
      RestMeans();
      if h.form != Open {
        if h.arg > |input| - pos {
          return Err(Malformed(TruncatedString));
        }
        RestPart(0, h.arg);
        var content := input[pos..pos + h.arg];
        Advance(h.arg);
        return Ok(content);
      }
      res := ReadChunks(text);
    }

    /** The chunks of a string of indefinite length, up to the break. */
    method ReadChunks(text: bool) returns (res: Result<bytes, Error>)
      requires Valid()
      modifies this`pos
      ensures Valid()
      ensures var spec := ChunkedContent(text, old(Rest()), []);
              if spec.Err? then res == Err(spec.error) else res == Ok(spec.value.0) && Rest() == spec.value.1
      ensures res.Ok? ==> pos >= old(pos)
    {
      hide *;
      var content: bytes := [];
      RestMeans();
      while true
        invariant Valid() && pos <= |input| && pos >= old(pos)
        invariant ChunkedContent(text, Rest(), content) == ChunkedContent(text, old(Rest()), [])
        decreases |input| - pos
      {
        RestMeans();
        ghost var rest := Rest();
        ChunksUnfold(text, rest, content);
        if pos >= |input| {
          return Err(Malformed(TruncatedChunks));
        }
        if input[pos] == BREAK {
          Advance(1);
          RestMeans();
          return Ok(content);
        }
        var head := CborHead(Rest());
        if head.Err? || head.value.major != StringMajor(text) || head.value.form == Open {
          return Err(Malformed(BadChunk));
        }
        var len := head.value.Len();
        if head.value.arg > |input| - pos - len {
          return Err(Malformed(TruncatedString));
        }
        HeadTakesSpace(head.value);
        content := content + Rest()[len..len + head.value.arg];
        Advance(len + head.value.arg);
        RestMeans();
      }
    }

    /** Converts the data item at the cursor and advances past it.  A successful
        call consumes at least one byte and appends the printed value. */
    method Item(r: Role, path: Path) returns (err: Option<Error>)
      requires Valid()
      modifies this
      ensures Valid()
      ensures var spec := DecodeItem(fm, old(Rest()), r, path);
              if spec.Err? then err == Some(spec.error)
              else err == None && Rest() == spec.value.1 && out == old(out) + Print(spec.value.0) && pos > old(pos)
      decreases |input| - pos, 0
    {
      hide CborHead, DecodeBody, Print;
      var head := CborHead(Rest());
      if head.Err? {
        return Some(Malformed(BadHead(head.error)));
      }
      Advance(head.value.Len());
      err := Body(head.value, r, path);
    }

    /** What follows the head of an item, by major type. */
    method Body(h: Head, r: Role, path: Path) returns (err: Option<Error>)
      requires Valid()
      modifies this
      ensures Valid() && (err.None? ==> pos >= old(pos))
      ensures var spec := DecodeBody(fm, h, old(Rest()), r, path);
              if spec.Err? then err == Some(spec.error)
              else err == None && Rest() == spec.value.1 && out == old(out) + Print(spec.value.0)
      decreases |input| - pos, 3
    {
      hide StringContent, SimpleJson, BytesJson, TextJson, DecodeElems, DecodeFields, DecodeItem, ElementRole,
        DecodeBody, Print, Numbers.IntLiteral;
      BodyUnfold(fm, h, Rest(), r, path);
      PrintedNumber(Numbers.IntLiteral(if h.major == 0 then h.arg else -1 - h.arg));
      match h.major {
        case 0 =>
          Write(Numbers.IntLiteral(h.arg));
          err := None;
        case 1 =>
          Write(Numbers.IntLiteral(-1 - h.arg));
          err := None;
        case 2 =>
          err := ByteString(h, r, path);
        case 3 =>
          err := TextString(h, r, path);
        case 4 =>
          err := Array(r, path, h.arg, h.form == Open);
        case 5 =>
          err := Object(r, path, h.arg, h.form == Open);
        case 6 =>
          if r == Hashed {
            return Some(InvalidSubjectData(path, TagItem(h.arg)));
          }
          err := Item(r, path);
        case _ =>
          err := Simple(r, path, h);
      }
    }

    method ByteString(h: Head, r: Role, path: Path) returns (err: Option<Error>)
      requires Valid()
      modifies this
      ensures Valid()
      ensures var content := StringContent(false, h, old(Rest()));
              if content.Err? then err == Some(content.error)
              else
                var spec := BytesJson(content.value.0, r, path);
                if spec.Err? then err == Some(spec.error)
                else err == None && Rest() == content.value.1 && out == old(out) + Print(spec.value)
      ensures err.None? ==> pos >= old(pos)
    {
      hide StringContent, Escape;
      var content := ReadString(false, h);
      if content.Err? {
        return Some(content.error);
      }
      match r {
        case Hashed => return Some(InvalidSubjectData(path, Refusal.ByteString));
        case Base64Slot => WriteJsonString(TextEncodings.Base64(content.value));
        case TextSlot => Write(JsonText.NULL);
        case _ => WriteJsonString(TextEncodings.Hex(content.value));
      }
      return None;
    }

    method TextString(h: Head, r: Role, path: Path) returns (err: Option<Error>)
      requires Valid()
      modifies this
      ensures Valid()
      ensures var content := StringContent(true, h, old(Rest()));
              if content.Err? then err == Some(content.error)
              else
                var spec := TextJson(content.value.0, r, path);
                if spec.Err? then err == Some(spec.error)
                else err == None && Rest() == content.value.1 && out == old(out) + Print(spec.value)
      ensures err.None? ==> pos >= old(pos)
    {
      hide StringContent, Escape, Utf8.Valid, Utf8.Repaired;
      var content := ReadString(true, h);
      if content.Err? {
        return Some(content.error);
      }
      var t := content.value;
      if !Utf8.Valid(t) {
        if r == Hashed {
          return Some(InvalidSubjectData(path, BadUtf8));
        }
        t := Utf8.Repaired(t, false);
      }
      WriteJsonString(t);
      return None;
    }

    /** The simple values, `undefined` and the three float widths. */
    method Simple(r: Role, path: Path, h: Head) returns (err: Option<Error>)
      modifies this`out
      ensures var spec := SimpleJson(fm, h, r, path);
              if spec.Err? then err == Some(spec.error) else err == None && out == old(out) + Print(spec.value)
    {
      if h.form == Open {
        return Some(Malformed(UnexpectedBreak));
      }
      if h.form == Tiny || h.form == One {
        err := SimpleValueOf(r, path, h.arg);
        return;
      }
      var x := fm.widen(h.form, h.arg);
      if !Finite(x) {
        if r == Hashed {
          return Some(InvalidSubjectData(path, NonFinite));
        }
        Write(JsonText.NULL);
        return None;
      }
      Write(fm.literal(x));
      return None;
    }

    method SimpleValueOf(r: Role, path: Path, n: uint64) returns (err: Option<Error>)
      modifies this`out
      ensures var spec := SimpleJson(fm, Head(7, n, Tiny), r, path);
              if spec.Err? then err == Some(spec.error) else err == None && out == old(out) + Print(spec.value)
    {
      match n {
        case 20 => Write(JsonText.FALSE);
        case 21 => Write(JsonText.TRUE);
        case 22 => Write(JsonText.NULL);
        case 23 =>
          if r == Hashed {
            return Some(InvalidSubjectData(path, Undefined));
          }
          Write(JsonText.NULL);
        case _ =>
          if r == Hashed {
            return Some(InvalidSubjectData(path, SimpleValue(n)));
          }
          Write(JsonText.NULL);
      }
      return None;
    }

    method Array(r: Role, path: Path, arg: uint64, indefinite: bool) returns (err: Option<Error>)
      requires Valid()
      modifies this
      ensures Valid() && (err.None? ==> pos >= old(pos))
      ensures var count := if indefinite then None else Some(arg);
              var spec := DecodeElems(fm, old(Rest()), count, ElementRole(r), path, []);
              if spec.Err? then err == Some(spec.error)
              else err == None && Rest() == spec.value.1 && out == old(out) + Print(JArr(spec.value.0))
      decreases |input| - pos, 1
    {
      hide DecodeItem, DecodeElems, Print, PrintItems, ElementRole;
      ghost var count := if indefinite then None else Some(arg);
      ghost var start, before := Rest(), out;
      PrintedArray([]);
      Write([JsonText.OPEN_ARRAY]);
      var er := ElementRole(r);
      var i := 0;
      ghost var acc: seq<Json> := [];
      ghost var closed := false;
      while indefinite || i < arg
        invariant Valid() && pos >= old(pos) && i == |acc| && !closed && (!indefinite ==> i <= arg)
        invariant DecodeElems(fm, Rest(), count, er, path, acc) == DecodeElems(fm, start, count, er, path, [])
        invariant out == before + ([JsonText.OPEN_ARRAY] + PrintItems(acc))
        decreases |input| - pos
      {
        ElemsEnd(fm, Rest(), count, er, path, acc);
        if indefinite {
          if pos < |input| && input[pos] == BREAK {
            Advance(1);
            closed := true;
            break;
          }
        }
        ElemsUnfold(fm, Rest(), count, er, path, acc);
        if i > 0 {
          Write([JsonText.COMMA]);
        }
        ghost var spec := DecodeItem(fm, Rest(), er, path + [Index(i)]);
        err := Item(er, path + [Index(i)]);
        if err.Some? {
          return;
        }
        PrintItemsSnoc(acc, spec.value.0);
        acc := acc + [spec.value.0];
        i := i + 1;
      }
      if !closed { ElemsEnd(fm, Rest(), count, er, path, acc); }
      assert DecodeElems(fm, start, count, er, path, []) == Ok((acc, Rest()));
      PrintedArray(acc);
      Write([JsonText.CLOSE_ARRAY]);
      err := None;
    }

    method MapKey(r: Role, path: Path) returns (res: Result<bytes, Error>)
      requires Valid()
      modifies this`pos
      ensures Valid()
      ensures var spec := DecodeKey(old(Rest()), r, path);
              if spec.Err? then res == Err(spec.error)
              else res == Ok(spec.value.0) && Rest() == spec.value.1 && pos > old(pos)
    {
      var head := CborHead(Rest());
      if head.Err? {
        return Err(Malformed(BadHead(head.error)));
      }
      var h := head.value;
      if h.major != 3 {
        if r == Hashed {
          return Err(InvalidSubjectData(path, KeyIsNotText(h.major == 2)));
        }
        return Err(Malformed(KeyNotText(h.major == 2, path)));
      }
      Advance(h.Len());
      var content := ReadString(true, h);
      if content.Err? {
        return Err(content.error);
      }
      var key := content.value;
      if !Utf8.Valid(key) {
        if r == Hashed {
          return Err(InvalidSubjectData(path, KeyBadUtf8));
        }
        key := Utf8.Repaired(key, false);
      }
      return Ok(key);
    }

    /** One member of a map: a key not seen before, then its value. */
    method Member(r: Role, path: Path, seen: set<bytes>, first: bool) returns (res: Result<bytes, Error>)
      requires Valid()
      modifies this
      ensures Valid()
      ensures var spec := DecodeMember(fm, old(Rest()), r, path, seen);
              if spec.Err? then res == Err(spec.error)
              else
                && res == Ok(spec.value.0.name) && Rest() == spec.value.1 && pos > old(pos)
                && out == old(out) + ((if first then [] else [JsonText.COMMA]) + PrintField(spec.value.0))
      decreases |input| - pos, 1
    {
      hide DecodeItem, DecodeKey, Print, ChildRole, Escape;
      var key := MapKey(r, path);
      if key.Err? {
        return Err(key.error);
      }
      if key.value in seen {
        return Err(Malformed(DuplicateKey(key.value, path)));
      }
      if !first {
        Write([JsonText.COMMA]);
      }
      WriteJsonString(key.value);
      Write([JsonText.COLON]);
      var err := Item(ChildRole(r, key.value), path + [Key(key.value)]);
      if err.Some? {
        return Err(err.value);
      }
      return Ok(key.value);
    }

    method Object(r: Role, path: Path, arg: uint64, indefinite: bool) returns (err: Option<Error>)
      requires Valid()
      modifies this
      ensures Valid() && (err.None? ==> pos >= old(pos))
      ensures var spec := DecodeFields(fm, old(Rest()), if indefinite then None else Some(arg), r, path, [], {});
              if spec.Err? then err == Some(spec.error)
              else err == None && Rest() == spec.value.1 && out == old(out) + Print(JObj(spec.value.0))
      decreases |input| - pos, 2
    {
      hide DecodeMember, DecodeFields, Print, PrintField, PrintFields;
      ghost var count := if indefinite then None else Some(arg);
      ghost var start, before := Rest(), out;
      PrintedObject([]);
      Write([JsonText.OPEN_OBJECT]);
      var seen: set<bytes> := {};
      var i := 0;
      ghost var acc: seq<Field> := [];
      ghost var closed := false;
      while indefinite || i < arg
        invariant Valid() && pos >= old(pos) && i == |acc| && !closed && (!indefinite ==> i <= arg)
        invariant DecodeFields(fm, Rest(), count, r, path, acc, seen) == DecodeFields(fm, start, count, r, path, [], {})
        invariant out == before + ([JsonText.OPEN_OBJECT] + PrintFields(acc))
        decreases |input| - pos
      {
        FieldsEnd(fm, Rest(), count, r, path, acc, seen);
        if indefinite {
          if pos < |input| && input[pos] == BREAK {
            Advance(1);
            closed := true;
            break;
          }
        }
        MembersUnfold(fm, Rest(), count, r, path, acc, seen);
        ghost var spec := DecodeMember(fm, Rest(), r, path, seen);
        var key := Member(r, path, seen, i == 0);
        if key.Err? {
          return Some(key.error);
        }
        PrintFieldsSnoc(acc, spec.value.0);
        acc := acc + [spec.value.0];
        seen := seen + {key.value};
        i := i + 1;
      }
      if !closed { FieldsEnd(fm, Rest(), count, r, path, acc, seen); }
      assert DecodeFields(fm, start, count, r, path, [], {}) == Ok((acc, Rest()));
      PrintedObject(acc);
      Write([JsonText.CLOSE_OBJECT]);
      err := None;
    }
  }

  /** Converts a CBOR proof bundle to the equivalent JSON document. */
  method CborToJson(fm: FloatFormat, data: bytes) returns (res: Result<bytes, Error>)
    ensures var spec := DecodeBundle(fm, data);
            if spec.Err? then res == Err(spec.error) else res == Ok(Print(spec.value))
  {
    var c := new Converter(fm, data);
    if SELF_DESCRIBED <= data {
      c.pos := 3;
    }
    assert c.Rest() == Untagged(data);
    var head := CborHead(c.Rest());
    if head.Err? {
      return Err(Malformed(BadHead(head.error)));
    }
    if head.value.major != 5 {
      return Err(Malformed(NotAMap));
    }
    ghost var spec := DecodeItem(fm, Untagged(data), Bundle, []);
    var err := c.Item(Bundle, []);
    if err.Some? {
      return Err(err.value);
    }
    assert [] + Print(spec.value.0) == Print(spec.value.0);
    return Ok(c.out);
  }
}
