/**
 Where byte strings stand in a bundle: which paths hold hex, base64 and text slots, and
 what both directions of the converter make of what they hold there.
 */
module BundleSlots {
  import opened Bytes
  import opened CborSyntax
  import opened JsonTree
  import opened BundleValue
  import opened BundleDecode
  import opened BundleGuarantees
  import opened BundleEncode
  import opened BundleRoundTrip
  import BundleDeterministic
  import JsonText
  import Numbers
  import TextEncodings

  // ----- Slots by path -----

  /** Where a list of commitments stands. */
  predicate IsEntryList(path: Path) {
    path == [Named("commitments")] || path == [Named("signing_key_event"), Named("commitments")]
  }

  /** One commitment of such a list. */
  predicate IsEntry(path: Path) {
    path != [] && path[|path| - 1].Index? && IsEntryList(path[..|path| - 1])
  }

  predicate IsBase64Path(path: Path) {
    path == [Named("public_key")] || path == [Named("signature")]
  }

  predicate BlockHashName(step: Step) {
    step == Named("previous_block_hash") || step == Named("merkle_root") || step == Named("signing_key_id")
  }

  predicate EntryHashName(step: Step) {
    step == Named("epoch_merkle_root") || step == Named("transaction_hash") || step == Named("block_merkle_root")
  }

  predicate EntryTextName(step: Step) {
    step == Named("epoch_proof") || step == Named("txoutproof") || step == Named("raw_transaction")
  }

  predicate IsHexPath(path: Path) {
    && path != []
    && var up, step := path[..|path| - 1], path[|path| - 1];
       || (up == [Named("subject")] && step == Named("signing_key_id"))
       || (IsBlock(up) && BlockHashName(step))
       || (IsEntry(up) && EntryHashName(step))
  }

  predicate IsTextPath(path: Path) {
    && path != []
    && var up, step := path[..|path| - 1], path[|path| - 1];
       || (up == [] && step == Named("inclusion_proof"))
       || (IsEntry(up) && EntryTextName(step))
  }

  /** The positions of the roles that concern byte strings. */
  ghost predicate Slotted(path: Path, r: Role) {
    && (r == CommitmentList <==> IsEntryList(path))
    && (r == Commitment <==> IsEntry(path))
    && (r == Base64Slot <==> IsBase64Path(path))
    && (r == HexSlot <==> IsHexPath(path))
    && (r == TextSlot <==> IsTextPath(path))
  }

  /** What one more step leads to. */
  predicate StepSlotted(r: Role, step: Step, next: Role) {
    && (next == CommitmentList <==> (r == Bundle || r == KeyEvent) && step == Named("commitments"))
    && (next == Commitment <==> r == CommitmentList && step.Index?)
    && (next == Base64Slot <==> r == Bundle && (step == Named("public_key") || step == Named("signature")))
    && (next == HexSlot <==>
          || (r == Subject && step == Named("signing_key_id"))
          || (r == BlockMap && BlockHashName(step))
          || (r == Commitment && EntryHashName(step)))
    && (next == TextSlot <==>
          || (r == Bundle && step == Named("inclusion_proof"))
          || (r == Commitment && EntryTextName(step)))
  }

  lemma RootSlots(key: bytes)
    ensures StepSlotted(Bundle, Key(key), ChildRole(Bundle, key))
  {
    assert |Ascii("public_key")| == 10 && |Ascii("signature")| == 9 && |Ascii("inclusion_proof")| == 15;
    assert |Ascii("subject")| == 7 && |Ascii("block")| == 5 && |Ascii("block_path")| == 10;
    assert |Ascii("commitments")| == 11 && |Ascii("signing_key_event")| == 17;
  }

  lemma SubjectSlots(key: bytes)
    ensures StepSlotted(Subject, Key(key), ChildRole(Subject, key))
  {
  }

  lemma BlockSlots(key: bytes)
    ensures StepSlotted(BlockMap, Key(key), ChildRole(BlockMap, key))
  {
    hide Ascii;
  }

  lemma KeyEventSlots(key: bytes)
    ensures StepSlotted(KeyEvent, Key(key), ChildRole(KeyEvent, key))
  {
    assert |Ascii("block")| == 5 && |Ascii("commitments")| == 11;
  }

  lemma CommitmentSlots(key: bytes)
    ensures StepSlotted(Commitment, Key(key), ChildRole(Commitment, key))
  {
    assert |Ascii("epoch_merkle_root")| == 17 && |Ascii("transaction_hash")| == 16;
    assert |Ascii("block_merkle_root")| == 17 && |Ascii("epoch_proof")| == 11;
    assert |Ascii("txoutproof")| == 10 && |Ascii("raw_transaction")| == 15;
  }

  lemma LowerSlots(r: Role, key: bytes)
    requires r !in {Bundle, Subject, BlockMap, KeyEvent, Commitment}
    ensures StepSlotted(r, Key(key), ChildRole(r, key))
  {
    hide Ascii;
  }

  lemma IndexSlots(r: Role, i: nat)
    ensures StepSlotted(r, Index(i), ElementRole(r))
  {
    hide Ascii;
  }

  lemma StepIsSlotted(r: Role, step: Step)
    ensures StepSlotted(r, step, StepRole(r, step))
  {
    hide ChildRole, ElementRole, StepSlotted;
    if step.Index? {
      IndexSlots(r, step.i);
    } else if r == Bundle {
      RootSlots(step.name);
    } else if r == Subject {
      SubjectSlots(step.name);
    } else if r == BlockMap {
      BlockSlots(step.name);
    } else if r == KeyEvent {
      KeyEventSlots(step.name);
    } else if r == Commitment {
      CommitmentSlots(step.name);
    } else {
      LowerSlots(r, step.name);
    }
  }

  /** Which paths are slots, for every path: no other position converts a byte string to
      base64, drops it, or reads one from a JSON string. */
  lemma {:induction false} SlotPositions(path: Path)
    ensures Slotted(path, RoleAlong(Bundle, path))
    decreases |path|
  {
    if path == [] {
      assert RoleAlong(Bundle, path) == Bundle;
    } else {
      var up, step := path[..|path| - 1], path[|path| - 1];
      SlotPositions(up);
      PathIsPlaced(up);
      assert path == up + [step];
      RoleAlongSnoc(Bundle, up, step);
      StepIsSlotted(RoleAlong(Bundle, up), step);
      hide RoleAlong, StepRole;
      SlottedBelow(up, step, RoleAlong(Bundle, up), RoleAlong(Bundle, path));
    }
  }

  lemma SlottedBelow(up: Path, step: Step, r: Role, next: Role)
    requires Placed(up, r) && Slotted(up, r) && StepSlotted(r, step, next)
    ensures Slotted(up + [step], next)
  {
    hide Named, IsBlock, InPreimage, BlockHashName, EntryHashName, EntryTextName;
    var path := up + [step];
    assert path[..|path| - 1] == up && path[|path| - 1] == step;
    EntryListBelow(up, step);
    Base64Below(up, step);
    hide IsEntryList, IsBase64Path;
  }

  lemma EntryListBelow(up: Path, step: Step)
    ensures IsEntryList(up + [step]) <==>
            (up == [] || up == [Named("signing_key_event")]) && step == Named("commitments")
  {
    hide Named;
    OneStep(up, step, Named("commitments"));
    TwoSteps(up, step, Named("signing_key_event"), Named("commitments"));
  }

  lemma Base64Below(up: Path, step: Step)
    ensures IsBase64Path(up + [step]) <==> up == [] && (step == Named("public_key") || step == Named("signature"))
  {
    hide Named;
    OneStep(up, step, Named("public_key"));
    OneStep(up, step, Named("signature"));
  }

  // ----- Decoding -----

  /** What an accepted bundle's byte strings become, by path: base64 of the key and the
      signature, null for the proof texts, hex everywhere else; there is none in a
      preimage. */
  lemma {:induction false} ByteStringsByPath(fm: FloatFormat, v: Value, path: Path, b: bytes)
    requires Convert(fm, v, Bundle).Some? && Reaches(v, path, VBytes(b))
    ensures !InPreimage(path)
    ensures JsonReaches(Convert(fm, v, Bundle).value, path,
                        if IsBase64Path(path) then JStr(TextEncodings.Base64(b))
                        else if IsTextPath(path) then JNull
                        else JStr(TextEncodings.Hex(b)))
  {
    hide Reaches, JsonReaches, InPreimage, IsBase64Path, IsTextPath, IsHexPath, IsEntry, IsEntryList;
    RoleDiscipline(fm, v, Bundle, path, VBytes(b));
    PreimagePositions(path);
    SlotPositions(path);
    BytesInRole(fm, b, RoleAlong(Bundle, path));
    hide Convert, RoleAlong;
  }

  lemma {:induction false} BytesInRole(fm: FloatFormat, b: bytes, r: Role)
    ensures Convert(fm, VBytes(b), r) ==
            if r == Hashed then None
            else if r == Base64Slot then Some(JStr(TextEncodings.Base64(b)))
            else if r == TextSlot then Some(JNull)
            else Some(JStr(TextEncodings.Hex(b)))
  {
  }

  lemma {:induction false} AcceptedConverts(fm: FloatFormat, data: bytes)
    requires DecodeBundle(fm, data).Ok?
    ensures ParseItem(Untagged(data)).Some?
    ensures Convert(fm, ItemValue(fm, ParseItem(Untagged(data)).value.0), Bundle) ==
            Some(DecodeBundle(fm, data).value)
  {
    hide DecodeBundle, ParseItem, Convert, ItemValue, Untagged;
    BundleAgrees(fm, data);
  }

  /** The same of the bytes on the wire. */
  lemma DecodedByteStrings(fm: FloatFormat, data: bytes, path: Path, b: bytes)
    requires DecodeBundle(fm, data).Ok? && ParseItem(Untagged(data)).Some?
    requires Reaches(ItemValue(fm, ParseItem(Untagged(data)).value.0), path, VBytes(b))
    ensures JsonReaches(DecodeBundle(fm, data).value, path,
                        if IsBase64Path(path) then JStr(TextEncodings.Base64(b))
                        else if IsTextPath(path) then JNull
                        else JStr(TextEncodings.Hex(b)))
  {
    hide *;
    BundleAgrees(fm, data);
    AcceptedConverts(fm, data);
    ByteStringsByPath(fm, ItemValue(fm, ParseItem(Untagged(data)).value.0), path, b);
  }

  // ----- Encoding -----

  /** Of members with the same name the last one counts. */
  lemma {:induction false} LastMemberCounts(fields: seq<Field>, i: nat)
    requires i < |fields| && forall k :: i < k < |fields| ==> fields[k].name != fields[i].name
    ensures fields[i].name in FieldsToAny(fields) && FieldsToAny(fields)[fields[i].name] == ToAny(fields[i].val)
  {
    hide ToAny;
    var more := fields[1..];
    assert forall k :: 0 <= k < |more| ==> more[k] == fields[k + 1];
    if i > 0 {
      LastMemberCounts(more, i - 1);
    } else {
      BundleDeterministic.NameAbsent(more, fields[0].name);
    }
  }

  /** `w` is the value at `path` under `v`. */
  predicate AnyReaches(v: Any, path: Path, w: Any)
    decreases v
  {
    || (path == [] && w == v)
    || (&& v.ASlice? && path != [] && path[0].Index? && path[0].i < |v.items|
        && AnyReaches(v.items[path[0].i], path[1..], w))
    || (&& v.AMap? && path != [] && path[0].Key? && path[0].name in v.m
        && AnyReaches(v.m[path[0].name], path[1..], w))
  }

  /** A string or number that has no encoding at `path`: a hex slot that is not lowercase
      hex, a base64 slot that is not base64, an integer beyond 64 bits or any other number
      that is not a double. */
  predicate Unencodable(fm: FloatFormat, path: Path, w: Any) {
    || (w.AString? && IsHexPath(path) && !TextEncodings.IsLowercaseHex(w.s))
    || (w.AString? && IsBase64Path(path) && TextEncodings.Unbase64(w.s).None?)
    || (w.ANumber? && Numbers.IsIntLiteral(w.lit) && TooWide(w.lit))
    || (w.ANumber? && !Numbers.IsIntLiteral(w.lit) && fm.read(w.lit).None?)
  }

  predicate TooWide(lit: bytes)
    requires Numbers.IsIntLiteral(lit)
  {
    Numbers.IntLiteralIsDecimal(lit);
    Numbers.IntValue(lit) < -9_223_372_036_854_775_808 || Numbers.IntValue(lit) > 18_446_744_073_709_551_615
  }

  /** What a string, number or other scalar becomes at `path`. */
  function Encoded(fm: FloatFormat, path: Path, w: Any): Any
    requires !Unencodable(fm, path, w)
  {
    match w
    case AString(s) =>
      if IsHexPath(path) then ABytes(TextEncodings.HexBytes(s))
      else if IsBase64Path(path) then ABytes(TextEncodings.Unbase64(s).value)
      else w
    case ANumber(lit) =>
      if Numbers.IsIntLiteral(lit) then Numbers.IntLiteralIsDecimal(lit); AInt(Numbers.IntValue(lit))
      else AFloat(fm.read(lit).value)
    case _ => w
  }

  predicate Scalar(w: Any) {
    !w.AMap? && !w.ASlice?
  }

  lemma {:induction false} ScalarByPath(fm: FloatFormat, path: Path, w: Any)
    requires Scalar(w)
    ensures ToCbor(fm, w, RoleAlong(Bundle, path)) ==
            if Unencodable(fm, path, w) then None else Some(Encoded(fm, path, w))
  {
    hide IsHexPath, IsBase64Path, RoleAlong;
    SlotPositions(path);
    LeafToCbor(fm, w, RoleAlong(Bundle, path));
    hide ToCbor;
  }

  /** Whatever stands in a value that is encoded is encoded in the role of its path, and
      the result stands at the same path. */
  lemma {:induction false} EncoderDiscipline(fm: FloatFormat, v: Any, r: Role, path: Path, w: Any)
    requires ToCbor(fm, v, r).Some? && AnyReaches(v, path, w)
    ensures ToCbor(fm, w, RoleAlong(r, path)).Some?
    ensures AnyReaches(ToCbor(fm, v, r).value, path, ToCbor(fm, w, RoleAlong(r, path)).value)
    decreases v
  {
    hide ToCbor, ItemsToCbor;
    if path == [] && w == v {
    } else if v.ASlice? {
      LeafToCbor(fm, v, r);
      ItemAt(fm, v.items, path[0].i, ElementRole(r));
      EncoderDiscipline(fm, v.items[path[0].i], ElementRole(r), path[1..], w);
    } else {
      AllConverted(fm, v, r);
      ConvertedMembers(fm, v, r);
      EncoderDiscipline(fm, v.m[path[0].name], ChildRole(r, path[0].name), path[1..], w);
    }
  }

  lemma {:induction false} AllConverted(fm: FloatFormat, v: Any, r: Role)
    requires v.AMap?
    ensures ToCbor(fm, v, r).Some? <==> forall k :: k in v.m ==> ToCbor(fm, v.m[k], ChildRole(r, k)).Some?
  {
    hide ChildRole;
  }

  lemma {:induction false} ItemAt(fm: FloatFormat, items: seq<Any>, i: nat, er: Role)
    requires ItemsToCbor(fm, items, er).Some? && i < |items|
    ensures |ItemsToCbor(fm, items, er).value| == |items|
    ensures ToCbor(fm, items[i], er) == Some(ItemsToCbor(fm, items, er).value[i])
    decreases |items|
  {
    hide ToCbor;
    if i > 0 {
      ItemAt(fm, items[1..], i - 1, er);
    } else if |items| > 1 {
      ItemAt(fm, items[1..], 0, er);
    }
  }

  /** In a document that is encoded, every string and number, found by its path, becomes
      what its path says. */
  lemma EncodedByPath(fm: FloatFormat, v: Any, path: Path, w: Any)
    requires ToCbor(fm, v, Bundle).Some? && AnyReaches(v, path, w) && Scalar(w)
    ensures !Unencodable(fm, path, w)
    ensures AnyReaches(ToCbor(fm, v, Bundle).value, path, Encoded(fm, path, w))
  {
    hide *;
    EncoderDiscipline(fm, v, Bundle, path, w);
    ScalarByPath(fm, path, w);
  }

  /** A document is refused if and only if something in it has no encoding at its path. */
  lemma RefusedExactly(fm: FloatFormat, v: Any)
    ensures ToCbor(fm, v, Bundle).None? <==>
            exists path, w :: AnyReaches(v, path, w) && Scalar(w) && Unencodable(fm, path, w)
  {
    hide *;
    if ToCbor(fm, v, Bundle).None? {
      RootPath();
      var path, w := RefusedSomewhere(fm, v, Bundle);
      ScalarByPath(fm, path, w);
    }
    forall path, w | AnyReaches(v, path, w) && Scalar(w) && Unencodable(fm, path, w)
      ensures ToCbor(fm, v, Bundle).None?
    {
      if ToCbor(fm, v, Bundle).Some? { EncodedByPath(fm, v, path, w); }
    }
  }

  lemma RootPath()
    ensures RoleAlong(Bundle, []) == Bundle
  {
  }

  lemma {:induction false} RefusedSomewhere(fm: FloatFormat, v: Any, r: Role) returns (path: Path, w: Any)
    requires ToCbor(fm, v, r).None?
    ensures AnyReaches(v, path, w) && Scalar(w) && ToCbor(fm, w, RoleAlong(r, path)).None?
    decreases v
  {
    hide ToCbor, ItemsToCbor, ChildRole, ElementRole;
    if v.ASlice? {
      LeafToCbor(fm, v, r);
      var i := RefusedItem(fm, v.items, ElementRole(r));
      var rest, x := RefusedSomewhere(fm, v.items[i], ElementRole(r));
      path, w := [Index(i)] + rest, x;
      assert path[1..] == rest;
    } else if v.AMap? {
      AllConverted(fm, v, r);
      var k :| k in v.m && ToCbor(fm, v.m[k], ChildRole(r, k)).None?;
      var rest, x := RefusedSomewhere(fm, v.m[k], ChildRole(r, k));
      path, w := [Key(k)] + rest, x;
      assert path[1..] == rest;
    } else {
      path, w := [], v;
    }
  }

  lemma {:induction false} RefusedItem(fm: FloatFormat, items: seq<Any>, er: Role) returns (i: nat)
    requires ItemsToCbor(fm, items, er).None?
    ensures i < |items| && ToCbor(fm, items[i], er).None?
    decreases |items|
  {
    hide ToCbor;
    if ToCbor(fm, items[0], er).None? {
      i := 0;
    } else {
      var j := RefusedItem(fm, items[1..], er);
      i := j + 1;
    }
  }

  // ----- Documents -----

  /** What comes of a document `e` with `rest` behind it: refused for what follows it, for
      not being an object, or for something in it without an encoding; otherwise encoded,
      if it fits in memory. */
  lemma EncodedExactly(fm: FloatFormat, e: JsonText.Elem, rest: bytes)
    requires JsonText.ElemWellFormed(e) && JsonText.Follows(e, rest)
    ensures var (r, v) := (EncodeDocument(fm, JsonText.ElemText(e) + rest), ToAny(Meaning(e.val)));
            if !LooksFinished(rest) then r == Err(TrailingData)
            else if !e.val.Obj? then r == Err(NotAnObject)
            else if exists path, w :: AnyReaches(v, path, w) && Scalar(w) && Unencodable(fm, path, w)
            then r == Err(EncodeError.Unencodable)
            else && ToCbor(fm, v, Bundle).Some?
                 && r == if Encodable(ToCbor(fm, v, Bundle).value) then Ok(Wire(fm, ToCbor(fm, v, Bundle).value))
                         else Err(TooLarge)
  {
    hide *;
    JsonText.ParseElemExact(e, rest);
    RefusedExactly(fm, ToAny(Meaning(e.val)));
    DocumentCases(fm, JsonText.ElemText(e) + rest, e, rest);
  }

  lemma DocumentCases(fm: FloatFormat, doc: bytes, e: JsonText.Elem, rest: bytes)
    requires JsonText.ParseElem(doc) == Some((e, rest))
    ensures var (r, c) := (EncodeDocument(fm, doc), ToCbor(fm, ToAny(Meaning(e.val)), Bundle));
            if !LooksFinished(rest) then r == Err(TrailingData)
            else if !e.val.Obj? then r == Err(NotAnObject)
            else if c.None? then r == Err(EncodeError.Unencodable)
            else r == if Encodable(c.value) then Ok(Wire(fm, c.value)) else Err(TooLarge)
  {
    hide JsonText.ParseElem, ToCbor, ToAny, Meaning, Encodable, Wire;
  }

  /** What does not start with a document is refused as such. */
  lemma NoDocument(fm: FloatFormat, doc: bytes)
    ensures EncodeDocument(fm, doc) == Err(BadJson) <==>
            forall e, rest :: JsonText.ElemWellFormed(e) && JsonText.Follows(e, rest) ==>
                                doc != JsonText.ElemText(e) + rest
  {
    hide *;
    if JsonText.ParseElem(doc).Some? {
      JsonText.ElemTextExact(doc);
      StopsThere(doc);
    }
    forall e, rest | JsonText.ElemWellFormed(e) && JsonText.Follows(e, rest) && doc == JsonText.ElemText(e) + rest
      ensures JsonText.ParseElem(doc).Some?
    {
      JsonText.ParseElemExact(e, rest);
    }
    BadDocument(fm, doc);
  }

  /** Reading stops where a document of that text must stop. */
  lemma {:induction false} StopsThere(s: bytes)
    requires JsonText.ParseElem(s).Some?
    ensures JsonText.Follows(JsonText.ParseElem(s).value.0, JsonText.ParseElem(s).value.1)
  {
    var s1 := JsonText.SkipSpace(s).1;
    var (val, s2) := JsonText.Parse(s1).value;
    if val.Num? { NumberStops(s1); }
    hide JsonText.Parse;
  }

  lemma {:induction false} NumberStops(s: bytes)
    requires JsonText.Parse(s).Some? && JsonText.Parse(s).value.0.Num?
    ensures JsonText.EndsNumber(JsonText.Parse(s).value.1)
  {
    hide JsonText.IsNumber, JsonText.ParseElems, JsonText.ParseMembers;
  }

  lemma BadDocument(fm: FloatFormat, doc: bytes)
    ensures EncodeDocument(fm, doc) == Err(BadJson) <==> JsonText.ParseElem(doc).None?
  {
    hide JsonText.ParseElem, ToCbor, ToAny, Meaning, Encodable, Wire;
  }
}
