/**
 What acceptance guarantees: the role of every position is the fold of the roles
 along its path, nothing outside the JSON value space survives under a JCS
 preimage, and the emitted document is one well-formed JSON text.
 */
module BundleGuarantees {
  import opened Bytes
  import opened CborSyntax
  import opened JsonTree
  import opened BundleValue
  import opened BundleDecode
  import JsonPrint
  import Utf8

  // ----- Roles along a path -----

  function StepRole(r: Role, step: Step): Role {
    match step
    case Key(name) => ChildRole(r, name)
    case Index(_) => ElementRole(r)
  }

  /** The role of the position that `path` leads to from a position in role `r`. */
  function RoleAlong(r: Role, path: Path): Role
    decreases |path|
  {
    if path == [] then r else RoleAlong(StepRole(r, path[0]), path[1..])
  }

  lemma {:induction false} RoleAlongSnoc(r: Role, path: Path, step: Step)
    ensures RoleAlong(r, path + [step]) == StepRole(RoleAlong(r, path), step)
    decreases |path|
  {
    if path == [] {
      assert path + [step] == [step] && [step][1..] == [];
    } else {
      assert (path + [step])[1..] == path[1..] + [step];
      RoleAlongSnoc(StepRole(r, path[0]), path[1..], step);
    }
  }

  // ----- Which positions are preimages -----

  function Named(name: string): Step {
    Key(Ascii(name))
  }

  /** Where a block stands in a bundle. */
  predicate IsBlock(path: Path) {
    || path == [Named("block")]
    || (|path| == 2 && path[0] == Named("block_path") && path[1].Index?)
    || path == [Named("signing_key_event"), Named("block")]
    || path == [Named("subject"), Named("witnesses"), Named("block")]
  }

  /** A part of a bundle that is hashed as canonical JSON: the subject's claims, entropy,
      metadata and every witness but the block, and the metadata of every block. */
  predicate IsPreimage(path: Path) {
    || path == [Named("subject"), Named("claims")]
    || path == [Named("subject"), Named("entropy")]
    || path == [Named("subject"), Named("metadata")]
    || (&& |path| == 3 && path[..2] == [Named("subject"), Named("witnesses")]
        && path[2].Key? && path[2] != Named("block"))
    || (path != [] && path[|path| - 1] == Named("metadata") && IsBlock(path[..|path| - 1]))
  }

  ghost predicate InPreimage(path: Path) {
    exists n :: 0 <= n <= |path| && IsPreimage(path[..n])
  }

  /** The positions that have the other roles above a preimage. */
  ghost predicate Placed(path: Path, r: Role) {
    && (r == Hashed <==> InPreimage(path))
    && (r == Bundle <==> path == [])
    && (r == Subject <==> path == [Named("subject")])
    && (r == Witnesses <==> path == [Named("subject"), Named("witnesses")])
    && (r == BlockMap <==> IsBlock(path))
    && (r == BlockList <==> path == [Named("block_path")])
    && (r == KeyEvent <==> path == [Named("signing_key_event")])
  }

  lemma BundleChild(key: bytes)
    ensures var r := ChildRole(Bundle, key);
            && r != Hashed && r != Bundle && r != Witnesses
            && (r == Subject <==> key == Ascii("subject")) && (r == BlockMap <==> key == Ascii("block"))
            && (r == BlockList <==> key == Ascii("block_path"))
            && (r == KeyEvent <==> key == Ascii("signing_key_event"))
  {
    assert |Ascii("block")| == 5 && |Ascii("block_path")| == 10 && |Ascii("subject")| == 7;
    assert |Ascii("public_key")| == 10 && |Ascii("signature")| == 9 && |Ascii("inclusion_proof")| == 15;
    assert |Ascii("commitments")| == 11 && |Ascii("signing_key_event")| == 17;
    assert Ascii("block_path")[0] != Ascii("public_key")[0];
  }

  lemma SubjectChild(key: bytes)
    ensures var r := ChildRole(Subject, key);
            && (r == Hashed <==> key == Ascii("claims") || key == Ascii("entropy") || key == Ascii("metadata"))
            && (r == Witnesses <==> key == Ascii("witnesses"))
            && r != Bundle && r != Subject && r != BlockMap && r != BlockList && r != KeyEvent
  {
    assert |Ascii("claims")| == 6 && |Ascii("entropy")| == 7 && |Ascii("metadata")| == 8;
    assert |Ascii("witnesses")| == 9 && |Ascii("signing_key_id")| == 14;
  }

  lemma BlockChild(key: bytes)
    ensures var r := ChildRole(BlockMap, key);
            && (r == Hashed <==> key == Ascii("metadata"))
            && r != Bundle && r != Subject && r != Witnesses && r != BlockMap && r != BlockList && r != KeyEvent
  {
    assert |Ascii("previous_block_hash")| == 19 && |Ascii("merkle_root")| == 11;
    assert |Ascii("metadata")| == 8 && |Ascii("signing_key_id")| == 14;
  }

  lemma KeyEventChild(key: bytes)
    ensures var r := ChildRole(KeyEvent, key);
            && (r == BlockMap <==> key == Ascii("block"))
            && r != Hashed && r != Bundle && r != Subject && r != Witnesses && r != BlockList && r != KeyEvent
  {
  }

  /** What one more step below a position of a role leads to. */
  predicate StepPlaced(r: Role, step: Step, next: Role) {
    && (next == Hashed <==>
          || r == Hashed
          || (r == Subject && step in {Named("claims"), Named("entropy"), Named("metadata")})
          || (r == Witnesses && step.Key? && step != Named("block"))
          || (r == BlockMap && step == Named("metadata")))
    && (next == Subject <==> r == Bundle && step == Named("subject"))
    && (next == Witnesses <==> r == Subject && step == Named("witnesses"))
    && (next == BlockMap <==>
          || (r in {Bundle, KeyEvent, Witnesses} && step == Named("block"))
          || (r == BlockList && step.Index?))
    && (next == BlockList <==> r == Bundle && step == Named("block_path"))
    && (next == KeyEvent <==> r == Bundle && step == Named("signing_key_event"))
    && next != Bundle
  }

  lemma RootStep(key: bytes)
    ensures StepPlaced(Bundle, Key(key), ChildRole(Bundle, key))
  {
    hide ChildRole, Ascii;
    BundleChild(key);
  }

  lemma SubjectStep(key: bytes)
    ensures StepPlaced(Subject, Key(key), ChildRole(Subject, key))
  {
    hide ChildRole, Ascii;
    SubjectChild(key);
  }

  lemma BlockMapStep(key: bytes)
    ensures StepPlaced(BlockMap, Key(key), ChildRole(BlockMap, key))
  {
    hide ChildRole, Ascii;
    BlockChild(key);
  }

  lemma KeyEventStep(key: bytes)
    ensures StepPlaced(KeyEvent, Key(key), ChildRole(KeyEvent, key))
  {
    hide ChildRole, Ascii;
    KeyEventChild(key);
  }

  lemma WitnessStep(key: bytes)
    ensures StepPlaced(Witnesses, Key(key), ChildRole(Witnesses, key))
  {
    hide Ascii;
  }

  lemma LowerStep(r: Role, key: bytes)
    requires r !in {Bundle, Subject, BlockMap, KeyEvent, Witnesses}
    ensures StepPlaced(r, Key(key), ChildRole(r, key))
  {
    hide Ascii;
  }

  lemma IndexStep(r: Role, i: nat)
    ensures StepPlaced(r, Index(i), ElementRole(r))
  {
    hide Ascii;
  }

  lemma StepIsPlaced(r: Role, step: Step)
    ensures StepPlaced(r, step, StepRole(r, step))
  {
    hide ChildRole, ElementRole, StepPlaced;
    if step.Index? {
      IndexStep(r, step.i);
    } else if r == Bundle {
      RootStep(step.name);
    } else if r == Subject {
      SubjectStep(step.name);
    } else if r == BlockMap {
      BlockMapStep(step.name);
    } else if r == KeyEvent {
      KeyEventStep(step.name);
    } else if r == Witnesses {
      WitnessStep(step.name);
    } else {
      LowerStep(r, step.name);
    }
  }

  lemma {:induction false} PathIsPlaced(path: Path)
    ensures Placed(path, RoleAlong(Bundle, path))
    decreases |path|
  {
    if path == [] {
      assert RoleAlong(Bundle, path) == Bundle;
      assert path[..0] == [];
    } else {
      var up, step := path[..|path| - 1], path[|path| - 1];
      PathIsPlaced(up);
      assert path == up + [step];
      RoleAlongSnoc(Bundle, up, step);
      StepIsPlaced(RoleAlong(Bundle, up), step);
      hide RoleAlong, StepRole;
      PlacedBelow(path, RoleAlong(Bundle, up), RoleAlong(Bundle, path));
    }
  }

  lemma PlacedBelow(path: Path, r: Role, next: Role)
    requires path != [] && Placed(path[..|path| - 1], r) && StepPlaced(r, path[|path| - 1], next)
    ensures Placed(path, next)
  {
    hide *;
    var up, step := path[..|path| - 1], path[|path| - 1];
    assert path == up + [step];
    PreimageBelow(path);
    PreimageStep(up, step);
    BlockStep(up, step);
    PlacedStep(up, step, r, next);
  }

  lemma PlacedStep(up: Path, step: Step, r: Role, next: Role)
    requires Placed(up, r) && StepPlaced(r, step, next)
    requires InPreimage(up + [step]) <==> InPreimage(up) || IsPreimage(up + [step])
    requires IsPreimage(up + [step]) <==>
             || (up == [Named("subject")] && step in {Named("claims"), Named("entropy"), Named("metadata")})
             || (up == [Named("subject"), Named("witnesses")] && step.Key? && step != Named("block"))
             || (IsBlock(up) && step == Named("metadata"))
    requires IsBlock(up + [step]) <==>
             || (up == [] && step == Named("block"))
             || (up == [Named("block_path")] && step.Index?)
             || (up == [Named("signing_key_event")] && step == Named("block"))
             || (up == [Named("subject"), Named("witnesses")] && step == Named("block"))
    ensures Placed(up + [step], next)
  {
    hide Named, IsBlock, InPreimage, IsPreimage;
    var path := up + [step];
    assert path == [Named("subject")] <==> up == [] && step == Named("subject") by {
      OneStep(up, step, Named("subject"));
    }
    assert path == [Named("block_path")] <==> up == [] && step == Named("block_path") by {
      OneStep(up, step, Named("block_path"));
    }
    assert path == [Named("signing_key_event")] <==> up == [] && step == Named("signing_key_event") by {
      OneStep(up, step, Named("signing_key_event"));
    }
    assert path == [Named("subject"), Named("witnesses")] <==>
           up == [Named("subject")] && step == Named("witnesses") by {
      TwoSteps(up, step, Named("subject"), Named("witnesses"));
    }
  }

  lemma OneStep(up: Path, step: Step, a: Step)
    ensures up + [step] == [a] <==> up == [] && step == a
  {
    if up + [step] == [a] { assert (up + [step])[|up|] == step; }
  }

  lemma TwoSteps(up: Path, step: Step, a: Step, b: Step)
    ensures up + [step] == [a, b] <==> up == [a] && step == b
  {
    if up + [step] == [a, b] {
      assert (up + [step])[|up|] == step && |up| == 1 && (up + [step])[0] == up[0];
    }
  }

  lemma PreimageBelow(path: Path)
    requires path != []
    ensures InPreimage(path) <==> InPreimage(path[..|path| - 1]) || IsPreimage(path)
  {
    hide IsPreimage;
    var up := path[..|path| - 1];
    assert forall n :: 0 <= n <= |up| ==> up[..n] == path[..n];
    assert path[..|path|] == path;
    if InPreimage(path) {
      var n :| 0 <= n <= |path| && IsPreimage(path[..n]);
      if n < |path| { assert IsPreimage(up[..n]); }
    }
    if InPreimage(up) {
      var n :| 0 <= n <= |up| && IsPreimage(up[..n]);
      assert IsPreimage(path[..n]);
    }
  }

  lemma PreimageStep(up: Path, step: Step)
    ensures IsPreimage(up + [step]) <==>
            || (up == [Named("subject")] && step in {Named("claims"), Named("entropy"), Named("metadata")})
            || (up == [Named("subject"), Named("witnesses")] && step.Key? && step != Named("block"))
            || (IsBlock(up) && step == Named("metadata"))
  {
    hide Named, IsBlock;
    var path := up + [step];
    assert path[..|path| - 1] == up && path[|path| - 1] == step;
    if |up| == 1 {
      assert path == [up[0], step];
    }
    if |up| == 2 {
      assert path[..2] == up;
    }
  }

  lemma BlockStep(up: Path, step: Step)
    ensures IsBlock(up + [step]) <==>
            || (up == [] && step == Named("block"))
            || (up == [Named("block_path")] && step.Index?)
            || (up == [Named("signing_key_event")] && step == Named("block"))
            || (up == [Named("subject"), Named("witnesses")] && step == Named("block"))
  {
    hide Named;
    var path := up + [step];
    if |up| == 0 { assert path == [step]; }
    if |up| == 1 { assert path == [up[0], step]; }
    if |up| == 2 { assert path == [up[0], up[1], step]; }
  }

  /** A position's value must stay inside the JSON value space exactly if it is, or is
      part of, a preimage. */
  lemma PreimagePositions(path: Path)
    ensures RoleAlong(Bundle, path) == Hashed <==> InPreimage(path)
  {
    PathIsPlaced(path);
  }

  // ----- The JSON value space -----

  /** Only what has a JSON counterpart: no byte string, tag, undefined or other
      simple value, non-finite float, non-text key or text that is not UTF-8. */
  predicate JsonSpace(v: Value)
    decreases v, 0
  {
    match v
    case VInt(_) => true
    case VBytes(_) => false
    case VText(t) => Utf8.Valid(t)
    case VList(items) => JsonSpaceItems(items)
    case VMap(items) => JsonSpacePairs(items)
    case VTag(_, _) => false
    case VSimple(n) => 20 <= n <= 22
    case VFloat(x) => Finite(x)
  }

  predicate JsonSpaceItems(vs: seq<Value>)
    decreases vs, 1
  {
    vs == [] || (JsonSpace(vs[0]) && JsonSpaceItems(vs[1..]))
  }

  predicate JsonSpacePairs(vs: seq<Value>)
    decreases vs, 1
  {
    vs == [] || (|vs| >= 2 && vs[0].VText? && Utf8.Valid(vs[0].t) && JsonSpace(vs[1]) && JsonSpacePairs(vs[2..]))
  }

  lemma {:induction false} HashedStaysInJsonSpace(fm: FloatFormat, v: Value)
    requires Convert(fm, v, Hashed).Some?
    ensures JsonSpace(v)
    decreases v, 0
  {
    match v
    case VList(items) => HashedItems(fm, items);
    case VMap(items) => HashedPairs(fm, items, {});
    case _ =>
  }

  lemma {:induction false} HashedItems(fm: FloatFormat, vs: seq<Value>)
    requires ConvertItems(fm, vs, Hashed).Some?
    ensures JsonSpaceItems(vs)
    decreases vs, 1
  {
    if vs != [] {
      HashedStaysInJsonSpace(fm, vs[0]);
      HashedItems(fm, vs[1..]);
    }
  }

  lemma {:induction false} HashedPairs(fm: FloatFormat, vs: seq<Value>, seen: set<bytes>)
    requires ConvertPairs(fm, vs, Hashed, seen).Some?
    ensures JsonSpacePairs(vs)
    decreases vs, 1
  {
    if vs != [] {
      HashedStaysInJsonSpace(fm, vs[1]);
      HashedPairs(fm, vs[2..], seen + {TextOf(vs[0].t, Hashed).value});
    }
  }

  // ----- Every position has the role of its path -----

  /** `w` is the value at `path` under `v`, looking through tags; a map member is
      found by its emitted name. */
  predicate Reaches(v: Value, path: Path, w: Value)
    decreases v
  {
    || (path == [] && w == v)
    || (v.VTag? && Reaches(v.value, path, w))
    || (&& v.VList? && path != [] && path[0].Index? && path[0].i < |v.items|
        && Reaches(v.items[path[0].i], path[1..], w))
    || (&& v.VMap? && path != [] && path[0].Key?
        && exists m :: 0 <= m < |v.items| - 1 && KeyIsAt(v.items, m, path[0].name)
                                                   && Reaches(v.items[m + 1], path[1..], w))
  }

  /** A key of a map is at an even index; its emitted name is `name`. */
  predicate KeyIsAt(items: seq<Value>, m: nat, name: bytes)
    requires m < |items|
  {
    m % 2 == 0 && items[m].VText? && Utf8.Repaired(items[m].t, false) == name
  }

  predicate JsonReaches(j: Json, path: Path, x: Json)
    decreases j
  {
    || (path == [] && x == j)
    || (&& j.JArr? && path != [] && path[0].Index? && path[0].i < |j.items|
        && JsonReaches(j.items[path[0].i], path[1..], x))
    || (&& j.JObj? && path != [] && path[0].Key?
        && exists m :: 0 <= m < |j.fields| && j.fields[m].name == path[0].name
                       && JsonReaches(j.fields[m].val, path[1..], x))
  }

  /** Role discipline: whatever an accepted value holds at a path was converted in
      the role of that path, and the result stands at the same path. */
  lemma {:induction false} RoleDiscipline(fm: FloatFormat, v: Value, r: Role, path: Path, w: Value)
    requires Convert(fm, v, r).Some? && Reaches(v, path, w)
    ensures Convert(fm, w, RoleAlong(r, path)).Some?
    ensures JsonReaches(Convert(fm, v, r).value, path, Convert(fm, w, RoleAlong(r, path)).value)
    decreases v
  {
    if path == [] && w == v {
    } else if v.VTag? {
      RoleDiscipline(fm, v.value, r, path, w);
    } else if v.VList? {
      var i := path[0].i;
      ItemAt(fm, v.items, ElementRole(r), i);
      RoleDiscipline(fm, v.items[i], ElementRole(r), path[1..], w);
    } else {
      var m :| 0 <= m < |v.items| - 1 && KeyIsAt(v.items, m, path[0].name) && Reaches(v.items[m + 1], path[1..], w);
      PairAt(fm, v.items, r, {}, m);
      var f := ConvertPairs(fm, v.items, r, {}).value[m / 2];
      RoleDiscipline(fm, v.items[m + 1], ChildRole(r, path[0].name), path[1..], w);
      assert JsonReaches(f.val, path[1..], Convert(fm, w, RoleAlong(r, path)).value);
    }
  }

  lemma {:induction false} ItemAt(fm: FloatFormat, vs: seq<Value>, er: Role, i: nat)
    requires ConvertItems(fm, vs, er).Some? && i < |vs|
    ensures |ConvertItems(fm, vs, er).value| == |vs|
    ensures Convert(fm, vs[i], er) == Some(ConvertItems(fm, vs, er).value[i])
    decreases |vs|
  {
    hide Convert;
    var js := ConvertItems(fm, vs[1..], er).value;
    if i > 0 {
      ItemAt(fm, vs[1..], er, i - 1);
    } else if |vs| > 1 {
      ItemAt(fm, vs[1..], er, 0);
    }
  }

  lemma {:induction false} PairAt(fm: FloatFormat, vs: seq<Value>, r: Role, seen: set<bytes>, m: nat)
    requires ConvertPairs(fm, vs, r, seen).Some? && m + 1 < |vs| && m % 2 == 0
    ensures vs[m].VText? && TextOf(vs[m].t, r) == Some(Utf8.Repaired(vs[m].t, false))
    ensures var (fields, name) := (ConvertPairs(fm, vs, r, seen).value, Utf8.Repaired(vs[m].t, false));
            && m / 2 < |fields| && fields[m / 2].name == name
            && Convert(fm, vs[m + 1], ChildRole(r, name)) == Some(fields[m / 2].val)
    decreases |vs|
  {
    hide Convert, ChildRole, Utf8.Valid, Utf8.Repaired;
    Utf8.RepairedIsIdentity(vs[0].t);
    if m > 0 {
      var key := TextOf(vs[0].t, r).value;
      PairAt(fm, vs[2..], r, seen + {key}, m - 2);
      var fields := ConvertPairs(fm, vs, r, seen).value;
      assert fields[m / 2] == ConvertPairs(fm, vs[2..], r, seen + {key}).value[(m - 2) / 2];
    }
  }

  /** If a bundle is accepted, every value it holds in a preimage lies in the JSON value
      space. */
  lemma {:induction false} AcceptedPreimages(fm: FloatFormat, data: bytes, path: Path, w: Value)
    requires DecodeBundle(fm, data).Ok? && ParseItem(Untagged(data)).Some?
    requires Reaches(ItemValue(fm, ParseItem(Untagged(data)).value.0), path, w)
    requires InPreimage(path)
    ensures JsonSpace(w)
  {
    hide DecodeBundle, ParseItem, Convert, ItemValue, Reaches, JsonSpace, InPreimage;
    PreimagePositions(path);
    BundleAgrees(fm, data);
    RoleDiscipline(fm, ItemValue(fm, ParseItem(Untagged(data)).value.0), Bundle, path, w);
    HashedStaysInJsonSpace(fm, w);
  }

  /** Every accepted bundle becomes one JSON text, in UTF-8, that a strict reader
      takes back to exactly the converted value, with no repeated member name. */
  lemma {:induction false} EmittedJsonIsWellFormed(fm: FloatFormat, data: bytes)
    requires WritesFloats(fm) && DecodeBundle(fm, data).Ok?
    ensures var j := DecodeBundle(fm, data).value;
            Sound(j) && Read(Print(j)) == Some(j) && Utf8.Valid(Print(j))
  {
    hide DecodeBundle, ParseItem, Convert, ItemValue;
    BundleAgrees(fm, data);
    var v := ItemValue(fm, ParseItem(Untagged(data)).value.0);
    ConvertIsSound(fm, v, Bundle);
    JsonPrint.ReadPrint(Convert(fm, v, Bundle).value);
    JsonPrint.PrintIsUtf8(Convert(fm, v, Bundle).value);
  }

  // ----- Refusals -----

  /** A refusal of subject data names a position at or below `path` that is a JCS
      preimage. */
  ghost predicate NamesPreimage(e: Error, path: Path) {
    e.InvalidSubjectData? ==> path <= e.path && RoleAlong(Bundle, e.path) == Hashed
  }

  /** The code invalid_subject_data is reported only for JCS preimages, and the
      reported path leads into one. */
  lemma {:induction false} RefusalNamesPreimage(fm: FloatFormat, data: bytes)
    ensures var res := DecodeBundle(fm, data);
            res.Err? && res.error.InvalidSubjectData? ==> InPreimage(res.error.path)
  {
    hide CborHead, DecodeItem, InPreimage;
    ItemRefusal(fm, Untagged(data), Bundle, []);
    var res := DecodeBundle(fm, data);
    if res.Err? && res.error.InvalidSubjectData? { PreimagePositions(res.error.path); }
  }

  lemma {:induction false} ItemRefusal(fm: FloatFormat, s: bytes, r: Role, path: Path)
    requires r == RoleAlong(Bundle, path)
    ensures DecodeItem(fm, s, r, path).Err? ==> NamesPreimage(DecodeItem(fm, s, r, path).error, path)
    decreases |s|, 0
  {
    hide CborHead, DecodeBody, RoleAlong;
    if CborHead(s).Ok? {
      BodyRefusal(fm, CborHead(s).value, s[CborHead(s).value.Len()..], r, path);
    }
  }

  lemma {:induction false} BodyRefusal(fm: FloatFormat, h: Head, s: bytes, r: Role, path: Path)
    requires r == RoleAlong(Bundle, path)
    ensures DecodeBody(fm, h, s, r, path).Err? ==> NamesPreimage(DecodeBody(fm, h, s, r, path).error, path)
    decreases |s|, 3
  {
    hide DecodeElems, DecodeFields, DecodeItem, StringContent, RoleAlong, ElementRole;
    match h.major
    case 2 => ContentRefusal(false, h, s);
    case 3 => ContentRefusal(true, h, s);
    case 4 => ElemsRefusal(fm, s, if h.form == Open then None else Some(h.arg), ElementRole(r), path, []);
    case 5 => FieldsRefusal(fm, s, if h.form == Open then None else Some(h.arg), r, path, [], {});
    case 6 => ItemRefusal(fm, s, r, path);
    case _ =>
  }

  lemma {:induction false} ContentRefusal(text: bool, h: Head, s: bytes)
    ensures StringContent(text, h, s).Err? ==> StringContent(text, h, s).error.Malformed?
  {
    if h.form == Open { ChunkedRefusal(text, s, []); }
  }

  lemma {:induction false} ChunkedRefusal(text: bool, s: bytes, acc: bytes)
    ensures ChunkedContent(text, s, acc).Err? ==> ChunkedContent(text, s, acc).error.Malformed?
    decreases |s|
  {
    hide CborHead;
    if s != [] && s[0] != BREAK && CborHead(s).Ok? {
      var h := CborHead(s).value;
      if h.arg <= |s| - h.Len() {
        ChunkedRefusal(text, s[h.Len() + h.arg..], acc + s[h.Len()..h.Len() + h.arg]);
      }
    }
  }

  lemma {:induction false} ElemsRefusal(fm: FloatFormat, s: bytes, count: Option<nat>, er: Role, path: Path,
                                        acc: seq<Json>)
    requires er == ElementRole(RoleAlong(Bundle, path))
    ensures DecodeElems(fm, s, count, er, path, acc).Err? ==>
              NamesPreimage(DecodeElems(fm, s, count, er, path, acc).error, path)
    decreases |s|, 1
  {
    hide DecodeItem, RoleAlong, ElementRole;
    if !(count.Some? && |acc| >= count.value) && !(count.None? && AtBreak(s)) {
      var at := path + [Index(|acc|)];
      RoleAlongSnoc(Bundle, path, Index(|acc|));
      ItemRefusal(fm, s, er, at);
      if DecodeItem(fm, s, er, at).Ok? {
        var (j, rest) := DecodeItem(fm, s, er, at).value;
        ElemsRefusal(fm, rest, count, er, path, acc + [j]);
      }
    }
  }

  lemma {:induction false} MemberRefusal(fm: FloatFormat, s: bytes, r: Role, path: Path, seen: set<bytes>)
    requires r == RoleAlong(Bundle, path)
    ensures DecodeMember(fm, s, r, path, seen).Err? ==> NamesPreimage(DecodeMember(fm, s, r, path, seen).error, path)
    decreases |s|, 1
  {
    hide CborHead, StringContent, DecodeItem, RoleAlong, ChildRole;
    if CborHead(s).Ok? { ContentRefusal(true, CborHead(s).value, s[CborHead(s).value.Len()..]); }
    if DecodeKey(s, r, path).Ok? {
      var (key, s1) := DecodeKey(s, r, path).value;
      RoleAlongSnoc(Bundle, path, Key(key));
      ItemRefusal(fm, s1, ChildRole(r, key), path + [Key(key)]);
    }
  }

  lemma {:induction false} FieldsRefusal(fm: FloatFormat, s: bytes, count: Option<nat>, r: Role, path: Path,
                                         acc: seq<Field>, seen: set<bytes>)
    requires r == RoleAlong(Bundle, path)
    ensures DecodeFields(fm, s, count, r, path, acc, seen).Err? ==>
              NamesPreimage(DecodeFields(fm, s, count, r, path, acc, seen).error, path)
    decreases |s|, 2
  {
    hide DecodeMember, RoleAlong;
    if !(count.Some? && |acc| >= count.value) && !(count.None? && AtBreak(s)) {
      MemberRefusal(fm, s, r, path, seen);
      if DecodeMember(fm, s, r, path, seen).Ok? {
        var (f, rest) := DecodeMember(fm, s, r, path, seen).value;
        FieldsRefusal(fm, rest, count, r, path, acc + [f], seen + {f.name});
      }
    }
  }
}
