/**
 Refusals tell the truth: the reported path leads to a value of the bundle, and that value
 is what the refusal says it is.
 */
module BundleReasons {
  import opened Bytes
  import opened CborSyntax
  import opened JsonTree
  import opened BundleValue
  import opened BundleDecode
  import opened BundleGuarantees
  import opened BundleRefusals
  import BundlePaths
  import Utf8

  /** Where an error says it is. */
  function Place(e: Error): Path {
    match e
    case InvalidSubjectData(path, _) => path
    case Malformed(KeyNotText(_, path)) => path
    case Malformed(DuplicateKey(_, path)) => path
    case _ => []
  }

  /** A key that is no text stands in the map. */
  ghost predicate HasOtherKey(items: seq<Value>, isBytes: bool) {
    exists m :: 0 <= m < |items| && m % 2 == 0 && !items[m].VText? && (items[m].VBytes? <==> isBytes)
  }

  ghost predicate HasBadKey(items: seq<Value>) {
    exists m :: 0 <= m < |items| && m % 2 == 0 && items[m].VText? && !Utf8.Valid(items[m].t)
  }

  /** Two keys are emitted under this name. */
  ghost predicate HasTwice(items: seq<Value>, name: bytes) {
    exists m, n :: 0 <= m < n < |items| && KeyIsAt(items, m, name) && KeyIsAt(items, n, name)
  }

  /** What is refused is what the error says. */
  ghost predicate IsReason(e: Error, w: Value) {
    match e
    case InvalidSubjectData(_, why) =>
      (match why
       case ByteString => w.VBytes?
       case BadUtf8 => w.VText? && !Utf8.Valid(w.t)
       case TagItem(tag) => w.VTag? && w.tag == tag
       case Undefined => w == VSimple(23)
       case SimpleValue(n) => w == VSimple(n) && !(20 <= n <= 23)
       case NonFinite => w.VFloat? && !Finite(w.x)
       case KeyIsNotText(isBytes) => w.VMap? && HasOtherKey(w.items, isBytes)
       case KeyBadUtf8 => w.VMap? && HasBadKey(w.items))
    case Malformed(KeyNotText(isBytes, _)) => w.VMap? && HasOtherKey(w.items, isBytes)
    case Malformed(DuplicateKey(name, _)) => w.VMap? && HasTwice(w.items, name)
    case _ => false
  }

  /** Below `path` the error leads to a value of `v` that is its reason. */
  ghost predicate Explains(e: Error, path: Path, v: Value) {
    exists sub, w :: Place(e) == path + sub && Reaches(v, sub, w) && IsReason(e, w)
  }

  lemma ExplainsHere(e: Error, path: Path, v: Value)
    requires Place(e) == path && IsReason(e, v)
    ensures Explains(e, path, v)
  {
    hide IsReason, Place;
    assert path + [] == path && Reaches(v, [], v);
  }

  /** What explains an error below a step explains it of the whole. */
  lemma ExplainsBelow(e: Error, path: Path, step: Step, x: Value, v: Value)
    requires Explains(e, path + [step], x)
    requires forall sub, w :: Reaches(x, sub, w) ==> Reaches(v, [step] + sub, w)
    ensures Explains(e, path, v)
  {
    hide IsReason, Place, Reaches;
    var sub, w :| Place(e) == path + [step] + sub && Reaches(x, sub, w) && IsReason(e, w);
    assert path + [step] + sub == path + ([step] + sub);
    assert Reaches(v, [step] + sub, w);
  }

  lemma ElementReaches(v: Value, i: nat)
    requires v.VList? && i < |v.items|
    ensures forall sub, w :: Reaches(v.items[i], sub, w) ==> Reaches(v, [Index(i)] + sub, w)
  {
    forall sub, w | Reaches(v.items[i], sub, w) ensures Reaches(v, [Index(i)] + sub, w) {
      assert ([Index(i)] + sub)[1..] == sub;
    }
  }

  lemma MemberReaches(v: Value, m: nat, name: bytes)
    requires v.VMap? && m + 1 < |v.items| && KeyIsAt(v.items, m, name)
    ensures forall sub, w :: Reaches(v.items[m + 1], sub, w) ==> Reaches(v, [Key(name)] + sub, w)
  {
    hide KeyIsAt;
    forall sub, w | Reaches(v.items[m + 1], sub, w) ensures Reaches(v, [Key(name)] + sub, w) {
      assert ([Key(name)] + sub)[1..] == sub;
    }
  }

  lemma TagReaches(v: Value)
    requires v.VTag?
    ensures forall sub, w :: Reaches(v.value, sub, w) ==> Reaches(v, sub, w)
  {
  }

  lemma {:induction false} ErrorExplained(fm: FloatFormat, v: Value, r: Role, path: Path)
    requires Judged(fm, v, r, path).Err?
    ensures Explains(Judged(fm, v, r, path).error, path, v)
    decreases v, 0
  {
    hide *;
    if v.VList? {
      ListJudged(fm, v, r, path);
      assert v.items[0..] == v.items;
      ElemsExplained(fm, v, 0, ElementRole(r), path, []);
    } else if v.VMap? {
      MapJudged(fm, v, r, path);
      assert v.items[0..] == v.items;
      NothingSeen(v.items);
      FieldsExplained(fm, v, 0, r, path, [], {});
    } else if v.VTag? && r != Hashed {
      TagJudged(fm, v, r, path);
      ErrorExplained(fm, v.value, r, path);
      TagReaches(v);
      TagExplains(Judged(fm, v, r, path).error, path, v);
    } else {
      LeafExplained(fm, v, r, path);
      ExplainsHere(Judged(fm, v, r, path).error, path, v);
    }
  }

  lemma {:induction false} ListJudged(fm: FloatFormat, v: Value, r: Role, path: Path)
    requires v.VList? && Judged(fm, v, r, path).Err?
    ensures ElemsJudged(fm, v.items, ElementRole(r), path, []) == Err(Judged(fm, v, r, path).error)
  {
    hide ElemsJudged, ElementRole;
  }

  lemma {:induction false} MapJudged(fm: FloatFormat, v: Value, r: Role, path: Path)
    requires v.VMap? && Judged(fm, v, r, path).Err?
    ensures FieldsJudged(fm, v.items, r, path, [], {}) == Err(Judged(fm, v, r, path).error)
  {
    hide FieldsJudged;
  }

  lemma {:induction false} TagJudged(fm: FloatFormat, v: Value, r: Role, path: Path)
    requires v.VTag? && r != Hashed
    ensures Judged(fm, v, r, path) == Judged(fm, v.value, r, path)
  {
  }

  lemma TagExplains(e: Error, path: Path, v: Value)
    requires v.VTag? && Explains(e, path, v.value)
    requires forall sub, w :: Reaches(v.value, sub, w) ==> Reaches(v, sub, w)
    ensures Explains(e, path, v)
  {
    hide IsReason, Place, Reaches;
  }

  lemma {:induction false} LeafExplained(fm: FloatFormat, v: Value, r: Role, path: Path)
    requires Judged(fm, v, r, path).Err? && !v.VList? && !v.VMap? && !(v.VTag? && r != Hashed)
    ensures var e := Judged(fm, v, r, path).error; Place(e) == path && IsReason(e, v)
  {
    hide Finite, Utf8.Valid, Utf8.Repaired;
  }

  lemma {:induction false} ElemsExplained(fm: FloatFormat, v: Value, i: nat, er: Role, path: Path, acc: seq<Json>)
    requires v.VList? && i <= |v.items| && |acc| == i && ElemsJudged(fm, v.items[i..], er, path, acc).Err?
    ensures Explains(ElemsJudged(fm, v.items[i..], er, path, acc).error, path, v)
    decreases v, 0, |v.items| - i
  {
    hide *;
    ElemsUnfold(fm, v.items, i, er, path, acc);
    var first := Judged(fm, v.items[i], er, path + [Index(i)]);
    if first.Err? {
      ErrorExplained(fm, v.items[i], er, path + [Index(i)]);
      ElementReaches(v, i);
      ExplainsBelow(first.error, path, Index(i), v.items[i], v);
    } else {
      ElemsExplained(fm, v, i + 1, er, path, acc + [first.value]);
    }
  }

  lemma {:induction false} ElemsUnfold(fm: FloatFormat, vs: seq<Value>, i: nat, er: Role, path: Path, acc: seq<Json>)
    requires i <= |vs| && |acc| == i && ElemsJudged(fm, vs[i..], er, path, acc).Err?
    ensures i < |vs|
    ensures ElemsJudged(fm, vs[i..], er, path, acc) ==
            match Judged(fm, vs[i], er, path + [Index(i)])
            case Err(e) => Err(e)
            case Ok(j) => ElemsJudged(fm, vs[i + 1..], er, path, acc + [j])
  {
    hide Judged;
    if i < |vs| { assert vs[i..][0] == vs[i] && vs[i..][1..] == vs[i + 1..]; }
  }

  /** Every name seen so far belongs to a key before index `i`. */
  ghost predicate SeenBefore(items: seq<Value>, i: nat, seen: set<bytes>) {
    forall name :: name in seen ==> exists m :: 0 <= m < i && m < |items| && KeyIsAt(items, m, name)
  }

  lemma NothingSeen(items: seq<Value>)
    ensures SeenBefore(items, 0, {})
  {
  }

  lemma {:induction false} FieldsExplained(fm: FloatFormat, v: Value, i: nat, r: Role, path: Path, acc: seq<Field>,
                                           seen: set<bytes>)
    requires v.VMap? && i <= |v.items| && i % 2 == 0 && SeenBefore(v.items, i, seen)
    requires FieldsJudged(fm, v.items[i..], r, path, acc, seen).Err?
    ensures Explains(FieldsJudged(fm, v.items[i..], r, path, acc, seen).error, path, v)
    decreases v, 0, |v.items| - i
  {
    hide *;
    FieldsUnfold(fm, v.items, i, r, path, acc, seen);
    var k, x := v.items[i], v.items[i + 1];
    var first := MemberJudged(fm, k, x, r, path, seen);
    MemberUnfold(fm, k, x, r, path, seen);
    KeyExplained(v, i, r, path);
    if first.Ok? {
      SeenMore(v.items, i, seen, first.value.name);
      FieldsExplained(fm, v, i + 2, r, path, acc + [first.value], seen + {first.value.name});
    } else if KeyJudged(k, r, path).Err? {
      ExplainsHere(first.error, path, v);
    } else {
      var name := KeyJudged(k, r, path).value;
      if name in seen {
        TwiceExplained(v, i, seen, name, path);
        ExplainsHere(first.error, path, v);
      } else {
        ErrorExplained(fm, x, ChildRole(r, name), path + [Key(name)]);
        MemberReaches(v, i, name);
        ExplainsBelow(first.error, path, Key(name), x, v);
      }
    }
  }

  lemma {:induction false} FieldsUnfold(fm: FloatFormat, vs: seq<Value>, i: nat, r: Role, path: Path, acc: seq<Field>,
                                        seen: set<bytes>)
    requires i <= |vs| && FieldsJudged(fm, vs[i..], r, path, acc, seen).Err?
    ensures i + 1 < |vs|
    ensures FieldsJudged(fm, vs[i..], r, path, acc, seen) ==
            match MemberJudged(fm, vs[i], vs[i + 1], r, path, seen)
            case Err(e) => Err(e)
            case Ok(f) => FieldsJudged(fm, vs[i + 2..], r, path, acc + [f], seen + {f.name})
  {
    hide MemberJudged;
    if i + 1 < |vs| { assert vs[i..][0] == vs[i] && vs[i..][1] == vs[i + 1] && vs[i..][2..] == vs[i + 2..]; }
  }

  lemma {:induction false} MemberUnfold(fm: FloatFormat, k: Value, v: Value, r: Role, path: Path, seen: set<bytes>)
    ensures MemberJudged(fm, k, v, r, path, seen) ==
            match KeyJudged(k, r, path)
            case Err(e) => Err(e)
            case Ok(key) =>
              if key in seen then Err(Malformed(DuplicateKey(key, path)))
              else
                match Judged(fm, v, ChildRole(r, key), path + [Key(key)])
                case Err(e) => Err(e)
                case Ok(j) => Ok(Field(key, j))
  {
    hide KeyJudged, Judged, ChildRole;
  }

  /** A key that is refused is a reason, and any other is emitted under the name it gets. */
  lemma KeyExplained(v: Value, i: nat, r: Role, path: Path)
    requires v.VMap? && i < |v.items| && i % 2 == 0
    ensures var res := KeyJudged(v.items[i], r, path);
            if res.Err? then Place(res.error) == path && IsReason(res.error, v) else KeyIsAt(v.items, i, res.value)
  {
    hide TextOf, Utf8.Valid, Utf8.Repaired;
    if v.items[i].VText? { BundlePaths.TextOfName(v.items[i].t, r); }
  }

  lemma TwiceExplained(v: Value, i: nat, seen: set<bytes>, name: bytes, path: Path)
    requires v.VMap? && i < |v.items| && SeenBefore(v.items, i, seen) && name in seen && KeyIsAt(v.items, i, name)
    ensures var e := Malformed(DuplicateKey(name, path)); Place(e) == path && IsReason(e, v)
  {
    hide KeyIsAt;
    var m :| 0 <= m < i && m < |v.items| && KeyIsAt(v.items, m, name);
  }

  lemma SeenMore(items: seq<Value>, i: nat, seen: set<bytes>, name: bytes)
    requires i < |items| && SeenBefore(items, i, seen) && KeyIsAt(items, i, name)
    ensures SeenBefore(items, i + 2, seen + {name})
  {
    hide KeyIsAt;
    forall x | x in seen + {name} ensures exists m :: 0 <= m < i + 2 && m < |items| && KeyIsAt(items, m, x) {
      if x in seen {
        var m :| 0 <= m < i && m < |items| && KeyIsAt(items, m, x);
      } else {
        assert KeyIsAt(items, i, x);
      }
    }
  }

  /** However a map is spelled and whatever follows it, its refusal leads to the value that
      is the reason, by the path it names. */
  lemma RefusalIsTrue(fm: FloatFormat, a: Item, tagged: bool, x: bytes)
    requires WellFormed(a) && a.Table?
    requires DecodeBundle(fm, (if tagged then SELF_DESCRIBED else []) + Serial(a) + x).Err?
    ensures var e := DecodeBundle(fm, (if tagged then SELF_DESCRIBED else []) + Serial(a) + x).error;
            exists w :: Reaches(ItemValue(fm, a), Place(e), w) && IsReason(e, w)
  {
    hide *;
    BundleJudged(fm, a, tagged, x);
    var v := ItemValue(fm, a);
    ErrorExplained(fm, v, Bundle, []);
    AtPlace(Judged(fm, v, Bundle, []).error, v);
  }

  lemma AtPlace(e: Error, v: Value)
    requires Explains(e, [], v)
    ensures exists w :: Reaches(v, Place(e), w) && IsReason(e, w)
  {
    hide Place, Reaches, IsReason;
    var sub, w :| Place(e) == [] + sub && Reaches(v, sub, w) && IsReason(e, w);
    assert [] + sub == sub;
  }

  // ----- Strings that stop short -----

  function ChunkRun(text: bool, chunks: seq<Chunk>): bytes
    requires ChunksWellFormed(chunks)
  {
    if chunks == [] then [] else ChunkBytes(text, chunks[0]) + ChunkRun(text, chunks[1..])
  }

  /** The head of a chunk of the right kind and of definite length. */
  predicate StartsChunk(text: bool, tail: bytes) {
    CborHead(tail).Ok? && CborHead(tail).value.major == (if text then 3 else 2) && CborHead(tail).value.form != Open
  }

  /** What stands where reading a chunked string stopped: nothing, something else than a
      chunk or the break, or a chunk with more content than there is. */
  predicate StopsAt(text: bool, tail: bytes, why: Detail) {
    match why
    case TruncatedChunks => tail == []
    case BadChunk => tail != [] && tail[0] != 0xFF && !StartsChunk(text, tail)
    case TruncatedString =>
      tail != [] && tail[0] != 0xFF && StartsChunk(text, tail)
      && CborHead(tail).value.arg > |tail| - CborHead(tail).value.Len()
    case _ => false
  }

  /** A string of indefinite length is refused for what follows its well-formed chunks. */
  lemma {:induction false} ChunksStop(text: bool, s: bytes, acc: bytes) returns (chunks: seq<Chunk>, tail: bytes)
    requires ChunkedContent(text, s, acc).Err?
    ensures ChunksWellFormed(chunks) && s == ChunkRun(text, chunks) + tail
    ensures var e := ChunkedContent(text, s, acc).error; e.Malformed? && StopsAt(text, tail, e.detail)
    decreases |s|
  {
    hide *;
    chunks, tail := [], s;
    if s == [] || s[0] == BREAK || !StartsChunk(text, s) || StopsAt(text, s, TruncatedString) {
      StopsHere(text, s, acc);
    } else {
      var c, rest := FirstChunk(text, s, acc);
      var more, end := ChunksStop(text, rest, acc + c.content);
      chunks, tail := [c] + more, end;
      RunCons(text, c, more, rest, end);
    }
  }

  lemma {:induction false} StopsHere(text: bool, s: bytes, acc: bytes)
    requires ChunkedContent(text, s, acc).Err?
    requires s == [] || s[0] == BREAK || !StartsChunk(text, s) || StopsAt(text, s, TruncatedString)
    ensures ChunksWellFormed([]) && s == ChunkRun(text, []) + s
    ensures var e := ChunkedContent(text, s, acc).error; e.Malformed? && StopsAt(text, s, e.detail)
  {
    hide CborHead;
  }

  lemma {:induction false} FirstChunk(text: bool, s: bytes, acc: bytes) returns (c: Chunk, rest: bytes)
    requires ChunkedContent(text, s, acc).Err? && s != [] && s[0] != BREAK && StartsChunk(text, s)
    requires !StopsAt(text, s, TruncatedString)
    ensures ChunkWellFormed(c) && s == ChunkBytes(text, c) + rest && |rest| < |s|
    ensures ChunkedContent(text, rest, acc + c.content) == ChunkedContent(text, s, acc)
  {
    var h := CborHead(s).value;
    HeadSpelled(s);
    hide CborHead, HeadBytes;
    c, rest := Chunk(h.form, s[h.Len()..h.Len() + h.arg]), s[h.Len() + h.arg..];
    assert s == s[..h.Len()] + c.content + rest;
  }

  lemma RunCons(text: bool, c: Chunk, more: seq<Chunk>, rest: bytes, end: bytes)
    requires ChunkWellFormed(c) && ChunksWellFormed(more) && rest == ChunkRun(text, more) + end
    ensures ChunksWellFormed([c] + more) && ChunkBytes(text, c) + rest == ChunkRun(text, [c] + more) + end
  {
    hide ChunkBytes, ChunkWellFormed;
    assert ([c] + more)[1..] == more;
    Associate(ChunkBytes(text, c), ChunkRun(text, more), end);
  }
}
