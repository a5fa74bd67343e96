/**
 CBOR data items (RFC 8949 section 3) as the converter reads them: the head
 decoder, a concrete syntax tree that keeps head widths and chunking, its bytes,
 and a parser that is the exact inverse of those bytes.
 */
module CborSyntax {
  import opened Bytes

  // ----- Heads -----

  /** How a head spells its argument: in the first byte, in 1, 2, 4 or 8 further
      bytes, or not at all (additional information 31, indefinite length). */
  datatype Form = Tiny | One | Two | Four | Eight | Open

  type uint64 = n: int | 0 <= n < 0x1_0000_0000_0000_0000

  function ArgLen(f: Form): nat {
    match f case Tiny => 0 case One => 1 case Two => 2 case Four => 4 case Eight => 8 case Open => 0
  }

  function AddInfo(f: Form, arg: nat): nat {
    match f case Tiny => arg case One => 24 case Two => 25 case Four => 26 case Eight => 27 case Open => 31
  }

  predicate Fits(f: Form, arg: nat) {
    match f
    case Tiny => arg < 24
    case One => arg < 0x100
    case Two => arg < 0x1_0000
    case Four => arg < 0x1_0000_0000
    case Eight => arg < 0x1_0000_0000_0000_0000
    case Open => arg == 0
  }

  datatype Head = Head(major: nat, arg: uint64, form: Form) {
    function Len(): nat { 1 + ArgLen(form) }
  }

  datatype HeadError = Truncated | Reserved(info: nat)

  /** The head at the start of `b`. */
  function CborHead(b: bytes): (r: Result<Head, HeadError>)
    ensures r.Ok? ==> r.value.major < 8 && Fits(r.value.form, r.value.arg) && r.value.Len() <= |b|
  {
    if b == [] then Err(Truncated)
    else
      var major, info := b[0] / 32, b[0] % 32;
      if info < 24 then Ok(Head(major, info, Tiny))
      else if info == 24 then (if |b| < 2 then Err(Truncated) else Ok(Head(major, BigArg(b, 1), One)))
      else if info == 25 then (if |b| < 3 then Err(Truncated) else Ok(Head(major, BigArg(b, 2), Two)))
      else if info == 26 then (if |b| < 5 then Err(Truncated) else Ok(Head(major, BigArg(b, 4), Four)))
      else if info == 27 then (if |b| < 9 then Err(Truncated) else Ok(Head(major, BigArg(b, 8), Eight)))
      else if info == 31 then Ok(Head(major, 0, Open))
      else Err(Reserved(info))
  }

  function BigArg(b: bytes, len: nat): (arg: nat)
    requires len < |b|
    ensures arg < Pow256(len)
    ensures len <= 8 ==> arg < 0x1_0000_0000_0000_0000
  {
    FromBigEndianRoundTrip(b[1..1 + len]);
    Pow256UpTo8();
    if len <= 8 then Pow256Monotone(len, 8); FromBigEndian(b[1..1 + len]) else FromBigEndian(b[1..1 + len])
  }

  lemma Pow256UpTo8()
    ensures Pow256(0) == 1 && Pow256(1) == 0x100 && Pow256(2) == 0x1_0000
    ensures Pow256(4) == 0x1_0000_0000 && Pow256(8) == 0x1_0000_0000_0000_0000
  {
    assert Pow256(3) == 0x100_0000;
    assert Pow256(6) == 0x1_0000_0000_0000;
  }

  lemma {:induction false} Pow256Monotone(a: nat, b: nat)
    requires a <= b
    ensures Pow256(a) <= Pow256(b)
    decreases b
  {
    if a < b { Pow256Monotone(a, b - 1); }
  }

  function HeadBytes(major: nat, f: Form, arg: nat): (b: bytes)
    requires major < 8 && Fits(f, arg)
    ensures |b| == 1 + ArgLen(f)
  {
    [32 * major + AddInfo(f, arg)] + BigEndian(arg, ArgLen(f))
  }

  lemma HeadExact(major: nat, f: Form, arg: uint64, rest: bytes)
    requires major < 8 && Fits(f, arg)
    ensures CborHead(HeadBytes(major, f, arg) + rest) == Ok(Head(major, arg, f))
    ensures (HeadBytes(major, f, arg) + rest)[1 + ArgLen(f)..] == rest
  {
    var b, len := HeadBytes(major, f, arg) + rest, ArgLen(f);
    assert b[0] / 32 == major && b[0] % 32 == AddInfo(f, arg);
    assert b[1..1 + len] == BigEndian(arg, len);
    Pow256UpTo8();
    if f != Tiny { BigEndianRoundTrip(arg, len); }
  }

  lemma HeadSpelled(b: bytes)
    requires CborHead(b).Ok?
    ensures var h := CborHead(b).value;
            h.major < 8 && Fits(h.form, h.arg) && HeadBytes(h.major, h.form, h.arg) == b[..h.Len()]
  {
    hide *;
    HeadParts(b);
    var h := CborHead(b).value;
    var len := ArgLen(h.form);
    assert |b[1..1 + len]| == len;
    FromBigEndianRoundTrip(b[1..1 + len]);
    HeadLayout(h, b[1..1 + len]);
    FirstAndRest(b, len);
  }

  lemma HeadLayout(h: Head, argument: bytes)
    requires h.major < 8 && Fits(h.form, h.arg) && 32 * h.major + AddInfo(h.form, h.arg) < 256
    requires BigEndian(h.arg, ArgLen(h.form)) == argument
    ensures HeadBytes(h.major, h.form, h.arg) == [32 * h.major + AddInfo(h.form, h.arg)] + argument
    ensures h.Len() == 1 + ArgLen(h.form)
  {
    hide BigEndian, ArgLen, AddInfo, Fits;
  }

  lemma FirstAndRest(b: bytes, n: nat)
    requires 1 + n <= |b|
    ensures b[..1 + n] == [b[0]] + b[1..1 + n]
  {
  }

  lemma HeadParts(b: bytes)
    requires CborHead(b).Ok?
    ensures var h := CborHead(b).value;
            var len := ArgLen(h.form);
            && 1 + len <= |b| && 32 * h.major + AddInfo(h.form, h.arg) == b[0]
            && BigEndian(h.arg, len) == BigEndian(FromBigEndian(b[1..1 + len]), len)
  {
    hide FromBigEndian, BigEndian;
    var h := CborHead(b).value;
    if ArgLen(h.form) == 0 { NoArg(h.arg, b); }
  }

  lemma NoArg(arg: nat, b: bytes)
    requires |b| >= 1
    ensures BigEndian(arg, 0) == [] && BigEndian(FromBigEndian(b[1..1]), 0) == []
  {
  }

  // ----- Concrete syntax -----

  const BREAK: byte := 0xFF

  /** A map holds its keys and values alternately.  `Open` lists and maps end with
      a break byte; on numbers and tags the code ignores the marker. */
  datatype Item =
    | Number(negative: bool, form: Form, arg: uint64)
    | Whole(text: bool, form: Form, content: bytes)
    | Chunked(text: bool, chunks: seq<Chunk>)
    | List(form: Form, items: seq<Item>)
    | Table(form: Form, items: seq<Item>)
    | Tag(form: Form, tag: uint64, item: Item)
    | Simple(form: Form, n: uint64)
    | Float(form: Form, bits: uint64)

  datatype Chunk = Chunk(form: Form, content: bytes)

  function StringMajor(text: bool): nat {
    if text then 3 else 2
  }

  predicate WellFormed(i: Item)
    decreases i, 0
  {
    match i
    case Number(_, f, arg) => Fits(f, arg)
    case Whole(_, f, content) => f != Open && Fits(f, |content|)
    case Chunked(_, chunks) => ChunksWellFormed(chunks)
    case List(f, items) => (f == Open || Fits(f, |items|)) && ItemsWellFormed(items)
    case Table(f, items) => |items| % 2 == 0 && (f == Open || Fits(f, |items| / 2)) && ItemsWellFormed(items)
    case Tag(f, tag, item) => Fits(f, tag) && WellFormed(item)
    case Simple(f, n) => (f == Tiny || f == One) && Fits(f, n)
    case Float(f, bits) => (f == Two || f == Four || f == Eight) && Fits(f, bits)
  }

  predicate ChunkWellFormed(c: Chunk) {
    c.form != Open && Fits(c.form, |c.content|)
  }

  predicate ChunksWellFormed(chunks: seq<Chunk>)
  {
    chunks == [] || (ChunkWellFormed(chunks[0]) && ChunksWellFormed(chunks[1..]))
  }

  predicate ItemsWellFormed(items: seq<Item>)
    decreases items, 1
  {
    items == [] || (WellFormed(items[0]) && ItemsWellFormed(items[1..]))
  }

  function HeadOf(i: Item): (h: Head)
    requires WellFormed(i)
    ensures h.major < 8 && Fits(h.form, h.arg)
  {
    match i
    case Number(negative, f, arg) => Head(if negative then 1 else 0, arg, f)
    case Whole(text, f, content) => Head(StringMajor(text), |content|, f)
    case Chunked(text, _) => Head(StringMajor(text), 0, Open)
    case List(f, items) => Head(4, if f == Open then 0 else |items|, f)
    case Table(f, items) => Head(5, if f == Open then 0 else |items| / 2, f)
    case Tag(f, tag, _) => Head(6, tag, f)
    case Simple(f, n) => Head(7, n, f)
    case Float(f, bits) => Head(7, bits, f)
  }

  /** The bytes of an item: its head, then what the head announces. */
  function Serial(i: Item): bytes
    requires WellFormed(i)
    decreases i, 2
  {
    HeadBytes(HeadOf(i).major, HeadOf(i).form, HeadOf(i).arg) + BodyBytes(i)
  }

  function BodyBytes(i: Item): bytes
    requires WellFormed(i)
    decreases i, 0
  {
    match i
    case Whole(_, _, content) => content
    case Chunked(text, chunks) => ChunksBytes(text, chunks)
    case List(f, items) => ItemsBytes(items, f == Open)
    case Table(f, items) => ItemsBytes(items, f == Open)
    case Tag(_, _, item) => Serial(item)
    case _ => []
  }

  function ChunkBytes(text: bool, c: Chunk): bytes
    requires ChunkWellFormed(c)
  {
    HeadBytes(StringMajor(text), c.form, |c.content|) + c.content
  }

  function ChunksBytes(text: bool, chunks: seq<Chunk>): bytes
    requires ChunksWellFormed(chunks)
  {
    if chunks == [] then [BREAK] else ChunkBytes(text, chunks[0]) + ChunksBytes(text, chunks[1..])
  }

  function ItemsBytes(items: seq<Item>, open: bool): bytes
    requires ItemsWellFormed(items)
    decreases items, 3
  {
    if items == [] then (if open then [BREAK] else []) else Serial(items[0]) + ItemsBytes(items[1..], open)
  }

  // ----- Parser -----

  function ParseItem(s: bytes): (r: Option<(Item, bytes)>)
    ensures r.Some? ==> |r.value.1| < |s|
    decreases |s|, 0
  {
    match CborHead(s)
    case Err(_) => None
    case Ok(h) => ParseBody(h, s[h.Len()..])
  }

  function ParseBody(h: Head, s: bytes): (r: Option<(Item, bytes)>)
    ensures r.Some? ==> |r.value.1| <= |s|
    decreases |s|, 2
  {
    match h.major
    case 0 => Some((Number(false, h.form, h.arg), s))
    case 1 => Some((Number(true, h.form, h.arg), s))
    case 2 => ParseStringBody(false, h, s)
    case 3 => ParseStringBody(true, h, s)
    case 4 =>
      (match ParseItems(s, if h.form == Open then None else Some(h.arg))
       case None => None
       case Some((items, rest)) => Some((List(h.form, items), rest)))
    case 5 =>
      (match ParseItems(s, if h.form == Open then None else Some(2 * h.arg))
       case None => None
       case Some((items, rest)) => if |items| % 2 == 0 then Some((Table(h.form, items), rest)) else None)
    case 6 =>
      (match ParseItem(s)
       case None => None
       case Some((item, rest)) => Some((Tag(h.form, h.arg, item), rest)))
    case _ =>
      if h.form == Open then None
      else if h.form == Tiny || h.form == One then Some((Simple(h.form, h.arg), s))
      else Some((Float(h.form, h.arg), s))
  }

  function ParseStringBody(text: bool, h: Head, s: bytes): (r: Option<(Item, bytes)>)
    ensures r.Some? ==> |r.value.1| <= |s|
  {
    if h.form == Open then
      match ParseChunks(text, s)
      case None => None
      case Some((chunks, rest)) => Some((Chunked(text, chunks), rest))
    else if h.arg > |s| then None
    else Some((Whole(text, h.form, s[..h.arg]), s[h.arg..]))
  }

  function ParseChunks(text: bool, s: bytes): (r: Option<(seq<Chunk>, bytes)>)
    ensures r.Some? ==> |r.value.1| <= |s|
  {
    if s == [] then None
    else if s[0] == BREAK then Some(([], s[1..]))
    else
      match CborHead(s)
      case Err(_) => None
      case Ok(h) =>
        if h.major != StringMajor(text) || h.form == Open || h.arg > |s| - h.Len() then None
        else
          match ParseChunks(text, s[h.Len() + h.arg..])
          case None => None
          case Some((chunks, rest)) => Some(([Chunk(h.form, s[h.Len()..h.Len() + h.arg])] + chunks, rest))
  }

  /** `count` items, or with no count as many as precede a break. */
  function ParseItems(s: bytes, count: Option<nat>): (r: Option<(seq<Item>, bytes)>)
    ensures r.Some? ==> |r.value.1| <= |s| && (count.Some? ==> |r.value.0| == count.value)
    decreases |s|, 1
  {
    if count == Some(0) then Some(([], s))
    else if count.None? && s != [] && s[0] == BREAK then Some(([], s[1..]))
    else
      match ParseItem(s)
      case None => None
      case Some((item, s1)) =>
        match ParseItems(s1, if count.None? then None else Some(count.value - 1))
        case None => None
        case Some((items, rest)) => Some(([item] + items, rest))
  }

  // ----- The parser undoes the bytes -----

  lemma {:induction false} ParseExact(i: Item, rest: bytes)
    requires WellFormed(i)
    ensures ParseItem(Serial(i) + rest) == Some((i, rest))
    decreases i, 2
  {
    hide *;
    ParseBodyExact(i, rest);
    var h := HeadOf(i);
    SerialSplits(i, rest);
    HeadExact(h.major, h.form, h.arg, BodyBytes(i) + rest);
    HeadThenBody(Serial(i) + rest, h);
  }

  lemma SerialSplits(i: Item, rest: bytes)
    requires WellFormed(i)
    ensures var h := HeadOf(i);
            Serial(i) + rest == HeadBytes(h.major, h.form, h.arg) + (BodyBytes(i) + rest)
  {
    hide HeadOf, BodyBytes, HeadBytes;
  }

  lemma HeadThenBody(s: bytes, h: Head)
    requires CborHead(s) == Ok(h)
    ensures ParseItem(s) == ParseBody(h, s[h.Len()..]) && h.Len() == 1 + ArgLen(h.form)
  {
    hide CborHead, ParseBody;
  }

  lemma {:induction false} ParseBodyExact(i: Item, rest: bytes)
    requires WellFormed(i)
    ensures ParseBody(HeadOf(i), BodyBytes(i) + rest) == Some((i, rest))
    decreases i, 0
  {
    hide *;
    if i.Chunked? {
      ChunksAreWellFormed(i);
      ParseChunksExact(i.text, i.chunks, rest);
      ChunkedBody(i.text, i.chunks, rest);
    } else if i.List? || i.Table? {
      ItemsAreWellFormed(i);
      ParseItemsExact(i.items, i.form == Open, rest);
      if i.List? { ListBody(i.form, i.items, rest); } else { TableBody(i.form, i.items, rest); }
    } else if i.Tag? {
      TaggedIsWellFormed(i);
      ParseExact(i.item, rest);
      TagBody(i, rest);
    } else {
      PlainBody(i, rest);
    }
  }

  lemma ChunksAreWellFormed(i: Item)
    requires i.Chunked? && WellFormed(i)
    ensures ChunksWellFormed(i.chunks)
  {
    hide ChunksWellFormed;
  }

  lemma ItemsAreWellFormed(i: Item)
    requires (i.List? || i.Table?) && WellFormed(i)
    ensures ItemsWellFormed(i.items)
  {
    hide ItemsWellFormed;
  }

  lemma TaggedIsWellFormed(i: Item)
    requires i.Tag? && WellFormed(i)
    ensures WellFormed(i.item)
  {
  }

  lemma ChunkedBody(text: bool, chunks: seq<Chunk>, rest: bytes)
    requires ChunksWellFormed(chunks) && WellFormed(Chunked(text, chunks))
    requires ParseChunks(text, ChunksBytes(text, chunks) + rest) == Some((chunks, rest))
    ensures ParseBody(HeadOf(Chunked(text, chunks)), BodyBytes(Chunked(text, chunks)) + rest)
            == Some((Chunked(text, chunks), rest))
  {
    hide ParseChunks, ChunksBytes, ChunksWellFormed;
  }

  lemma {:induction false} TagBody(i: Item, rest: bytes)
    requires i.Tag? && WellFormed(i) && ParseItem(Serial(i.item) + rest) == Some((i.item, rest))
    ensures ParseBody(HeadOf(i), BodyBytes(i) + rest) == Some((i, rest))
  {
    hide ParseItem, Serial;
  }

  lemma {:induction false} PlainBody(i: Item, rest: bytes)
    requires WellFormed(i) && !i.Chunked? && !i.List? && !i.Table? && !i.Tag?
    ensures ParseBody(HeadOf(i), BodyBytes(i) + rest) == Some((i, rest))
  {
    if i.Whole? {
      assert (i.content + rest)[..|i.content|] == i.content && (i.content + rest)[|i.content|..] == rest;
    } else {
      assert BodyBytes(i) + rest == rest;
    }
  }

  lemma ListBody(f: Form, items: seq<Item>, rest: bytes)
    requires WellFormed(List(f, items))
    requires ParseItems(ItemsBytes(items, f == Open) + rest, if f == Open then None else Some(|items|))
             == Some((items, rest))
    ensures ParseBody(HeadOf(List(f, items)), BodyBytes(List(f, items)) + rest) == Some((List(f, items), rest))
  {
    hide ParseItems, ItemsBytes, ItemsWellFormed, Fits;
  }

  lemma TableBody(f: Form, items: seq<Item>, rest: bytes)
    requires WellFormed(Table(f, items))
    requires ParseItems(ItemsBytes(items, f == Open) + rest, if f == Open then None else Some(|items|))
             == Some((items, rest))
    ensures ParseBody(HeadOf(Table(f, items)), BodyBytes(Table(f, items)) + rest) == Some((Table(f, items), rest))
  {
    hide ParseItems, ItemsBytes, ItemsWellFormed, Fits;
  }

  lemma {:induction false} ParseChunksExact(text: bool, chunks: seq<Chunk>, rest: bytes)
    requires ChunksWellFormed(chunks)
    ensures ParseChunks(text, ChunksBytes(text, chunks) + rest) == Some((chunks, rest))
  {
    if chunks == [] {
      assert ([BREAK] + rest)[1..] == rest;
    } else {
      var c, cs := chunks[0], chunks[1..];
      var tail := ChunksBytes(text, cs) + rest;
      ParseChunksExact(text, cs, rest);
      assert chunks == [c] + cs;
      hide *;
      ChunksCons(text, c, cs, rest);
      FirstChunk(text, c, tail, cs, rest);
    }
  }

  lemma FirstChunk(text: bool, c: Chunk, tail: bytes, chunks: seq<Chunk>, rest: bytes)
    requires ChunkWellFormed(c) && ParseChunks(text, tail) == Some((chunks, rest))
    ensures ParseChunks(text, ChunkBytes(text, c) + tail) == Some(([c] + chunks, rest))
  {
    hide *;
    var s := ChunkBytes(text, c) + tail;
    ChunkBytesMean(text, c, tail);
    HeadExact(StringMajor(text), c.form, |c.content|, c.content + tail);
    var h := Head(StringMajor(text), |c.content|, c.form);
    HeadLength(h);
    assert s[h.Len()..] == c.content + tail;
    MiddlePart(s, h.Len(), c.content, tail);
    ChunkUnfold(text, s, h);
  }

  lemma HeadLength(h: Head)
    ensures h.Len() == 1 + ArgLen(h.form)
  {
  }

  lemma MiddlePart(s: bytes, n: nat, a: bytes, b: bytes)
    requires n <= |s| && s[n..] == a + b
    ensures n + |a| <= |s| && s[n..n + |a|] == a && s[n + |a|..] == b
  {
    assert s[n..][..|a|] == a && s[n..][|a|..] == b;
  }

  lemma ChunkBytesMean(text: bool, c: Chunk, tail: bytes)
    requires ChunkWellFormed(c)
    ensures StringMajor(text) < 8 && Fits(c.form, |c.content|) && c.form != Open
    ensures |c.content| < 0x1_0000_0000_0000_0000
    ensures ChunkBytes(text, c) + tail == HeadBytes(StringMajor(text), c.form, |c.content|) + (c.content + tail)
  {
    hide HeadBytes;
  }

  /** A break byte is no head with a definite length. */
  lemma DefiniteIsNoBreak(s: bytes)
    requires CborHead(s).Ok? && CborHead(s).value.form != Open
    ensures s != [] && s[0] != BREAK
  {
    hide BigArg;
  }

  lemma ChunkUnfold(text: bool, s: bytes, h: Head)
    requires CborHead(s) == Ok(h) && h.major == StringMajor(text) && h.form != Open && h.Len() + h.arg <= |s|
    ensures ParseChunks(text, s) ==
            match ParseChunks(text, s[h.Len() + h.arg..])
            case None => None
            case Some((chunks, rest)) => Some(([Chunk(h.form, s[h.Len()..h.Len() + h.arg])] + chunks, rest))
  {
    hide *;
    DefiniteIsNoBreak(s);
    ChunkIsNext(text, s, h, s[h.Len()..h.Len() + h.arg], s[h.Len() + h.arg..]);
  }

  lemma ChunkIsNext(text: bool, s: bytes, h: Head, content: bytes, t: bytes)
    requires s != [] && s[0] != BREAK && h.Len() + h.arg <= |s|
    requires CborHead(s) == Ok(h) && h.major == StringMajor(text) && h.form != Open
    requires content == s[h.Len()..h.Len() + h.arg] && t == s[h.Len() + h.arg..]
    ensures ParseChunks(text, s) ==
            match ParseChunks(text, t)
            case None => None
            case Some((chunks, rest)) => Some(([Chunk(h.form, content)] + chunks, rest))
  {
    hide CborHead, StringMajor, ArgLen;
  }

  lemma NoItemStartsWithBreak(i: Item)
    requires WellFormed(i)
    ensures Serial(i) != [] && Serial(i)[0] != BREAK
  {
    var h := HeadOf(i);
    assert Serial(i)[0] == 32 * h.major + AddInfo(h.form, h.arg) by { hide HeadOf, BodyBytes; }
  }

  lemma {:induction false} ParseItemsExact(items: seq<Item>, open: bool, rest: bytes)
    requires ItemsWellFormed(items)
    ensures ParseItems(ItemsBytes(items, open) + rest, if open then None else Some(|items|)) == Some((items, rest))
    decreases items, 3
  {
    if items == [] {
      assert [] + rest == rest && ([BREAK] + rest)[1..] == rest;
    } else {
      var i, more := items[0], items[1..];
      var tail := ItemsBytes(more, open) + rest;
      ParseExact(i, tail);
      ParseItemsExact(more, open, rest);
      NoItemStartsWithBreak(i);
      assert items == [i] + more;
      hide *;
      ItemsCons(i, more, open, rest);
      FirstItem(Serial(i) + tail, i, tail, if open then None else Some(|more|), more, rest);
    }
  }

  /** One step of the item loop: the first item, then the others. */
  lemma FirstItem(s: bytes, i: Item, s1: bytes, count: Option<nat>, items: seq<Item>, rest: bytes)
    requires ParseItem(s) == Some((i, s1)) && s != [] && s[0] != BREAK
    requires ParseItems(s1, count) == Some((items, rest))
    ensures ParseItems(s, if count.None? then None else Some(count.value + 1)) == Some(([i] + items, rest))
  {
    hide ParseItem;
  }

  // ----- The bytes undo the parser -----

  lemma {:induction false} BytesExact(s: bytes)
    requires ParseItem(s).Some?
    ensures WellFormed(ParseItem(s).value.0) && s == Serial(ParseItem(s).value.0) + ParseItem(s).value.1
    decreases |s|, 0
  {
    hide *;
    var h, body := HeadAndBody(s);
    BodySpelled(h, body);
    var (i, rest) := ParseBody(h, body).value;
    SerialSplits(i, rest);
  }

  lemma HeadAndBody(s: bytes) returns (h: Head, body: bytes)
    requires ParseItem(s).Some?
    ensures h.major < 8 && Fits(h.form, h.arg) && |body| < |s|
    ensures s == HeadBytes(h.major, h.form, h.arg) + body
    ensures ParseItem(s) == ParseBody(h, body)
  {
    hide CborHead, HeadBytes, ParseBody;
    h := CborHead(s).value;
    body := s[h.Len()..];
    HeadSpelled(s);
    assert s == s[..h.Len()] + body;
  }

  lemma {:induction false} BodySpelled(h: Head, s: bytes)
    requires h.major < 8 && Fits(h.form, h.arg) && ParseBody(h, s).Some?
    ensures var (i, rest) := ParseBody(h, s).value;
            WellFormed(i) && HeadOf(i) == h && s == BodyBytes(i) + rest
    decreases |s|, 2
  {
    hide *;
    if h.major == 2 || h.major == 3 {
      StringParsed(h, s);
      StringSpelled(h.major == 3, h, s);
    } else if h.major == 4 || h.major == 5 {
      var count := ItemCount(h);
      ItemsParsed(h, s, count);
      ItemsSpelled(s, count);
      CollectionSpelled(h, s, count);
    } else if h.major == 6 {
      TagParsed(h, s);
      BytesExact(s);
      TagSpelled(h, s);
    } else {
      ScalarSpelled(h, s);
    }
  }

  /** How many items a list or map head announces. */
  function ItemCount(h: Head): Option<nat> {
    if h.form == Open then None else if h.major == 4 then Some(h.arg) else Some(2 * h.arg)
  }

  lemma StringParsed(h: Head, s: bytes)
    requires h.major == 2 || h.major == 3
    ensures ParseBody(h, s) == ParseStringBody(h.major == 3, h, s) && h.major == StringMajor(h.major == 3)
  {
    hide ParseStringBody;
  }

  lemma ItemsParsed(h: Head, s: bytes, count: Option<nat>)
    requires (h.major == 4 || h.major == 5) && count == ItemCount(h) && ParseBody(h, s).Some?
    ensures ParseItems(s, count).Some?
    ensures var (items, rest) := ParseItems(s, count).value;
            && (h.major == 5 ==> |items| % 2 == 0)
            && ParseBody(h, s) == Some((if h.major == 4 then List(h.form, items) else Table(h.form, items), rest))
  {
    hide ParseItems;
  }

  lemma {:induction false} CollectionSpelled(h: Head, s: bytes, count: Option<nat>)
    requires (h.major == 4 || h.major == 5) && Fits(h.form, h.arg) && count == ItemCount(h)
    requires ParseItems(s, count).Some? && ParseBody(h, s).Some?
    requires ItemsWellFormed(ParseItems(s, count).value.0)
    requires s == ItemsBytes(ParseItems(s, count).value.0, count.None?) + ParseItems(s, count).value.1
    ensures var (i, rest) := ParseBody(h, s).value;
            WellFormed(i) && HeadOf(i) == h && s == BodyBytes(i) + rest
  {
    hide ParseBody, ParseItems, ItemsWellFormed, ItemsBytes;
    ItemsParsed(h, s, count);
  }

  lemma TagParsed(h: Head, s: bytes)
    requires h.major == 6 && ParseBody(h, s).Some?
    ensures ParseItem(s).Some?
    ensures ParseBody(h, s) == Some((Tag(h.form, h.arg, ParseItem(s).value.0), ParseItem(s).value.1))
  {
    hide ParseItem;
  }

  lemma {:induction false} TagSpelled(h: Head, s: bytes)
    requires h.major == 6 && Fits(h.form, h.arg) && ParseItem(s).Some?
    requires ParseBody(h, s) == Some((Tag(h.form, h.arg, ParseItem(s).value.0), ParseItem(s).value.1))
    requires WellFormed(ParseItem(s).value.0) && s == Serial(ParseItem(s).value.0) + ParseItem(s).value.1
    ensures var (i, rest) := ParseBody(h, s).value;
            WellFormed(i) && HeadOf(i) == h && s == BodyBytes(i) + rest
  {
    hide ParseBody, ParseItem, Serial;
  }

  lemma {:induction false} ScalarSpelled(h: Head, s: bytes)
    requires (h.major < 2 || h.major == 7) && Fits(h.form, h.arg) && ParseBody(h, s).Some?
    ensures var (i, rest) := ParseBody(h, s).value;
            WellFormed(i) && HeadOf(i) == h && s == BodyBytes(i) + rest
  {
    assert s == [] + s;
  }

  lemma StringSpelled(text: bool, h: Head, s: bytes)
    requires h.major == StringMajor(text) && Fits(h.form, h.arg) && ParseStringBody(text, h, s).Some?
    ensures var (i, rest) := ParseStringBody(text, h, s).value;
            WellFormed(i) && HeadOf(i) == h && s == BodyBytes(i) + rest
  {
    if h.form == Open {
      ChunksSpelled(text, s);
    } else {
      assert s == s[..h.arg] + s[h.arg..];
    }
  }

  lemma {:induction false} ChunksSpelled(text: bool, s: bytes)
    requires ParseChunks(text, s).Some?
    ensures ChunksWellFormed(ParseChunks(text, s).value.0)
    ensures s == ChunksBytes(text, ParseChunks(text, s).value.0) + ParseChunks(text, s).value.1
    decreases |s|
  {
    if s[0] == BREAK {
      assert s == [BREAK] + s[1..];
    } else {
      var c, t := ChunkSpelled(text, s);
      ChunksSpelled(text, t);
      var (chunks, rest) := ParseChunks(text, t).value;
      ChunksCons(text, c, chunks, rest);
      hide *;
    }
  }

  lemma ChunkSpelled(text: bool, s: bytes) returns (c: Chunk, t: bytes)
    requires ParseChunks(text, s).Some? && s[0] != BREAK
    ensures ChunkWellFormed(c) && s == ChunkBytes(text, c) + t && |t| < |s|
    ensures ParseChunks(text, t).Some?
    ensures ParseChunks(text, s) == Some(([c] + ParseChunks(text, t).value.0, ParseChunks(text, t).value.1))
  {
    hide *;
    var h := ChunkHead(text, s);
    HeadSpelled(s);
    var n := h.Len();
    ThreeParts(s, n, h.arg);
    c, t := Chunk(h.form, s[n..n + h.arg]), s[n + h.arg..];
    ChunkLayout(text, h, s[n..n + h.arg]);
  }

  lemma ThreeParts(s: bytes, n: nat, m: nat)
    requires n + m <= |s|
    ensures s == s[..n] + s[n..n + m] + s[n + m..] && |s[n..n + m]| == m && |s[n + m..]| == |s| - n - m
  {
  }

  lemma ChunkHead(text: bool, s: bytes) returns (h: Head)
    requires ParseChunks(text, s).Some? && s[0] != BREAK
    ensures CborHead(s) == Ok(h) && h.major == StringMajor(text) && h.form != Open && h.arg <= |s| - h.Len()
    ensures h.Len() >= 1
    ensures var t := s[h.Len() + h.arg..];
            && ParseChunks(text, t).Some?
            && ParseChunks(text, s)
               == Some(([Chunk(h.form, s[h.Len()..h.Len() + h.arg])] + ParseChunks(text, t).value.0,
                        ParseChunks(text, t).value.1))
  {
    hide CborHead;
    h := CborHead(s).value;
  }

  lemma ChunkLayout(text: bool, h: Head, content: bytes)
    requires h.major == StringMajor(text) && h.form != Open && Fits(h.form, h.arg) && |content| == h.arg
    ensures ChunkWellFormed(Chunk(h.form, content))
    ensures h.major < 8 && ChunkBytes(text, Chunk(h.form, content)) == HeadBytes(h.major, h.form, h.arg) + content
  {
    hide HeadBytes, Fits;
  }

  lemma ChunksCons(text: bool, c: Chunk, chunks: seq<Chunk>, rest: bytes)
    requires ChunkWellFormed(c) && ChunksWellFormed(chunks)
    ensures ChunksWellFormed([c] + chunks)
    ensures ChunksBytes(text, [c] + chunks) + rest == ChunkBytes(text, c) + (ChunksBytes(text, chunks) + rest)
  {
    hide ChunkBytes, ChunkWellFormed;
    assert ([c] + chunks)[1..] == chunks;
  }

  lemma {:induction false} ItemsSpelled(s: bytes, count: Option<nat>)
    requires ParseItems(s, count).Some?
    ensures ItemsWellFormed(ParseItems(s, count).value.0)
    ensures s == ItemsBytes(ParseItems(s, count).value.0, count.None?) + ParseItems(s, count).value.1
    decreases |s|, 1
  {
    if count == Some(0) {
      assert s == [] + s;
    } else if count.None? && s != [] && s[0] == BREAK {
      assert s == [BREAK] + s[1..];
    } else {
      BytesExact(s);
      var (item, s1) := ParseItem(s).value;
      var next := if count.None? then None else Some(count.value - 1);
      ItemsSpelled(s1, next);
      var (items, rest) := ParseItems(s1, next).value;
      ItemsCons(item, items, count.None?, rest);
      assert ParseItems(s, count) == Some(([item] + items, rest)) by { hide ParseItem; }
      hide *;
    }
  }

  lemma ItemsCons(i: Item, items: seq<Item>, open: bool, rest: bytes)
    requires WellFormed(i) && ItemsWellFormed(items)
    ensures ItemsWellFormed([i] + items)
    ensures ItemsBytes([i] + items, open) + rest == Serial(i) + (ItemsBytes(items, open) + rest)
  {
    hide Serial, WellFormed;
    assert ([i] + items)[1..] == items;
  }
}
