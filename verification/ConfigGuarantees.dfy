/**
 What the one-line edit of a config file changes and what it leaves alone.
 */
module ConfigGuarantees {
  import opened Bytes
  import opened ConfigEdit
  import Utf8

  // ----- One line -----

  /** The first line the edit looks at: an assignment to the key or a header. */
  function EditAt(lines: seq<bytes>, key: bytes): (k: nat)
    ensures k <= |lines|
  {
    if lines == [] || IsHeader(lines[0]) || Assigned(lines[0], key).Some? then 0 else 1 + EditAt(lines[1..], key)
  }

  lemma EditAtUnfold(lines: seq<bytes>, key: bytes)
    ensures EditAt(lines, key) ==
            if lines == [] || IsHeader(lines[0]) || Assigned(lines[0], key).Some? then 0
            else 1 + EditAt(lines[1..], key)
  {
    hide IsHeader, Assigned;
  }

  lemma EditedUnfold(lines: seq<bytes>, key: bytes, line: bytes)
    ensures Edited(lines, key, line) ==
            if lines == [] then [line]
            else if IsHeader(lines[0]) then [line] + lines
            else if Assigned(lines[0], key).Some? then [line] + lines[1..]
            else [lines[0]] + Edited(lines[1..], key, line)
    ensures lines == [] ==> [line] == [line] + []
  {
    hide IsHeader, Assigned;
  }

  /** Exactly one line is replaced or inserted, at the first assignment to the key or
      else right before the first header or at the end. */
  lemma {:induction false} OneLineChanges(lines: seq<bytes>, key: bytes, line: bytes)
    ensures var k := EditAt(lines, key);
            && (forall i :: 0 <= i < k ==> !IsHeader(lines[i]) && Assigned(lines[i], key).None?)
            && (k < |lines| ==> IsHeader(lines[k]) || Assigned(lines[k], key).Some?)
            && Edited(lines, key, line) ==
               lines[..k] + [line] + lines[if k < |lines| && !IsHeader(lines[k]) then k + 1 else k..]
  {
    hide *;
    EditedUnfold(lines, key, line);
    EditAtUnfold(lines, key);
    if lines == [] || IsHeader(lines[0]) || Assigned(lines[0], key).Some? {
      assert lines[..0] == [] && lines[0..] == lines;
      assert [] + [line] == [line];
    } else {
      var more := lines[1..];
      OneLineChanges(more, key, line);
      var k := EditAt(more, key);
      SpliceCons(lines, k, line, if k < |more| && !IsHeader(more[k]) then k + 1 else k);
      forall i | 0 <= i < k + 1 ensures !IsHeader(lines[i]) && Assigned(lines[i], key).None? {
        if i > 0 { assert lines[i] == more[i - 1]; }
      }
    }
  }

  lemma SpliceCons(lines: seq<bytes>, k: nat, line: bytes, m: nat)
    requires lines != [] && k <= |lines| - 1 && m <= |lines| - 1
    ensures [lines[0]] + (lines[1..][..k] + [line] + lines[1..][m..]) == lines[..k + 1] + [line] + lines[m + 1..]
    ensures k < |lines| - 1 ==> lines[1..][k] == lines[k + 1]
  {
    assert lines[1..][m..] == lines[m + 1..];
  }

  /** Everything from the first header on. */
  function Sections(lines: seq<bytes>): seq<bytes> {
    if lines == [] || IsHeader(lines[0]) then lines else Sections(lines[1..])
  }

  /** What the first top-level assignment to `key` assigns. */
  function Lookup(lines: seq<bytes>, key: bytes): Option<bytes> {
    if lines == [] || IsHeader(lines[0]) then None
    else if Assigned(lines[0], key).Some? then Assigned(lines[0], key)
    else Lookup(lines[1..], key)
  }

  // ----- The new line -----

  lemma BareKeyStarts(key: bytes, s: bytes)
    requires IsKey(key) && key <= s
    ensures SkipBlanks(s) == s && !IsHeader(s)
  {
    assert s[0] == key[0] && IsKeyByte(s[0]);
    assert SpaceLen(s) == 0 && TrimLeft(s) == s;
  }

  lemma SkipOneBlank(x: bytes)
    requires x != [] && !IsBlank(x[0])
    ensures SkipBlanks([0x20] + x) == x && SkipBlanks(x) == x
  {
    assert ([0x20] + x)[1..] == x;
  }

  lemma NewLineAssigns(key: bytes, value: bytes)
    requires IsKey(key)
    ensures !IsHeader(NewLine(key, value)) && Assigned(NewLine(key, value), key) == Some(TomlQuote(value))
  {
    var line, q := NewLine(key, value), TomlQuote(value);
    assert q != [] && q[0] == QUOTE && line == key + [0x20, EQUALS, 0x20] + q;
    hide TomlQuote, NewLine, IsHeader, SkipBlanks, IsKey, QuotedText;
    var t := [EQUALS] + ([0x20] + q);
    assert line == key + ([0x20] + t) && line[|key|..] == [0x20] + t;
    BareKeyStarts(key, line);
    SkipOneBlank(t);
    SkipOneBlank(q);
    assert t[0] == EQUALS && t[1..] == [0x20] + q;
  }

  /** A line assigns to one bare key at most. */
  lemma OneKey(line: bytes, key: bytes, other: bytes)
    requires IsKey(key) && IsKey(other) && Assigned(line, key).Some? && Assigned(line, other).Some?
    ensures key == other
  {
    if |key| < |other| {
      LongerKey(line, key, other);
    } else if |other| < |key| {
      LongerKey(line, other, key);
    } else {
      var s := SkipBlanks(line);
      assert s[..|key|] == key && s[..|other|] == other;
    }
  }

  lemma LongerKey(line: bytes, key: bytes, other: bytes)
    requires IsKey(other) && key <= SkipBlanks(line) && other <= SkipBlanks(line) && |key| < |other|
    ensures Assigned(line, key).None?
  {
    var s := SkipBlanks(line);
    assert s[..|other|] == other;
    assert s[|key|..][0] == s[|key|] == other[|key|] && IsKeyByte(other[|key|]);
  }

  // ----- Lookups and sections -----

  lemma {:induction false} LookupNew(lines: seq<bytes>, key: bytes, value: bytes)
    requires IsKey(key)
    ensures Lookup(Edited(lines, key, NewLine(key, value)), key) == Some(TomlQuote(value))
  {
    hide IsHeader, Assigned, NewLine, TomlQuote;
    NewLineAssigns(key, value);
    var line: bytes := NewLine(key, value);
    if lines != [] && !IsHeader(lines[0]) && Assigned(lines[0], key).None? {
      LookupNew(lines[1..], key, value);
      var more := Edited(lines[1..], key, line);
      assert ([lines[0]] + more)[1..] == more;
    }
  }

  /** Every other key's lookup is unchanged. */
  lemma {:induction false} LookupOthers(lines: seq<bytes>, key: bytes, value: bytes, other: bytes)
    requires IsKey(key) && IsKey(other) && other != key
    ensures Lookup(Edited(lines, key, NewLine(key, value)), other) == Lookup(lines, other)
  {
    hide IsHeader, Assigned, NewLine, TomlQuote, IsKey;
    NewLineAssigns(key, value);
    var line: bytes := NewLine(key, value);
    if Assigned(line, other).Some? { OneKey(line, key, other); }
    if lines == [] {
      assert [line][1..] == [];
    } else if IsHeader(lines[0]) {
      assert ([line] + lines)[1..] == lines;
    } else if Assigned(lines[0], key).Some? {
      if Assigned(lines[0], other).Some? { OneKey(lines[0], key, other); }
      assert ([line] + lines[1..])[1..] == lines[1..];
    } else {
      LookupOthers(lines[1..], key, value, other);
      var more := Edited(lines[1..], key, line);
      assert ([lines[0]] + more)[1..] == more;
    }
  }

  /** Everything from the first header on is untouched. */
  lemma {:induction false} SectionsUntouched(lines: seq<bytes>, key: bytes, value: bytes)
    requires IsKey(key)
    ensures Sections(Edited(lines, key, NewLine(key, value))) == Sections(lines)
  {
    hide IsHeader, Assigned, NewLine, TomlQuote;
    NewLineAssigns(key, value);
    var line: bytes := NewLine(key, value);
    if lines == [] {
      assert [line][1..] == [];
    } else if IsHeader(lines[0]) {
      assert ([line] + lines)[1..] == lines;
    } else if Assigned(lines[0], key).Some? {
      assert ([line] + lines[1..])[1..] == lines[1..];
    } else {
      SectionsUntouched(lines[1..], key, value);
      var more := Edited(lines[1..], key, line);
      assert ([lines[0]] + more)[1..] == more;
    }
  }

  // ----- Section headers as TOML spells them -----

  /** Space or tab, the white space of TOML. */
  predicate AllBlank(s: bytes) {
    forall i :: 0 <= i < |s| ==> s[i] == 0x20 || s[i] == 0x09
  }

  const HASH: byte := 0x23

  /** Brackets around a name, with white space and possibly a comment. */
  predicate HeaderParts(before: bytes, name: bytes, after: bytes, comment: bytes) {
    && AllBlank(before) && AllBlank(after)
    && |name| >= 2 && name[0] == OPEN_BRACKET && name[|name| - 1] == CLOSE_BRACKET
    && (comment == [] || comment[0] == HASH)
  }

  /** A visible ASCII character: it is no part of any white space character. */
  predicate Solid(b: byte) {
    0x21 <= b < 0x7F
  }

  lemma SpaceStops(s: bytes, i: nat)
    requires i < |s| && Solid(s[i])
    ensures SpaceLen(s) <= i
  {
  }

  lemma {:induction false} TrimLeftBlanks(before: bytes, s: bytes)
    requires AllBlank(before) && s != [] && Solid(s[0])
    ensures TrimLeft(before + s) == s
  {
    hide SpaceLen, TrimLeft;
    if before == [] {
      assert before + s == s;
      SolidStarts(s);
    } else {
      TrimLeftBlanks(before[1..], s);
      assert (before + s)[1..] == before[1..] + s && (before + s)[0] == before[0];
      BlankStarts(before + s);
    }
  }

  lemma SolidStarts(s: bytes)
    requires s != [] && Solid(s[0])
    ensures TrimLeft(s) == s
  {
    hide SpaceLen;
    SpaceStops(s, 0);
  }

  lemma BlankStarts(s: bytes)
    requires s != [] && (s[0] == 0x20 || s[0] == 0x09)
    ensures TrimLeft(s) == TrimLeft(s[1..])
  {
    hide Utf8.CharLen;
  }

  /** The last `j` bytes are a white space character. */
  predicate EndsInSpace(s: bytes, j: nat) {
    |s| >= j && SpaceLen(s[|s| - j..]) == j
  }

  lemma TrimRightStep(s: bytes)
    ensures TrimRight(s) ==
            if EndsInSpace(s, 1) then TrimRight(s[..|s| - 1])
            else if EndsInSpace(s, 2) then TrimRight(s[..|s| - 2])
            else if EndsInSpace(s, 3) then TrimRight(s[..|s| - 3])
            else s
  {
    hide SpaceLen;
  }

  lemma SolidEnd(s: bytes, j: nat)
    requires s != [] && Solid(s[|s| - 1]) && 1 <= j <= 3
    ensures !EndsInSpace(s, j)
  {
    hide SpaceLen;
    if |s| >= j { SpaceStops(s[|s| - j..], j - 1); }
  }

  lemma {:induction false} TrimRightSolid(s: bytes)
    requires s != [] && Solid(s[|s| - 1])
    ensures TrimRight(s) == s
  {
    hide *;
    TrimRightStep(s);
    SolidEnd(s, 1);
    SolidEnd(s, 2);
    SolidEnd(s, 3);
  }

  lemma {:induction false} TrimRightBlanks(s: bytes, after: bytes)
    requires AllBlank(after) && s != [] && Solid(s[|s| - 1])
    ensures TrimRight(s + after) == s
    decreases |after|
  {
    if after == [] {
      TrimRightSolid(s);
      assert s + after == s;
    } else {
      var t, n := s + after, |after|;
      TrimRightBlanks(s, after[..n - 1]);
      assert t[..|t| - 1] == s + after[..n - 1] && t[|t| - 1..] == [after[n - 1]];
      BlankIsSpace(after[n - 1]);
      hide SpaceLen;
    }
  }

  lemma BlankIsSpace(b: byte)
    requires b == 0x20 || b == 0x09
    ensures SpaceLen([b]) == 1
  {
  }

  lemma SpaceBehind(x: bytes, c: bytes, j: nat)
    requires c != [] && Solid(c[0]) && 1 <= j <= 3
    ensures EndsInSpace(x + c, j) == EndsInSpace(c, j) && (EndsInSpace(c, j) ==> j < |c|)
    ensures j < |c| ==> (x + c)[..|x + c| - j] == x + c[..|c| - j]
  {
    hide SpaceLen;
    var s := x + c;
    if j <= |c| { assert s[|s| - j..] == c[|c| - j..]; }
    if j == |c| { SpaceStops(c[0..], 0); }
    if |c| < j <= |s| { SpaceStops(s[|s| - j..], j - |c|); }
  }

  /** Trimming stops at a visible character. */
  lemma {:induction false} TrimRightBehind(x: bytes, c: bytes)
    requires c != [] && Solid(c[0])
    ensures TrimRight(x + c) == x + TrimRight(c) && TrimRight(c) != []
    decreases |c|
  {
    hide *;
    TrimRightStep(x + c);
    TrimRightStep(c);
    SpaceBehind(x, c, 1);
    SpaceBehind(x, c, 2);
    SpaceBehind(x, c, 3);
    var j := if EndsInSpace(c, 1) then 1 else if EndsInSpace(c, 2) then 2 else 3;
    if EndsInSpace(c, j) { TrimRightBehind(x, c[..|c| - j]); }
  }

  lemma NotABracket(c: bytes)
    requires c != [] && Solid(c[0]) && c[0] != OPEN_BRACKET
    ensures !IsHeader(c)
  {
    hide SpaceLen, TrimRight, TrimLeft;
    SolidStarts(c);
    assert TrimRight(c) != [] ==> TrimRight(c)[0] == c[0];
  }

  lemma OtherStart(c: bytes, key: bytes)
    requires key != [] && c != [] && !IsBlank(c[0]) && c[0] != key[0]
    ensures Assigned(c, key).None?
  {
    assert SkipBlanks(c) == c;
    hide SkipBlanks;
  }

  /** A TOML section header is taken for one exactly if it has no comment or its comment
      happens to end in a bracket. */
  lemma HeaderRecognized(before: bytes, name: bytes, after: bytes, comment: bytes)
    requires HeaderParts(before, name, after, comment)
    ensures IsHeader(before + (name + (after + comment))) <==>
            comment == [] || (TrimRight(comment) != [] && TrimRight(comment)[|TrimRight(comment)| - 1] == CLOSE_BRACKET)
  {
    hide TrimRight, TrimLeft;
    var s := name + (after + comment);
    TrimLeftBlanks(before, s);
    if comment == [] {
      assert s == name + after;
      TrimRightBlanks(name, after);
    } else {
      assert s == (name + after) + comment;
      TrimRightBehind(name + after, comment);
    }
  }

  /** The edited file still ends with the lines from the `h`-th on. */
  predicate Keeps(lines: seq<bytes>, h: nat, edited: seq<bytes>)
    requires h <= |lines|
  {
    |lines| - h <= |edited| && edited[|edited| - (|lines| - h)..] == lines[h..]
  }

  /** From a line that starts with a bracket on, everything is untouched exactly if the
      edit happens before it, or finds its own line there. */
  lemma {:induction false} SectionKept(lines: seq<bytes>, key: bytes, value: bytes, h: nat)
    requires IsKey(key) && h < |lines| && SkipBlanks(lines[h]) != [] && SkipBlanks(lines[h])[0] == OPEN_BRACKET
    ensures var k := EditAt(lines, key);
            Keeps(lines, h, Edited(lines, key, NewLine(key, value))) <==>
            k <= h || (k < |lines| && lines[k] == NewLine(key, value))
  {
    hide *;
    var k, line: bytes := EditAt(lines, key), NewLine(key, value);
    OneLineChanges(lines, key, line);
    NotAnEntry(lines[h], key, value);
    NewLineAssigns(key, value);
    if k < |lines| && !IsHeader(lines[k]) {
      ReplacedKeeps(lines, k, h, line);
    } else {
      InsertedKeeps(lines, k, h, line);
    }
  }

  lemma NotAnEntry(x: bytes, key: bytes, value: bytes)
    requires IsKey(key) && SkipBlanks(x) != [] && SkipBlanks(x)[0] == OPEN_BRACKET
    ensures Assigned(x, key).None? && x != NewLine(key, value)
  {
    assert IsKeyByte(key[0]);
    NewLineAssigns(key, value);
  }

  lemma ReplacedKeeps(lines: seq<bytes>, k: nat, h: nat, line: bytes)
    requires k < |lines| && h < |lines| && k != h
    ensures Keeps(lines, h, lines[..k] + [line] + lines[k + 1..]) <==> k <= h || lines[k] == line
  {
    var e := lines[..k] + [line] + lines[k + 1..];
    assert e == lines[k := line];
    assert e[h..] == lines[h..] ==> k > h ==> e[h..][k - h] == lines[h..][k - h];
  }

  lemma InsertedKeeps(lines: seq<bytes>, k: nat, h: nat, line: bytes)
    requires k <= |lines| && h < |lines| && lines[h] != line && (k < |lines| ==> lines[k] != line)
    ensures Keeps(lines, h, lines[..k] + [line] + lines[k..]) <==> k <= h
  {
    var e := lines[..k] + [line] + lines[k..];
    assert |e| - (|lines| - h) == h + 1;
    if k <= h {
      assert e[h + 1..] == lines[h..];
    } else if e[h + 1..] == lines[h..] {
      ShiftedLine(lines, k, h, line, h);
    }
  }

  /** Lines that a shift by one up to the new line leaves as they are all equal it. */
  lemma {:induction false} ShiftedLine(lines: seq<bytes>, k: nat, h: nat, line: bytes, i: nat)
    requires h <= i < k <= |lines|
    requires (lines[..k] + [line] + lines[k..])[h + 1..] == lines[h..]
    ensures lines[i] == line
    decreases k - i
  {
    var e := lines[..k] + [line] + lines[k..];
    assert e[i + 1] == e[h + 1..][i - h] == lines[h..][i - h] == lines[i];
    if i + 1 < k { ShiftedLine(lines, k, h, line, i + 1); }
  }

  /** `[verify] # note` is a header to TOML but not to the scan, so an `api_key` inside
      that section is rewritten. */
  lemma CommentedHeaderIsMissed(value: bytes)
    ensures var key, header := Ascii("api_key"), Ascii("[verify] # note");
            var lines := [header, NewLine(key, Ascii("x"))];
            && HeaderParts([], Ascii("[verify]"), Ascii(" "), Ascii("# note"))
            && header == [] + (Ascii("[verify]") + (Ascii(" ") + Ascii("# note")))
            && Edited(lines, key, NewLine(key, value)) == [header, NewLine(key, value)]
  {
    hide *;
    var key, header := Ascii("api_key"), Ascii("[verify] # note");
    ExampleHeader();
    KeyIsBare();
    NewLineAssigns(key, Ascii("x"));
    EditedSecond(header, NewLine(key, Ascii("x")), key, NewLine(key, value));
  }

  /** A line of a top-level array that spans lines looks like a header, so the new line is
      put inside the array. */
  lemma ArrayLineIsTakenForHeader(value: bytes)
    ensures var key, lines := Ascii("api_key"), [Ascii("hosts = ["), Ascii("[1, 2]"), Ascii("]")];
            Edited(lines, key, NewLine(key, value)) == [lines[0], NewLine(key, value), lines[1], lines[2]]
  {
    var key, lines := Ascii("api_key"), [Ascii("hosts = ["), Ascii("[1, 2]"), Ascii("]")];
    ArrayHeader();
    ArrayOpening();
    hide *;
    assert lines[1..] == [lines[1], lines[2]];
    EditedUnfold(lines, key, NewLine(key, value));
    EditedUnfold(lines[1..], key, NewLine(key, value));
  }

  lemma ArrayHeader()
    ensures IsHeader(Ascii("[1, 2]"))
  {
    var name := Ascii("[1, 2]");
    assert name[0] == OPEN_BRACKET && name[|name| - 1] == CLOSE_BRACKET;
    hide TrimLeft, TrimRight;
    HeaderRecognized([], name, [], []);
    assert [] + (name + ([] + [])) == name;
  }

  lemma ArrayOpening()
    ensures !IsHeader(Ascii("hosts = [")) && Assigned(Ascii("hosts = ["), Ascii("api_key")).None?
  {
    hide IsHeader, Assigned;
    var line, key := Ascii("hosts = ["), Ascii("api_key");
    assert line[0] == 0x68 && key[0] == 0x61;
    NotABracket(line);
    OtherStart(line, key);
  }

  lemma KeyIsBare()
    ensures IsKey(Ascii("api_key"))
  {
    assert Ascii("api_key") == [0x61, 0x70, 0x69, 0x5F, 0x6B, 0x65, 0x79];
  }

  lemma ExampleHeader()
    ensures var header := Ascii("[verify] # note");
            && HeaderParts([], Ascii("[verify]"), Ascii(" "), Ascii("# note"))
            && header == [] + (Ascii("[verify]") + (Ascii(" ") + Ascii("# note")))
            && !IsHeader(header) && Assigned(header, Ascii("api_key")).None?
  {
    var note := Ascii("# note");
    assert note[|note| - 1] == 0x65;
    TrimRightSolid(note);
    ExampleParts();
    HeaderRecognized([], Ascii("[verify]"), Ascii(" "), note);
    ExampleEntry();
    hide *;
  }

  lemma ExampleParts()
    ensures HeaderParts([], Ascii("[verify]"), Ascii(" "), Ascii("# note"))
    ensures Ascii("[verify] # note") == [] + (Ascii("[verify]") + (Ascii(" ") + Ascii("# note")))
  {
  }

  lemma ExampleEntry()
    ensures Assigned(Ascii("[verify] # note"), Ascii("api_key")).None?
  {
    var header, key := Ascii("[verify] # note"), Ascii("api_key");
    assert header[0] == OPEN_BRACKET && SkipBlanks(header) == header && key[0] == 0x61;
  }

  lemma EditedSecond(a: bytes, b: bytes, key: bytes, line: bytes)
    requires !IsHeader(a) && Assigned(a, key).None? && !IsHeader(b) && Assigned(b, key).Some?
    ensures Edited([a, b], key, line) == [a, line]
  {
    hide IsHeader, Assigned;
    EditedUnfold([b], key, line);
    assert [a, b][1..] == [b] && [b][1..] == [];
  }

  // ----- Quoting -----

  /** Each byte that is not UTF-8 replaced by U+FFFD. */
  function EachRepaired(s: bytes): bytes
    decreases |s|
  {
    var n := Utf8.CharLen(s);
    if s == [] then [] else if n > 0 then s[..n] + EachRepaired(s[n..]) else Utf8.REPLACEMENT + EachRepaired(s[1..])
  }

  lemma {:induction false} EachRepairedIsValid(s: bytes)
    ensures Utf8.Valid(EachRepaired(s))
    decreases |s|
  {
    if s != [] {
      var n := Utf8.CharLen(s);
      if n > 0 {
        EachRepairedIsValid(s[n..]);
        Utf8.CharAlone(s);
        Utf8.ValidChar(s[..n]);
        Utf8.ValidConcat(s[..n], EachRepaired(s[n..]));
      } else {
        EachRepairedIsValid(s[1..]);
        Utf8.ValidChar(Utf8.REPLACEMENT);
        Utf8.ValidConcat(Utf8.REPLACEMENT, EachRepaired(s[1..]));
      }
    }
  }

  lemma {:induction false} ValidUnrepaired(s: bytes)
    requires Utf8.Valid(s)
    ensures EachRepaired(s) == s
    decreases |s|
  {
    if s != [] { ValidUnrepaired(s[Utf8.CharLen(s)..]); }
  }

  predicate High(c: bytes) {
    forall i :: 0 <= i < |c| ==> c[i] >= 0x80
  }

  lemma {:induction false} HighUnquotes(c: bytes, t: bytes)
    requires High(c)
    ensures UnquotedText(c + t) == match UnquotedText(t) case None => None case Some(r) => Some(c + r)
  {
    hide *;
    if c == [] {
      assert c + t == t;
      if UnquotedText(t).Some? { assert c + UnquotedText(t).value == UnquotedText(t).value; }
    } else {
      HighTail(c);
      HighUnquotes(c[1..], t);
      HighByteUnquotes(c[0], c[1..] + t);
      assert c + t == [c[0]] + (c[1..] + t);
      if UnquotedText(t).Some? {
        assert [c[0]] + (c[1..] + UnquotedText(t).value) == c + UnquotedText(t).value;
      }
    }
  }

  lemma HighTail(c: bytes)
    requires High(c) && c != []
    ensures c[0] >= 0x80 && High(c[1..])
  {
  }

  lemma HighByteUnquotes(b: byte, t: bytes)
    requires b >= 0x80
    ensures UnquotedText([b] + t) == match UnquotedText(t) case None => None case Some(r) => Some([b] + r)
  {
    assert ([b] + t)[1..] == t && ([b] + t)[0] == b;
  }

  lemma AsciiUnquotes(b: byte, t: bytes)
    requires b < 0x80 && t != []
    ensures UnquotedText(QuoteChar([b]) + t) ==
            if !Quotable([b]) then None
            else match UnquotedText(t) case None => None case Some(r) => Some([b] + r)
  {
    var s := QuoteChar([b]) + t;
    assert Quotable([b]) <==> !IsControl(b) || b == NEWLINE || b == RETURN;
    if |QuoteChar([b])| == 2 {
      assert s[0] == BACKSLASH && s[2..] == t;
    } else {
      assert s[0] == b && s[1..] == t;
    }
  }

  lemma CharHigh(s: bytes)
    requires Utf8.CharLen(s) > 1
    ensures High(s[..Utf8.CharLen(s)])
  {
  }

  lemma QuotableStep(s: bytes, n: nat)
    requires n <= |s|
    ensures Quotable(s) <==> Quotable(s[..n]) && Quotable(s[n..])
  {
    assert forall i :: 0 <= i < n ==> s[..n][i] == s[i];
    assert forall i :: 0 <= i < |s| - n ==> s[n..][i] == s[n + i];
    assert forall i :: n <= i < |s| ==> s[i] == s[n..][i - n];
  }

  lemma QuotedStep(s: bytes, m: nat)
    requires s != [] && m == (if Utf8.CharLen(s) > 0 then Utf8.CharLen(s) else 1)
    ensures QuotedText(s) + [QUOTE] ==
            (if Utf8.CharLen(s) > 0 then QuoteChar(s[..m]) else Utf8.REPLACEMENT) + (QuotedText(s[m..]) + [QUOTE])
    ensures EachRepaired(s) == (if Utf8.CharLen(s) > 0 then s[..m] else Utf8.REPLACEMENT) + EachRepaired(s[m..])
    ensures QuotedText(s[m..]) + [QUOTE] != []
  {
    hide QuoteChar, Utf8.CharLen;
  }

  /** What a TOML reader makes of a quoted value. */
  lemma {:induction false} UnquotesTo(s: bytes)
    ensures UnquotedText(QuotedText(s) + [QUOTE]) == if Quotable(s) then Some(EachRepaired(s)) else None
    decreases |s|
  {
    if s == [] {
      assert QuotedText(s) + [QUOTE] == [QUOTE];
    } else {
      hide *;
      var n := Utf8.CharLen(s);
      var m := if n > 0 then n else 1;
      var t := QuotedText(s[m..]) + [QUOTE];
      UnquotesTo(s[m..]);
      QuotableStep(s, m);
      QuotedStep(s, m);
      if n == 1 {
        AsciiChar(s);
        AsciiUnquotes(s[0], t);
      } else if n > 1 {
        CharHigh(s);
        HighQuotable(s[..n]);
        HighUnquotes(s[..n], t);
      } else {
        InvalidHigh(s);
        HighQuotable(s[..1]);
        HighUnquotes(Utf8.REPLACEMENT, t);
      }
    }
  }

  lemma AsciiChar(s: bytes)
    requires Utf8.CharLen(s) == 1
    ensures s[..1] == [s[0]] && s[0] < 0x80
  {
  }

  lemma HighQuotable(c: bytes)
    requires High(c)
    ensures Quotable(c) && (c != [] ==> QuoteChar(c) == c)
  {
    assert c != [] ==> c[0] >= 0x80;
  }

  lemma InvalidHigh(s: bytes)
    requires s != [] && Utf8.CharLen(s) == 0
    ensures High(s[..1]) && High(Utf8.REPLACEMENT)
  {
  }

  /** The written value reads back exactly when it is UTF-8 without control characters
      other than tab, newline and return. */
  lemma ValueReadsBack(value: bytes)
    ensures Unquote(TomlQuote(value)) == Some(value) <==> Utf8.Valid(value) && Quotable(value)
  {
    hide Quotable, UnquotedText, QuotedText, Utf8.Valid, EachRepaired;
    var q := TomlQuote(value);
    assert q[1..] == QuotedText(value) + [QUOTE];
    UnquotesTo(value);
    EachRepairedIsValid(value);
    if Utf8.Valid(value) { ValidUnrepaired(value); }
  }

  /** A value with another control character is written as it is and cannot be read. */
  lemma ControlIsLost()
    ensures Unquote(TomlQuote([0x01])) == None
  {
    hide UnquotedText, QuotedText;
    var v: bytes := [0x01];
    UnquotesTo(v);
    assert IsControl(v[0]) && !Quotable(v);
    assert TomlQuote(v)[1..] == QuotedText(v) + [QUOTE];
  }

  // ----- The file -----

  predicate Unbroken(lines: seq<bytes>) {
    lines == [] || (NEWLINE !in lines[0] && Unbroken(lines[1..]))
  }

  lemma {:induction false} RawLinesUnbroken(s: bytes)
    ensures Unbroken(RawLines(s))
    decreases |s|
  {
    hide *;
    if s == [] {
      NoLines();
      OneUnbroken([], []);
    } else {
      RawLinesUnfold(s);
      var n := LineLen(s);
      if n == |s| {
        OneUnbroken(s[..n], []);
      } else {
        RawLinesUnbroken(s[n + 1..]);
        OneUnbroken(s[..n], RawLines(s[n + 1..]));
      }
    }
  }

  lemma OneUnbroken(l: bytes, rest: seq<bytes>)
    requires NEWLINE !in l
    ensures Unbroken([]) && Unbroken([l] + []) && Unbroken([l]) && (Unbroken(rest) ==> Unbroken([l] + rest))
  {
    assert ([l] + rest)[1..] == rest;
  }

  lemma {:induction false} DroppedUnbroken(lines: seq<bytes>)
    requires Unbroken(lines)
    ensures Unbroken(DropReturns(lines))
  {
    if lines != [] {
      DroppedUnbroken(lines[1..]);
      OneUnbroken(DropReturn(lines[0]), DropReturns(lines[1..]));
      hide Unbroken, DropReturn;
    }
  }

  lemma {:induction false} EditedUnbroken(lines: seq<bytes>, key: bytes, line: bytes)
    requires Unbroken(lines) && NEWLINE !in line
    ensures Unbroken(Edited(lines, key, line)) && Edited(lines, key, line) != []
  {
    hide IsHeader, Assigned;
    if lines == [] {
      OneUnbroken(line, []);
    } else if IsHeader(lines[0]) {
      OneUnbroken(line, lines);
    } else if Assigned(lines[0], key).Some? {
      OneUnbroken(line, lines[1..]);
    } else {
      EditedUnbroken(lines[1..], key, line);
      OneUnbroken(lines[0], Edited(lines[1..], key, line));
    }
  }

  lemma {:induction false} QuotedOneLine(s: bytes)
    ensures NEWLINE !in QuotedText(s)
    decreases |s|
  {
    if s != [] {
      var n := Utf8.CharLen(s);
      if n > 0 {
        QuotedOneLine(s[n..]);
        if n > 1 { CharHigh(s); }
        hide QuotedText;
        assert NEWLINE !in QuoteChar(s[..n]);
      } else {
        QuotedOneLine(s[1..]);
      }
    }
  }

  lemma NewLineClean(key: bytes, value: bytes)
    requires IsKey(key)
    ensures var line := NewLine(key, value);
            NEWLINE !in line && line != [] && line[|line| - 1] != RETURN && DropReturn(line) == line
  {
    hide QuotedText;
    QuotedOneLine(value);
    var q := TomlQuote(value);
    assert q[|q| - 1] == QUOTE && NEWLINE !in q;
    assert forall i :: 0 <= i < |key| ==> IsKeyByte(key[i]) && key[i] != NEWLINE;
  }

  lemma {:induction false} LineLenExact(l: bytes, rest: bytes)
    requires NEWLINE !in l && (rest == [] || rest[0] == NEWLINE)
    ensures LineLen(l + rest) == |l|
  {
    if l == [] {
      assert l + rest == rest;
    } else {
      LineLenExact(l[1..], rest);
      assert (l + rest)[1..] == l[1..] + rest && (l + rest)[0] == l[0];
    }
  }

  lemma RawLinesStep(l: bytes, rest: bytes)
    requires NEWLINE !in l
    ensures RawLines(l + ([NEWLINE] + rest)) == [l] + RawLines(rest)
  {
    hide LineLen;
    var s := l + ([NEWLINE] + rest);
    LineLenExact(l, [NEWLINE] + rest);
    SplitAround(l, rest);
    assert s != [];
  }

  lemma SplitAround(l: bytes, rest: bytes)
    ensures var s := l + ([NEWLINE] + rest);
            |s| == |l| + 1 + |rest| && s[..|l|] == l && s[|l| + 1..] == rest
            && (rest != [] ==> s[|s| - 1] == rest[|rest| - 1])
  {
  }

  lemma FirstUnlined(lines: seq<bytes>)
    requires lines != []
    ensures Unlines(lines) == lines[0] + ([NEWLINE] + Unlines(lines[1..])) && lines == [lines[0]] + lines[1..]
  {
    hide Unlines;
    var l, rest := lines[0], Unlines(lines[1..]);
    assert Unlines(lines) == l + [NEWLINE] + rest by { UnlinesStep(lines); }
    assert l + [NEWLINE] + rest == l + ([NEWLINE] + rest);
  }

  lemma UnbrokenStep(lines: seq<bytes>)
    requires Unbroken(lines) && lines != []
    ensures NEWLINE !in lines[0] && Unbroken(lines[1..])
  {
  }

  lemma OneUnlined(l: bytes)
    requires l != [] && NEWLINE !in l
    ensures Unlines([l]) == l + [NEWLINE] && RawLines(l) == [l] && !EndsLine(l)
    ensures EndsLine(l + [NEWLINE]) && (l + [NEWLINE])[..|l|] == l
  {
    hide LineLen, Unlines;
    OneLine(l, l);
    WholeLine(l);
    assert l[|l| - 1] in l;
  }

  lemma WholeLine(l: bytes)
    requires NEWLINE !in l
    ensures LineLen(l) == |l| && l[..|l|] == l
  {
    hide LineLen;
    LineLenExact(l, []);
    assert l + [] == l;
  }

  /** Splitting joined lines gives them back. */
  lemma {:induction false} RawLinesUnlines(lines: seq<bytes>)
    requires Unbroken(lines)
    ensures RawLines(Unlines(lines)) == lines
  {
    hide *;
    if lines == [] {
      OneLine([], []);
      NoLines();
    } else {
      UnbrokenStep(lines);
      FirstUnlined(lines);
      RawLinesUnlines(lines[1..]);
      RawLinesStep(lines[0], Unlines(lines[1..]));
    }
  }

  lemma {:induction false} UnlinesEnds(lines: seq<bytes>)
    requires lines != []
    ensures Unlines(lines) != [] && EndsLine(Unlines(lines))
    decreases |lines|
  {
    FirstUnlined(lines);
    var l, rest := lines[0], Unlines(lines[1..]);
    if |lines| == 1 {
      OneLine(l, l);
    } else {
      UnlinesEnds(lines[1..]);
      hide Unlines;
      SplitAround(l, rest);
    }
  }

  /** The same without the final newline, when the last line is not empty. */
  lemma {:induction false} RawLinesJoined(lines: seq<bytes>)
    requires Unbroken(lines) && lines != [] && lines[|lines| - 1] != []
    ensures var u := Unlines(lines); |u| > 1 && RawLines(u[..|u| - 1]) == lines && !EndsLine(u[..|u| - 1])
    decreases |lines|
  {
    hide *;
    var l := lines[0];
    UnbrokenStep(lines);
    if |lines| == 1 {
      assert lines == [l];
      OneUnlined(l);
    } else {
      var rest := Unlines(lines[1..]);
      RawLinesJoined(lines[1..]);
      FirstUnlined(lines);
      JoinedStep(l, rest, rest[..|rest| - 1]);
    }
  }

  lemma JoinedStep(l: bytes, rest: bytes, r: bytes)
    requires NEWLINE !in l && |rest| > 1 && r == rest[..|rest| - 1] && !EndsLine(r)
    ensures var u := l + ([NEWLINE] + rest);
            |u| > 1 && !EndsLine(u[..|u| - 1]) && RawLines(u[..|u| - 1]) == [l] + RawLines(r)
  {
    hide RawLines;
    RawLinesStep(l, r);
    SplitAround(l, r);
    WithoutLast(l, rest);
  }

  lemma WithoutLast(l: bytes, rest: bytes)
    requires |rest| > 1
    ensures var u := l + ([NEWLINE] + rest); u[..|u| - 1] == l + ([NEWLINE] + rest[..|rest| - 1])
  {
  }

  /** An empty last line is only its newline. */
  lemma EmptyLastLine(lines: seq<bytes>)
    requires lines != [] && lines[|lines| - 1] == []
    ensures Unlines(lines) == Unlines(lines[..|lines| - 1]) + [NEWLINE]
  {
    hide Unlines;
    var init := lines[..|lines| - 1];
    assert lines == init + [[]];
    UnlinesConcat(init, [[]]);
    OneLine([], []);
    assert [] + [NEWLINE] == [NEWLINE];
  }

  lemma {:induction false} LastLine(contents: bytes)
    requires contents != [] && !EndsLine(contents)
    ensures var lines := RawLines(contents); lines != [] && lines[|lines| - 1] != []
    decreases |contents|
  {
    hide *;
    FirstLine(contents);
    var n := LineLen(contents);
    if n < |contents| { LastLine(contents[n + 1..]); }
  }

  lemma FirstLine(contents: bytes)
    requires contents != [] && !EndsLine(contents)
    ensures var n := LineLen(contents);
            if n == |contents| then RawLines(contents) == [contents]
            else && n + 1 < |contents| && !EndsLine(contents[n + 1..])
                 && RawLines(contents) == [contents[..n]] + RawLines(contents[n + 1..])
  {
    hide LineLen, RawLines;
    var n := LineLen(contents);
    RawLinesUnfold(contents);
    if n == |contents| {
      assert contents[..n] == contents;
    } else {
      var rest := contents[n + 1..];
      assert contents[n] == NEWLINE && n + 1 < |contents|;
      assert rest[|rest| - 1] == contents[|contents| - 1];
    }
  }

  lemma RawLinesUnfold(s: bytes)
    requires s != []
    ensures var n := LineLen(s); RawLines(s) == if n == |s| then [s[..n]] else [s[..n]] + RawLines(s[n + 1..])
  {
    hide *;
    RawLinesMeans(s);
    assert [s[..LineLen(s)]] + [] == [s[..LineLen(s)]];
  }

  lemma RawLinesMeans(s: bytes)
    requires s != []
    ensures var n := LineLen(s); RawLines(s) == [s[..n]] + if n == |s| then [] else RawLines(s[n + 1..])
  {
    hide LineLen;
  }

  lemma EndsLineMeans(s: bytes)
    ensures EndsLine(s) == (s != [] && s[|s| - 1] == NEWLINE)
  {
  }

  lemma NoLines()
    ensures RawLines([]) == []
  {
  }

  lemma ReplacedParts(contents: bytes, key: bytes, value: bytes)
    ensures Replaced(contents, key, value) ==
            if TooLong(RawLines(contents)) then None
            else Some(Trimmed(Unlines(Edited(DropReturns(RawLines(contents)), key, NewLine(key, value))), contents))
  {
  }

  /** The lines of a file as the scan sees them. */
  function Scanned(contents: bytes): seq<bytes> {
    DropReturns(RawLines(contents))
  }

  /** The file ends in a line that is a single return, without newline, and the edit
      adds nothing behind it. */
  predicate LoneReturn(contents: bytes, key: bytes) {
    var raw := RawLines(contents);
    && !EndsLine(contents) && raw != [] && raw[|raw| - 1] == [RETURN]
    && EditAt(Scanned(contents), key) < |raw|
  }

  /** The lines the edit leaves: an empty last one is lost with its newline. */
  function Result(contents: bytes, key: bytes, value: bytes): seq<bytes> {
    var e := Edited(Scanned(contents), key, NewLine(key, value));
    if LoneReturn(contents, key) && e != [] then e[..|e| - 1] else e
  }

  /** The last line of the edited file is empty exactly if the file's own is and stays last. */
  lemma LastEdited(lines: seq<bytes>, key: bytes, line: bytes)
    requires IsKey(key) && line != []
    ensures var e := Edited(lines, key, line);
            && e != []
            && (e[|e| - 1] == [] <==> lines != [] && lines[|lines| - 1] == [] && EditAt(lines, key) < |lines|)
            && (e[|e| - 1] == [] ==> EditAt(lines, key) < |e| - 1)
  {
    hide *;
    OneLineChanges(lines, key, line);
    EmptyIsPlain(key);
    var k := EditAt(lines, key);
    LastOf(lines, k, line, if k < |lines| && !IsHeader(lines[k]) then k + 1 else k);
  }

  lemma LastOf(lines: seq<bytes>, k: nat, line: bytes, m: nat)
    requires k <= m <= |lines| && m <= k + 1
    ensures var e := lines[..k] + [line] + lines[m..];
            |e| == k + 1 + |lines| - m && e[|e| - 1] == if m < |lines| then lines[|lines| - 1] else line
  {
  }

  lemma EmptyIsPlain(key: bytes)
    requires IsKey(key)
    ensures !IsHeader([]) && Assigned([], key).None?
  {
  }

  lemma DroppedLast(contents: bytes)
    requires !EndsLine(contents)
    ensures var (raw, lines) := (RawLines(contents), Scanned(contents));
            |lines| == |raw|
            && ((lines != [] && lines[|lines| - 1] == []) <==> (raw != [] && raw[|raw| - 1] == [RETURN]))
  {
    hide RawLines;
    var raw := RawLines(contents);
    if contents != [] {
      LastLine(contents);
      DropReturnsAt(raw, |raw| - 1);
    } else {
      NoLines();
    }
  }

  /** For every file: the lines of the result are the scanned lines with the one edit,
      and it ends in a newline exactly if the file did. A last line that is a single
      return is the one exception; its newline takes its place. */
  lemma EditedFile(contents: bytes, key: bytes, value: bytes)
    requires IsKey(key) && Replaced(contents, key, value).Some?
    ensures var out := Replaced(contents, key, value).value;
            && RawLines(out) == Result(contents, key, value)
            && EndsLine(out) == (EndsLine(contents) || LoneReturn(contents, key))
            && out == Trimmed(Unlines(Result(contents, key, value)), out)
  {
    hide *;
    var lines: seq<bytes>, line: bytes := Scanned(contents), NewLine(key, value);
    ScannedMeans(contents);
    RawLinesUnbroken(contents);
    DroppedUnbroken(RawLines(contents));
    NewLineClean(key, value);
    EditedUnbroken(lines, key, line);
    ReplacedParts(contents, key, value);
    var e := Edited(lines, key, line);
    ResultMeans(contents, key, value);
    TrimmedMeans(Unlines(e), contents);
    UnlinesEnds(e);
    EndsLineMeans(Unlines(e));
    LastEdited(lines, key, line);
    if EndsLine(contents) {
      RawLinesUnlines(e);
      TrimmedMeans(Unlines(e), Unlines(e));
    } else {
      DroppedLast(contents);
      if e[|e| - 1] == [] {
        ShortResult(e);
      } else {
        RawLinesJoined(e);
        TrimmedMeans(Unlines(e), Unlines(e)[..|Unlines(e)| - 1]);
      }
    }
  }

  /** A file that ends in a lone return loses that line: `team=1`, a newline and a return
      become the new line and its newline. */
  lemma LoneReturnIsLost(value: bytes)
    ensures var key, contents := Ascii("team"), Ascii("team=1") + [NEWLINE, RETURN];
            Replaced(contents, key, value) == Some(NewLine(key, value) + [NEWLINE])
  {
    hide *;
    var key, entry := Ascii("team"), Ascii("team=1");
    var line: bytes := NewLine(key, value);
    var contents := entry + [NEWLINE, RETURN];
    TeamFile();
    ReplacedParts(contents, key, value);
    var lines: seq<bytes> := [entry, []];
    assert lines[1..] == [[]] && [line] + [[]] == [line, []];
    EditedUnfold(lines, key, line);
    OneLine(line, []);
    var out := line + [NEWLINE] + [] + [NEWLINE];
    assert out[|out| - 1] == NEWLINE && out[..|out| - 1] == line + [NEWLINE];
    TrimmedMeans(out, contents);
    ReturnEndsNoLine(entry);
  }

  lemma ReturnEndsNoLine(x: bytes)
    ensures !EndsLine(x + [NEWLINE, RETURN])
  {
  }

  lemma TeamFile()
    ensures var key, entry := Ascii("team"), Ascii("team=1");
            var contents := entry + [NEWLINE, RETURN];
            && !TooLong(RawLines(contents)) && DropReturns(RawLines(contents)) == [entry, []]
            && !IsHeader(entry) && Assigned(entry, key).Some?
  {
    var entry := Ascii("team=1");
    TeamEntry();
    hide IsHeader, Assigned, Ascii;
    var contents := entry + [NEWLINE, RETURN];
    var last: bytes := [RETURN];
    RawLinesStep(entry, last);
    assert entry + ([NEWLINE] + last) == contents;
    OneUnlined(last);
    hide RawLines;
    assert RawLines(contents) == [entry, last];
    assert [entry] + [last] == [entry, last];
    DropReturnsCons(entry, [last]);
    DropReturnsCons(last, []);
    assert [last] + [] == [last];
    assert DropReturns([]) == [] && DropReturn(last) == [];
  }

  lemma TeamEntry()
    ensures var key, entry := Ascii("team"), Ascii("team=1");
            && !IsHeader(entry) && Assigned(entry, key).Some? && NEWLINE !in entry && DropReturn(entry) == entry
            && |entry| == 6
  {
    hide IsHeader, Assigned, IsKey;
    var key, entry := Ascii("team"), Ascii("team=1");
    TeamIsBare();
    TeamBytes();
    NotABracket(entry);
    BareEntry(key, [EQUALS, 0x31]);
  }

  lemma TeamIsBare()
    ensures IsKey(Ascii("team"))
  {
    assert Ascii("team") == [0x74, 0x65, 0x61, 0x6D];
  }

  lemma TeamBytes()
    ensures var entry := Ascii("team=1");
            && entry == Ascii("team") + [EQUALS, 0x31] && entry[0] == 0x74
            && NEWLINE !in entry && entry[|entry| - 1] == 0x31
  {
    assert Ascii("team=1") == [0x74, 0x65, 0x61, 0x6D, EQUALS, 0x31];
    assert Ascii("team") == [0x74, 0x65, 0x61, 0x6D];
  }

  lemma BareEntry(key: bytes, rest: bytes)
    requires IsKey(key) && rest != [] && rest[0] == EQUALS
    ensures Assigned(key + rest, key).Some?
  {
    hide IsHeader, IsKey;
    BareKeyStarts(key, key + rest);
    assert (key + rest)[|key|..] == rest;
  }

  lemma ScannedMeans(contents: bytes)
    ensures Scanned(contents) == DropReturns(RawLines(contents))
  {
  }

  lemma ResultMeans(contents: bytes, key: bytes, value: bytes)
    ensures var e := Edited(Scanned(contents), key, NewLine(key, value));
            Result(contents, key, value) == if LoneReturn(contents, key) && e != [] then e[..|e| - 1] else e
    ensures var raw := RawLines(contents);
            LoneReturn(contents, key) == (!EndsLine(contents) && raw != [] && raw[|raw| - 1] == [RETURN]
                                          && EditAt(Scanned(contents), key) < |raw|)
  {
    hide RawLines, Edited, Scanned, NewLine;
  }

  lemma ShortResult(e: seq<bytes>)
    requires Unbroken(e) && |e| > 1 && e[|e| - 1] == []
    ensures var (u, init) := (Unlines(e), e[..|e| - 1]);
            && |u| > 0 && RawLines(u[..|u| - 1]) == init && EndsLine(u[..|u| - 1])
            && u[..|u| - 1] == Trimmed(Unlines(init), u[..|u| - 1])
  {
    hide *;
    var init := e[..|e| - 1];
    EmptyLastLine(e);
    UnbrokenInit(e);
    RawLinesUnlines(init);
    UnlinesEnds(init);
    assert (Unlines(init) + [NEWLINE])[..|Unlines(init)|] == Unlines(init);
    TrimmedMeans(Unlines(init), Unlines(init));
  }

  lemma {:induction false} UnbrokenInit(e: seq<bytes>)
    requires Unbroken(e) && e != []
    ensures Unbroken(e[..|e| - 1])
  {
    if |e| > 1 {
      UnbrokenInit(e[1..]);
      assert e[..|e| - 1] == [e[0]] + e[1..][..|e| - 2];
      OneUnbroken(e[0], e[1..][..|e| - 2]);
      hide Unbroken;
    }
  }

  // ----- Editing again -----

  predicate NoReturns(lines: seq<bytes>) {
    forall k :: 0 <= k < |lines| ==> DropReturn(lines[k]) == lines[k]
  }

  lemma SpaceBeforeReturn(d: bytes)
    requires d != []
    ensures SpaceLen(d + [RETURN]) == SpaceLen(d)
  {
    assert |d| >= 3 ==> (d + [RETURN])[..3] == d[..3];
  }

  lemma {:induction false} TrimLeftReturn(d: bytes)
    ensures TrimLeft(d + [RETURN]) == if TrimLeft(d) == [] then [] else TrimLeft(d) + [RETURN]
    decreases |d|
  {
    if d == [] {
      assert [] + [RETURN] == [RETURN] && [RETURN][1..] == [];
    } else {
      SpaceBeforeReturn(d);
      var n := SpaceLen(d);
      if n > 0 {
        TrimLeftReturn(d[n..]);
        assert (d + [RETURN])[n..] == d[n..] + [RETURN];
      }
      hide SpaceLen;
    }
  }

  lemma TrimRightReturn(d: bytes)
    ensures TrimRight(d + [RETURN]) == TrimRight(d)
  {
    hide SpaceLen;
    var s := d + [RETURN];
    ReturnIsSpace();
    assert s[|s| - 1..] == [RETURN] && s[..|s| - 1] == d;
  }

  lemma ReturnIsSpace()
    ensures SpaceLen([RETURN]) == 1
  {
  }

  /** A return at the end makes no header and no assignment, and hides none. */
  lemma ReturnIsIgnored(line: bytes, key: bytes)
    requires IsKey(key)
    ensures IsHeader(DropReturn(line)) == IsHeader(line)
    ensures Assigned(DropReturn(line), key).Some? == Assigned(line, key).Some?
  {
    if line != [] && line[|line| - 1] == RETURN {
      var d := line[..|line| - 1];
      assert line == d + [RETURN];
      HeaderWithReturn(d);
      EntryWithReturn(d, key);
      hide *;
      DropOne(d);
    }
  }

  lemma DropOne(d: bytes)
    ensures DropReturn(d + [RETURN]) == d
  {
  }

  lemma HeaderWithReturn(d: bytes)
    ensures IsHeader(d + [RETURN]) == IsHeader(d)
  {
    hide TrimLeft, TrimRight;
    TrimLeftReturn(d);
    TrimRightReturn(TrimLeft(d));
    NothingTrimmed();
  }

  lemma NothingTrimmed()
    ensures TrimRight([]) == []
  {
  }

  lemma {:induction false} SkipBlanksReturn(d: bytes)
    ensures SkipBlanks(d + [RETURN]) == if SkipBlanks(d) == [] then [] else SkipBlanks(d) + [RETURN]
  {
    if d == [] {
      assert [] + [RETURN] == [RETURN] && [RETURN][1..] == [];
    } else {
      SkipBlanksReturn(d[1..]);
      assert (d + [RETURN])[1..] == d[1..] + [RETURN];
    }
  }

  lemma EntryWithReturn(d: bytes, key: bytes)
    requires IsKey(key)
    ensures Assigned(d + [RETURN], key).Some? == Assigned(d, key).Some?
  {
    SkipBlanksReturn(d);
    var s := SkipBlanks(d);
    assert IsKeyByte(key[0]) && IsKeyByte(key[|key| - 1]);
    hide SkipBlanks, IsKey;
    KeyBeforeReturn(s, key);
    if key <= s {
      SkipBlanksReturn(s[|key|..]);
      assert (s + [RETURN])[|key|..] == s[|key|..] + [RETURN];
    }
  }

  lemma KeyBeforeReturn(s: bytes, key: bytes)
    requires key != [] && IsKeyByte(key[|key| - 1])
    ensures key <= s + [RETURN] <==> key <= s
  {
    if key <= s + [RETURN] {
      assert key[|key| - 1] == (s + [RETURN])[|key| - 1];
      assert key == (s + [RETURN])[..|key|] && |key| <= |s|;
      assert (s + [RETURN])[..|key|] == s[..|key|];
    }
  }

  /** A second edit finds the line of the first one. */
  lemma {:induction false} SecondEdit(lines: seq<bytes>, key: bytes, value: bytes)
    requires IsKey(key)
    ensures var e := DropReturns(Edited(lines, key, NewLine(key, value))); Edited(e, key, NewLine(key, value)) == e
  {
    hide *;
    var line: bytes := NewLine(key, value);
    NewLineAssigns(key, value);
    NewLineClean(key, value);
    EditedUnfold(lines, key, line);
    if lines == [] || IsHeader(lines[0]) || Assigned(lines[0], key).Some? {
      var rest := if lines == [] then [] else if IsHeader(lines[0]) then lines else lines[1..];
      assert Edited(lines, key, line) == [line] + rest;
      DropReturnsCons(line, rest);
      FirstIsEdited(line, DropReturns(rest), key);
    } else {
      var more := Edited(lines[1..], key, line);
      SecondEdit(lines[1..], key, value);
      ReturnIsIgnored(lines[0], key);
      DropReturnsCons(lines[0], more);
      LaterIsEdited(DropReturn(lines[0]), DropReturns(more), key, line);
    }
  }

  lemma DropReturnsCons(l: bytes, rest: seq<bytes>)
    ensures DropReturns([l] + rest) == [DropReturn(l)] + DropReturns(rest)
  {
    hide DropReturn;
    assert ([l] + rest)[1..] == rest;
  }

  lemma FirstIsEdited(line: bytes, rest: seq<bytes>, key: bytes)
    requires !IsHeader(line) && Assigned(line, key).Some?
    ensures Edited([line] + rest, key, line) == [line] + rest
  {
    hide IsHeader, Assigned;
    assert ([line] + rest)[1..] == rest;
  }

  lemma LaterIsEdited(l: bytes, rest: seq<bytes>, key: bytes, line: bytes)
    requires !IsHeader(l) && Assigned(l, key).None? && Edited(rest, key, line) == rest
    ensures Edited([l] + rest, key, line) == [l] + rest
  {
    hide IsHeader, Assigned;
    assert ([l] + rest)[1..] == rest;
  }

  /** The result of an edit is the edit of some lines, the last one left out or not. */
  lemma ResultIsEdited(contents: bytes, key: bytes, value: bytes)
    requires IsKey(key)
    ensures var lines := Scanned(contents);
            Result(contents, key, value) ==
            Edited(if LoneReturn(contents, key) then lines[..|lines| - 1] else lines, key, NewLine(key, value))
    ensures LoneReturn(contents, key) ==> |Scanned(contents)| > 0
  {
    hide *;
    var lines: seq<bytes>, line: bytes := Scanned(contents), NewLine(key, value);
    ResultMeans(contents, key, value);
    ScannedMeans(contents);
    if LoneReturn(contents, key) {
      NewLineClean(key, value);
      DroppedLast(contents);
      LastEdited(lines, key, line);
      EditedInit(lines, key, line);
    }
  }

  lemma {:induction false} EditedInit(lines: seq<bytes>, key: bytes, line: bytes)
    requires lines != [] && lines[|lines| - 1] == [] && IsKey(key) && EditAt(lines, key) < |lines|
    ensures var e := Edited(lines, key, line); e != [] && e[..|e| - 1] == Edited(lines[..|lines| - 1], key, line)
  {
    hide *;
    EmptyIsPlain(key);
    var init := lines[..|lines| - 1];
    EditedUnfold(lines, key, line);
    EditedUnfold(init, key, line);
    EditAtUnfold(lines, key);
    EditAtUnfold(lines[1..], key);
    if |lines| > 1 {
      assert init[0] == lines[0] && init[1..] == lines[1..][..|lines| - 2];
      if IsHeader(lines[0]) {
        assert ([line] + lines)[..|lines|] == [line] + init;
      } else if Assigned(lines[0], key).Some? {
        assert ([line] + lines[1..])[..|lines| - 1] == [line] + init[1..];
      } else {
        EditedInit(lines[1..], key, line);
        ConsInit(lines[0], Edited(lines[1..], key, line));
      }
    }
  }

  lemma ConsInit(l: bytes, more: seq<bytes>)
    requires more != []
    ensures ([l] + more)[..|more|] == [l] + more[..|more| - 1]
  {
  }

  /** Dropping returns shortens the text, unless there is none to drop. */
  lemma {:induction false} DroppedIsShorter(lines: seq<bytes>)
    ensures |Unlines(DropReturns(lines))| <= |Unlines(lines)|
    ensures |Unlines(DropReturns(lines))| == |Unlines(lines)| <==> NoReturns(lines)
    ensures NoReturns(lines) ==> DropReturns(lines) == lines
  {
    hide *;
    if lines == [] {
      NothingDropped();
      assert lines == [];
    } else {
      DroppedIsShorter(lines[1..]);
      FirstUnlined(lines);
      DropReturnsCons(lines[0], lines[1..]);
      assert [lines[0]] + lines[1..] == lines;
      FirstUnlined(DropReturns(lines));
      assert DropReturns(lines)[1..] == DropReturns(lines[1..]);
      NoReturnsStep(lines);
      DropLength(lines[0]);
    }
  }

  lemma NothingDropped()
    ensures DropReturns([]) == [] && NoReturns([])
  {
  }

  lemma NoReturnsStep(lines: seq<bytes>)
    requires lines != []
    ensures NoReturns(lines) <==> DropReturn(lines[0]) == lines[0] && NoReturns(lines[1..])
  {
    hide DropReturn;
    var more := lines[1..];
    assert forall k :: 0 <= k < |more| ==> more[k] == lines[k + 1];
    assert forall k :: 0 < k < |lines| ==> lines[k] == more[k - 1];
  }

  lemma DropLength(l: bytes)
    ensures |DropReturn(l)| <= |l| && (|DropReturn(l)| == |l| <==> DropReturn(l) == l)
  {
  }

  lemma EditedTwice(contents: bytes, key: bytes, value: bytes)
    requires IsKey(key) && Replaced(contents, key, value).Some?
    ensures var out := Replaced(contents, key, value).value;
            && (Replaced(out, key, value).None? <==> |NewLine(key, value)| >= MAX_LINE)
            && (Replaced(out, key, value) == Some(out) <==>
                |NewLine(key, value)| < MAX_LINE && NoReturns(Result(contents, key, value)))
  {
    hide *;
    var out, line := Replaced(contents, key, value).value, NewLine(key, value);
    var lines: seq<bytes> := Scanned(contents);
    var before := if LoneReturn(contents, key) && lines != [] then lines[..|lines| - 1] else lines;
    EditedFile(contents, key, value);
    ResultIsEdited(contents, key, value);
    var e := Result(contents, key, value);
    assert e == Edited(before, key, line);
    SecondEdit(before, key, value);
    ReplacedParts(contents, key, value);
    ReplacedParts(out, key, value);
    ScannedMeans(contents);
    ShortEnough(RawLines(contents), lines, before);
    EditedTooLong(before, key, line);
    DroppedIsShorter(e);
    NewLineClean(key, value);
    LastEdited(before, key, line);
    TrimmedLength(e, DropReturns(e), out);
  }

  /** Every line but the one that the edit replaces is free of a return at its end, once
      the scan has dropped one. */
  predicate OthersPlain(contents: bytes, key: bytes) {
    var lines := Scanned(contents);
    forall i :: 0 <= i < |lines| && (i != EditAt(lines, key) || IsHeader(lines[i])) ==> DropReturn(lines[i]) == lines[i]
  }

  /** Those lines are the ones the edit leaves, and the new line ends in no return. */
  lemma ResultPlain(contents: bytes, key: bytes, value: bytes)
    requires IsKey(key)
    ensures NoReturns(Result(contents, key, value)) <==> OthersPlain(contents, key)
  {
    hide *;
    var lines: seq<bytes>, line: bytes := Scanned(contents), NewLine(key, value);
    var k := EditAt(lines, key);
    var m := if k < |lines| && !IsHeader(lines[k]) then k + 1 else k;
    NewLineClean(key, value);
    OneLineChanges(lines, key, line);
    LastEdited(lines, key, line);
    ResultMeans(contents, key, value);
    SpliceNoReturns(lines, k, line, m);
    OthersPlainMeans(contents, key);
    if LoneReturn(contents, key) {
      DroppedLast(contents);
      WithoutEmptyLine(Edited(lines, key, line));
    }
  }

  lemma OthersPlainMeans(contents: bytes, key: bytes)
    ensures var lines := Scanned(contents);
            OthersPlain(contents, key) <==>
            forall i :: 0 <= i < |lines| && (i != EditAt(lines, key) || IsHeader(lines[i])) ==>
                          DropReturn(lines[i]) == lines[i]
  {
    hide Scanned, EditAt, IsHeader, DropReturn;
  }

  lemma SpliceNoReturns(lines: seq<bytes>, k: nat, line: bytes, m: nat)
    requires k <= m <= |lines| && m <= k + 1 && DropReturn(line) == line
    ensures NoReturns(lines[..k] + [line] + lines[m..]) <==>
            forall i :: 0 <= i < |lines| && (i < k || i >= m) ==> DropReturn(lines[i]) == lines[i]
  {
    hide DropReturn;
    var e := lines[..k] + [line] + lines[m..];
    assert forall i :: 0 <= i < k ==> e[i] == lines[i];
    assert forall i :: m <= i < |lines| ==> lines[i] == e[i + k + 1 - m];
    assert forall j :: k < j < |e| ==> e[j] == lines[j + m - k - 1];
    assert e[k] == line;
  }

  lemma WithoutEmptyLine(e: seq<bytes>)
    requires e != [] && e[|e| - 1] == []
    ensures NoReturns(e[..|e| - 1]) <==> NoReturns(e)
  {
    var init := e[..|e| - 1];
    assert DropReturn([]) == [];
    hide DropReturn;
    assert forall k :: 0 <= k < |init| ==> init[k] == e[k];
  }

  /** For every file: the second edit fails exactly if the new line does not fit the
      scanner's buffer, and changes nothing exactly if it fits and no line that the first
      edit leaves ends in two returns. */
  lemma EditTwice(contents: bytes, key: bytes, value: bytes)
    requires IsKey(key) && Replaced(contents, key, value).Some?
    ensures var out := Replaced(contents, key, value).value;
            && (Replaced(out, key, value).None? <==> |NewLine(key, value)| >= MAX_LINE)
            && (Replaced(out, key, value) == Some(out) <==>
                |NewLine(key, value)| < MAX_LINE && OthersPlain(contents, key))
  {
    hide *;
    ResultPlain(contents, key, value);
    EditedTwice(contents, key, value);
  }

  /** In particular a file without returns. */
  lemma EditTwicePlain(contents: bytes, key: bytes, value: bytes)
    requires IsKey(key) && Replaced(contents, key, value).Some?
    requires RETURN !in contents && |NewLine(key, value)| < MAX_LINE
    ensures var out := Replaced(contents, key, value).value; Replaced(out, key, value) == Some(out)
  {
    hide *;
    NoReturnsScanned(contents);
    NoReturnsMeans(Scanned(contents));
    OthersPlainMeans(contents, key);
    EditTwice(contents, key, value);
  }

  lemma NoReturnsMeans(lines: seq<bytes>)
    ensures NoReturns(lines) <==> forall k :: 0 <= k < |lines| ==> DropReturn(lines[k]) == lines[k]
  {
    hide DropReturn;
  }

  lemma {:induction false} NoReturnsScanned(s: bytes)
    requires RETURN !in s
    ensures NoReturns(Scanned(s))
    decreases |s|
  {
    hide *;
    ScannedMeans(s);
    if s == [] {
      NoLines();
      NothingDropped();
    } else {
      RawLinesMeans(s);
      var n := LineLen(s);
      assert forall b :: b in s[..n] ==> b in s;
      PlainLine(s[..n]);
      if n == |s| {
        DropReturnsCons(s[..n], []);
        NothingDropped();
        PlainCons(s[..n], []);
      } else {
        var more := s[n + 1..];
        assert forall b :: b in more ==> b in s;
        NoReturnsScanned(more);
        ScannedMeans(more);
        DropReturnsCons(s[..n], RawLines(more));
        PlainCons(s[..n], DropReturns(RawLines(more)));
      }
    }
  }

  lemma PlainLine(l: bytes)
    requires RETURN !in l
    ensures DropReturn(l) == l
  {
  }

  lemma PlainCons(l: bytes, more: seq<bytes>)
    requires DropReturn(l) == l && NoReturns(more)
    ensures NoReturns([l] + more)
  {
    hide DropReturn;
    assert ([l] + more)[1..] == more;
  }

  /** A comment that ends in two returns loses one at each edit: the second edit changes
      the file, or fails. */
  lemma ReturnsAreLost(value: bytes)
    ensures var key, contents := Ascii("api_key"), [HASH, RETURN, RETURN, NEWLINE];
            && Replaced(contents, key, value).Some?
            && var out := Replaced(contents, key, value).value;
               && out == [HASH, RETURN, NEWLINE] + NewLine(key, value) + [NEWLINE]
               && Replaced(out, key, value) != Some(out)
  {
    hide *;
    var key, contents: bytes := Ascii("api_key"), [HASH, RETURN, RETURN, NEWLINE];
    var comment: bytes := [HASH, RETURN];
    KeyIsBare();
    CommentFile();
    CommentLine(key);
    EditedUnfold([comment], key, NewLine(key, value));
    EditedUnfold([], key, NewLine(key, value));
    assert [comment][1..] == [];
    ReplacedParts(contents, key, value);
    OneLine(comment, NewLine(key, value));
    var out := comment + [NEWLINE] + NewLine(key, value) + [NEWLINE];
    assert [comment] + [NewLine(key, value)] == [comment, NewLine(key, value)];
    TrimmedMeans(out, contents);
    EndsLineMeans(contents);
    assert comment + [NEWLINE] == [HASH, RETURN, NEWLINE];
    EditAtUnfold([comment], key);
    EditAtUnfold([], key);
    OthersPlainMeans(contents, key);
    ScannedMeans(contents);
    EditTwice(contents, key, value);
  }

  lemma CommentFile()
    ensures var contents: bytes := [HASH, RETURN, RETURN, NEWLINE];
            && RawLines(contents) == [[HASH, RETURN, RETURN]] && !TooLong(RawLines(contents))
            && DropReturns(RawLines(contents)) == [[HASH, RETURN]]
            && DropReturn([HASH, RETURN]) == [HASH]
  {
    var l: bytes := [HASH, RETURN, RETURN];
    RawLinesStep(l, []);
    NoLines();
    assert l + ([NEWLINE] + []) == [HASH, RETURN, RETURN, NEWLINE];
    hide RawLines, LineLen;
    assert [l] + [] == [l];
    DropReturnsCons(l, []);
    assert DropReturn(l) == [HASH, RETURN];
  }

  lemma CommentLine(key: bytes)
    requires IsKey(key)
    ensures !IsHeader([HASH, RETURN]) && Assigned([HASH, RETURN], key).None?
  {
    var c: bytes := [HASH, RETURN];
    assert IsKeyByte(key[0]);
    hide *;
    NotABracket(c);
    OtherStart(c, key);
  }

  lemma ShortEnough(raw: seq<bytes>, lines: seq<bytes>, before: seq<bytes>)
    requires !TooLong(raw) && lines == DropReturns(raw)
    requires before == lines || (lines != [] && before == lines[..|lines| - 1])
    ensures !TooLong(before)
  {
    forall k | 0 <= k < |before| ensures |before[k]| < MAX_LINE {
      assert before[k] == lines[k];
      DropReturnsAt(raw, k);
      DropLength(raw[k]);
    }
  }

  lemma TrimmedLength(a: seq<bytes>, b: seq<bytes>, out: bytes)
    requires a != [] && |b| == |a|
    ensures |Trimmed(Unlines(a), out)| - |Unlines(a)| == |Trimmed(Unlines(b), out)| - |Unlines(b)|
  {
    hide Unlines;
    UnlinesEnds(a);
    UnlinesEnds(b);
  }

  lemma EditedTooLong(lines: seq<bytes>, key: bytes, line: bytes)
    requires !TooLong(lines)
    ensures TooLong(Edited(lines, key, line)) <==> |line| >= MAX_LINE
  {
    hide IsHeader, Assigned, Edited;
    OneLineChanges(lines, key, line);
    var k, e := EditAt(lines, key), Edited(lines, key, line);
    assert e[k] == line;
    forall i | 0 <= i < |e| && i != k ensures |e[i]| < MAX_LINE {
      assert e[i] in lines;
    }
  }
}
