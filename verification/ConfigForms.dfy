/**
 The characters and lines of the configuration editor, spelled out: what counts as white
 space, as a bare key, as an assignment and as needing an escape.
 */
module ConfigForms {
  import opened Bytes
  import opened ConfigEdit
  import Utf8

  // ----- Characters -----

  /** White space as `strings.TrimSpace` knows it: the Unicode property. */
  predicate IsSpaceChar(c: nat) {
    || 9 <= c <= 13 || c == 0x20 || c == 0x85 || c == 0xA0 || c == 0x1680 || 0x2000 <= c <= 0x200A
    || c == 0x2028 || c == 0x2029 || c == 0x202F || c == 0x205F || c == 0x3000
  }

  /** A line is trimmed by exactly those characters. */
  lemma SpacesExactly(s: bytes, n: nat)
    requires n > 0
    ensures SpaceLen(s) == n <==> exists c: nat :: IsSpaceChar(c) && Utf8.Encode(c) <= s && |Utf8.Encode(c)| == n
  {
    if c: nat :| IsSpaceChar(c) && Utf8.Encode(c) <= s && |Utf8.Encode(c)| == n {
      SpaceIsKnown(c, s);
    }
    if SpaceLen(s) == n { KnownIsSpace(s); }
  }

  lemma SpaceIsKnown(c: nat, s: bytes)
    requires IsSpaceChar(c) && Utf8.Encode(c) <= s
    ensures SpaceLen(s) == |Utf8.Encode(c)|
  {
    hide SpaceLen, Utf8.Encode, IsSpaceChar;
    if c < 0x800 { ShortSpace(c, s); } else { LongSpace(c, s); }
  }

  lemma ShortSpace(c: nat, s: bytes)
    requires IsSpaceChar(c) && c < 0x800 && Utf8.Encode(c) <= s
    ensures SpaceLen(s) == |Utf8.Encode(c)|
  {
  }

  lemma LongSpace(c: nat, s: bytes)
    requires IsSpaceChar(c) && c >= 0x800 && Utf8.Encode(c) <= s
    ensures SpaceLen(s) == |Utf8.Encode(c)|
  {
    var e := Utf8.EncodeThree(c);
    assert Utf8.Encode(c) == e == s[..3];
    Utf8.CharLenPrefix(e, s[3..]);
    assert e + s[3..] == s;
    hide Utf8.CharLen, Utf8.Encode;
  }

  lemma KnownIsSpace(s: bytes)
    requires SpaceLen(s) > 0
    ensures exists c: nat :: IsSpaceChar(c) && Utf8.Encode(c) <= s && |Utf8.Encode(c)| == SpaceLen(s)
  {
    KnownLength(s);
    if SpaceLen(s) == 3 { KnownPoint(s); } else { KnownShortPoint(s); }
    Utf8.CodePointExact(s);
    hide *;
    var c := Utf8.CodePoint(s);
    assert s[..SpaceLen(s)] <= s;
    assert IsSpaceChar(c) && Utf8.Encode(c) <= s && |Utf8.Encode(c)| == SpaceLen(s);
  }

  lemma KnownLength(s: bytes)
    requires SpaceLen(s) > 0
    ensures Utf8.CharLen(s) == SpaceLen(s)
  {
  }

  lemma KnownShortPoint(s: bytes)
    requires 0 < SpaceLen(s) == Utf8.CharLen(s) <= 2
    ensures IsSpaceChar(Utf8.CodePoint(s))
  {
    hide Utf8.CharLen;
  }

  lemma KnownPoint(s: bytes)
    requires SpaceLen(s) == 3 == Utf8.CharLen(s)
    ensures IsSpaceChar(Utf8.CodePoint(s))
  {
    hide Utf8.CharLen;
    assert s[..3] == [s[0], s[1], s[2]];
  }

  /** The pattern's blanks: space, tab, newline, form feed and return. */
  lemma BlanksExactly(b: byte)
    ensures IsBlank(b) <==> b in Ascii(" \t\n\r") + [12]
  {
    var all := Ascii(" \t\n\r") + [12];
    assert all == [32, 9, 10, 13, 12];
  }

  /** A bare key has letters, digits, underscores and dashes. */
  lemma KeyBytesExactly(b: byte)
    ensures IsKeyByte(b) <==>
            'a' <= b as char <= 'z' || 'A' <= b as char <= 'Z' || '0' <= b as char <= '9' || b in Ascii("_-")
  {
    assert Ascii("_-") == [0x5F, 0x2D];
  }

  /** Five characters are escaped, each by a backslash and one more. */
  lemma QuotesExactly(c: bytes)
    ensures QuoteChar(Ascii("\\")) == Ascii("\\\\") && QuoteChar(Ascii("\"")) == Ascii("\\\"")
    ensures QuoteChar(Ascii("\n")) == Ascii("\\n") && QuoteChar(Ascii("\r")) == Ascii("\\r")
    ensures QuoteChar(Ascii("\t")) == Ascii("\\t")
    ensures c !in {Ascii("\\"), Ascii("\""), Ascii("\n"), Ascii("\r"), Ascii("\t")} ==> QuoteChar(c) == c
  {
    assert Ascii("\\") == [0x5C] && Ascii("\"") == [0x22] && Ascii("\n") == [10];
    assert Ascii("\r") == [13] && Ascii("\t") == [9];
  }

  /** What TOML allows raw in a basic string: everything but the control characters other
      than tab. */
  lemma ControlsExactly(b: byte)
    ensures IsControl(b) <==> b <= 8 || 10 <= b <= 31 || b == 127
  {
  }

  // ----- Assignments -----

  ghost predicate AllBlank(s: bytes) {
    forall i :: 0 <= i < |s| ==> IsBlank(s[i])
  }

  /** `line` is `key` and an equals sign, with blanks before and between them. */
  ghost predicate Assigns(line: bytes, key: bytes, a: bytes, b: bytes, rest: bytes) {
    AllBlank(a) && AllBlank(b) && line == a + (key + (b + ([EQUALS] + rest)))
  }

  lemma {:induction false} SkipsBlanks(a: bytes, s: bytes)
    requires AllBlank(a) && (s == [] || !IsBlank(s[0]))
    ensures SkipBlanks(a + s) == s
  {
    if a == [] {
      assert a + s == s;
    } else {
      assert (a + s)[0] == a[0] && (a + s)[1..] == a[1..] + s;
      SkipsBlanks(a[1..], s);
    }
  }

  lemma {:induction false} SkippedBlanks(s: bytes) returns (a: bytes)
    ensures AllBlank(a) && s == a + SkipBlanks(s)
  {
    if s != [] && IsBlank(s[0]) {
      var more := SkippedBlanks(s[1..]);
      a := [s[0]] + more;
      assert s == [s[0]] + s[1..];
    } else {
      a := [];
    }
  }

  /** A line assigns to a bare key exactly if it has that form, whatever the blanks. */
  lemma AssignedExactly(line: bytes, key: bytes)
    requires IsKey(key)
    ensures Assigned(line, key).Some? <==> exists a, b, rest :: Assigns(line, key, a, b, rest)
  {
    hide SkipBlanks, IsBlank, IsKeyByte;
    if Assigned(line, key).Some? {
      var a := SkippedBlanks(line);
      var s := SkipBlanks(line);
      var b := SkippedBlanks(s[|key|..]);
      var t := SkipBlanks(s[|key|..]);
      assert s == key + s[|key|..] && t == [EQUALS] + t[1..];
      assert Assigns(line, key, a, b, t[1..]);
    }
    forall a, b, rest | Assigns(line, key, a, b, rest) ensures Assigned(line, key).Some? {
      FormAssigns(line, key, a, b, rest);
    }
  }

  /** Its value is what follows the blanks behind the equals sign. */
  lemma FormAssigns(line: bytes, key: bytes, a: bytes, b: bytes, rest: bytes)
    requires IsKey(key) && Assigns(line, key, a, b, rest)
    ensures Assigned(line, key) == Some(SkipBlanks(rest))
  {
    var t := [EQUALS] + rest;
    var s := key + (b + t);
    NoBlanks(key);
    SkipsBlanks(a, s);
    SkipsBlanks(b, t);
    assert s[|key|..] == b + t && key <= s && t[1..] == rest;
    hide SkipBlanks, IsBlank;
  }

  lemma NoBlanks(key: bytes)
    requires IsKey(key)
    ensures !IsBlank(key[0]) && !IsBlank(EQUALS)
  {
  }

  // ----- Lines -----

  /** A file is its lines, which hold no newline, each followed by one; the last newline may
      be missing, and is where the file does not end in one. */
  lemma {:induction false} LinesExactly(s: bytes)
    ensures forall k :: 0 <= k < |RawLines(s)| ==> Ascii("\n")[0] !in RawLines(s)[k]
    ensures Unlines(RawLines(s)) == s + if s == [] || EndsLine(s) then [] else Ascii("\n")
    decreases |s|
  {
    hide *;
    OneNewline();
    if s == [] {
      NoLines();
    } else {
      LineEnds(s);
      var n := LineLen(s);
      if n == |s| {
        OnlyLine(s);
      } else {
        LinesExactly(s[n + 1..]);
        FirstLine(s);
        LaterLines(s, n);
      }
    }
  }

  lemma OneNewline()
    ensures Ascii("\n") == [NEWLINE]
  {
  }

  lemma NoLines()
    ensures RawLines([]) == [] && Unlines([]) == []
  {
  }

  lemma LineEnds(s: bytes)
    ensures var n := LineLen(s); n <= |s| && NEWLINE !in s[..n] && (n < |s| ==> s[n] == NEWLINE)
  {
  }

  lemma OnlyLine(s: bytes)
    requires s != [] && LineLen(s) == |s| && NEWLINE !in s[..|s|]
    ensures RawLines(s) == [s] && NEWLINE !in s && Unlines([s]) == s + [NEWLINE] && !EndsLine(s)
  {
    hide LineLen;
    assert s[..|s|] == s && [s][1..] == [];
  }

  lemma FirstLine(s: bytes)
    requires LineLen(s) < |s|
    ensures var n := LineLen(s);
            && RawLines(s) == [s[..n]] + RawLines(s[n + 1..])
            && Unlines(RawLines(s)) == s[..n] + [NEWLINE] + Unlines(RawLines(s[n + 1..]))
  {
    LinesUnfold(s);
    hide *;
    UnlinesCons(s[..LineLen(s)], RawLines(s[LineLen(s) + 1..]));
  }

  lemma LinesUnfold(s: bytes)
    requires LineLen(s) < |s|
    ensures RawLines(s) == [s[..LineLen(s)]] + RawLines(s[LineLen(s) + 1..])
  {
    hide LineLen;
  }

  lemma UnlinesCons(line: bytes, lines: seq<bytes>)
    ensures Unlines([line] + lines) == line + [NEWLINE] + Unlines(lines)
  {
    assert ([line] + lines)[1..] == lines;
  }

  lemma LaterLines(s: bytes, n: nat)
    requires n < |s| && s[n] == NEWLINE
    ensures s == s[..n] + [NEWLINE] + s[n + 1..]
    ensures EndsLine(s) <==> s[n + 1..] == [] || EndsLine(s[n + 1..])
  {
  }

  /** The scanner takes one return off the end of a line. */
  lemma {:induction false} ReturnsExactly(lines: seq<bytes>, k: nat)
    requires k < |lines|
    ensures (exists x :: lines[k] == x + Ascii("\r")) ==> lines[k] == DropReturns(lines)[k] + Ascii("\r")
    ensures !(exists x :: lines[k] == x + Ascii("\r")) ==> lines[k] == DropReturns(lines)[k]
  {
    assert Ascii("\r") == [RETURN];
    if k > 0 {
      ReturnsExactly(lines[1..], k - 1);
    } else if lines[0] != [] && lines[0][|lines[0]| - 1] == RETURN {
      assert lines[0] == lines[0][..|lines[0]| - 1] + Ascii("\r");
    }
  }

  // ----- Trimming -----

  /** Nothing but white space. */
  predicate AllSpaces(s: bytes)
    decreases |s|
  {
    s == [] || (SpaceLen(s) > 0 && AllSpaces(s[SpaceLen(s)..]))
  }

  lemma SpacePrefix(a: bytes, b: bytes)
    requires SpaceLen(a) > 0
    ensures SpaceLen(a + b) == SpaceLen(a)
  {
    KnownLength(a);
    Utf8.CharLenPrefix(a, b);
    SameSpace(a, a + b);
  }

  lemma SameSpace(a: bytes, s: bytes)
    requires SpaceLen(a) > 0 && a <= s && Utf8.CharLen(s) == Utf8.CharLen(a) == SpaceLen(a)
    ensures SpaceLen(s) == SpaceLen(a)
  {
    hide Utf8.CharLen;
    assert |a| >= 3 ==> a[..3] == s[..3];
  }

  lemma {:induction false} SpacesJoin(a: bytes, b: bytes)
    requires AllSpaces(a) && AllSpaces(b)
    ensures AllSpaces(a + b)
    decreases |a|
  {
    hide SpaceLen;
    if a == [] {
      assert a + b == b;
    } else {
      var n := SpaceLen(a);
      SpacePrefix(a, b);
      SpacesJoin(a[n..], b);
      assert (a + b)[n..] == a[n..] + b;
    }
  }

  lemma OneSpace(s: bytes)
    requires s != [] && SpaceLen(s) == |s|
    ensures AllSpaces(s)
  {
    hide SpaceLen;
    assert s[|s|..] == [];
  }

  lemma {:induction false} LeftTrimmed(s: bytes) returns (a: bytes)
    ensures AllSpaces(a) && s == a + TrimLeft(s) && SpaceLen(TrimLeft(s)) == 0
    decreases |s|
  {
    hide *;
    TrimLeftUnfold(s);
    var n := SpaceLen(s);
    if n > 0 {
      var more := LeftTrimmed(s[n..]);
      a := s[..n] + more;
      SpaceAlone(s);
      OneSpace(s[..n]);
      SpacesJoin(s[..n], more);
      assert s == s[..n] + s[n..];
    } else {
      a := [];
      NoSpaces();
    }
  }

  lemma NoSpaces()
    ensures AllSpaces([])
  {
  }

  lemma TrimLeftUnfold(s: bytes)
    ensures SpaceLen(s) <= |s| && TrimLeft(s) == if SpaceLen(s) > 0 then TrimLeft(s[SpaceLen(s)..]) else s
  {
    hide SpaceLen;
  }

  lemma SpaceAlone(s: bytes)
    requires SpaceLen(s) > 0
    ensures SpaceLen(s[..SpaceLen(s)]) == SpaceLen(s)
  {
    KnownLength(s);
    Utf8.CharAlone(s);
    CutSpace(s, SpaceLen(s));
  }

  lemma CutSpace(s: bytes, n: nat)
    requires SpaceLen(s) == n > 0 && Utf8.CharLen(s[..n]) == n
    ensures SpaceLen(s[..n]) == n
  {
    hide Utf8.CharLen;
    assert n == 3 ==> s[..n][..3] == s[..3];
  }

  /** A suffix of `s` that is one white space character. */
  predicate EndsInSpaceChar(s: bytes, n: nat) {
    0 < n <= |s| && SpaceLen(s[|s| - n..]) == n
  }

  lemma {:induction false} RightTrimmed(s: bytes) returns (b: bytes)
    ensures AllSpaces(b) && s == TrimRight(s) + b && forall n: nat :: !EndsInSpaceChar(TrimRight(s), n)
    decreases |s|
  {
    hide *;
    var m := TrimRightUnfold(s);
    if m > 0 {
      var front, last := s[..|s| - m], s[|s| - m..];
      var more := RightTrimmed(front);
      b := more + last;
      OneSpace(last);
      SpacesJoin(more, last);
      assert s == front + last;
    } else {
      b := [];
      NoSpaces();
    }
  }

  lemma TrimRightUnfold(s: bytes) returns (m: nat)
    ensures m > 0 ==> m <= |s| && SpaceLen(s[|s| - m..]) == m && TrimRight(s) == TrimRight(s[..|s| - m])
    ensures m == 0 ==> TrimRight(s) == s && forall n: nat :: !EndsInSpaceChar(s, n)
  {
    hide SpaceLen;
    m := if EndsInSpaceChar(s, 1) then 1
         else if EndsInSpaceChar(s, 2) then 2
         else if EndsInSpaceChar(s, 3) then 3
         else 0;
    assert forall n: nat :: EndsInSpaceChar(s, n) ==> n <= 3;
  }

  /** Trimming takes white space, and all of it, off both ends of a line. */
  lemma TrimmedExactly(s: bytes) returns (a: bytes, b: bytes)
    ensures var t := TrimRight(TrimLeft(s));
            && AllSpaces(a) && AllSpaces(b) && s == a + (t + b)
            && SpaceLen(t) == 0 && forall n: nat :: !EndsInSpaceChar(t, n)
  {
    hide *;
    a := LeftTrimmed(s);
    b := RightTrimmed(TrimLeft(s));
    var t := TrimRight(TrimLeft(s));
    if SpaceLen(t) > 0 { SpacePrefix(t, b); }
  }
}
