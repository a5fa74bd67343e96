/**
 Rewriting one top-level key of a TOML file line by line, leaving comments, other
 settings and sections as they are.
 */
module ConfigEdit {
  import opened Bytes
  import Utf8

  const NEWLINE: byte := 0x0A
  const RETURN: byte := 0x0D
  const QUOTE: byte := 0x22
  const BACKSLASH: byte := 0x5C
  const EQUALS: byte := 0x3D
  const OPEN_BRACKET: byte := 0x5B
  const CLOSE_BRACKET: byte := 0x5D

  // ----- Lines -----

  function LineLen(s: bytes): (n: nat)
    ensures n <= |s| && NEWLINE !in s[..n]
    ensures n < |s| ==> s[n] == NEWLINE
  {
    if s == [] || s[0] == NEWLINE then 0
    else
      var n := LineLen(s[1..]);
      assert s[..n + 1] == [s[0]] + s[1..][..n];
      n + 1
  }

  /** The lines without their newlines; a final newline does not start another. */
  function RawLines(s: bytes): seq<bytes>
    decreases |s|
  {
    if s == [] then []
    else
      var n := LineLen(s);
      [s[..n]] + if n == |s| then [] else RawLines(s[n + 1..])
  }

  function DropReturn(line: bytes): bytes {
    if line != [] && line[|line| - 1] == RETURN then line[..|line| - 1] else line
  }

  function DropReturns(lines: seq<bytes>): (r: seq<bytes>)
    ensures |r| == |lines|
  {
    if lines == [] then [] else [DropReturn(lines[0])] + DropReturns(lines[1..])
  }

  function Unlines(lines: seq<bytes>): bytes {
    if lines == [] then [] else lines[0] + [NEWLINE] + Unlines(lines[1..])
  }

  predicate EndsLine(s: bytes) {
    s != [] && s[|s| - 1] == NEWLINE
  }

  const MAX_LINE := 0x10_0000

  /** The scanner fails on a line that does not fit its buffer. */
  predicate TooLong(lines: seq<bytes>) {
    exists k :: 0 <= k < |lines| && |lines[k]| >= MAX_LINE
  }

  // ----- Headers and assignments -----

  /** The length of the white space character at the start of `s`, 0 if there is none. */
  function SpaceLen(s: bytes): (n: nat)
    ensures n <= |s| && n <= 3
  {
    if s == [] then 0
    else if 0x09 <= s[0] <= 0x0D || s[0] == 0x20 then 1
    else
      var n := Utf8.CharLen(s);
      if n == 2 && s[0] == 0xC2 && (s[1] == 0x85 || s[1] == 0xA0) then 2
      else if n == 3 && (|| s[..3] == [0xE1, 0x9A, 0x80] || s[..3] == [0xE3, 0x80, 0x80] || s[..3] == [0xE2, 0x81, 0x9F]
                         || (s[0] == 0xE2 && s[1] == 0x80
                             && (0x80 <= s[2] <= 0x8A || s[2] in {0xA8, 0xA9, 0xAF}))) then 3
      else 0
  }

  function TrimLeft(s: bytes): (r: bytes)
    ensures |r| <= |s|
  {
    if SpaceLen(s) > 0 then TrimLeft(s[SpaceLen(s)..]) else s
  }

  function TrimRight(s: bytes): (r: bytes)
    ensures |r| <= |s| && r <= s
  {
    if |s| >= 1 && SpaceLen(s[|s| - 1..]) == 1 then TrimRight(s[..|s| - 1])
    else if |s| >= 2 && SpaceLen(s[|s| - 2..]) == 2 then TrimRight(s[..|s| - 2])
    else if |s| >= 3 && SpaceLen(s[|s| - 3..]) == 3 then TrimRight(s[..|s| - 3])
    else s
  }

  /** A section header: trimmed, the line starts with [ and ends with ]. */
  predicate IsHeader(line: bytes) {
    var s := TrimRight(TrimLeft(line));
    s != [] && s[0] == OPEN_BRACKET && s[|s| - 1] == CLOSE_BRACKET
  }

  /** The blanks of the assignment pattern. */
  predicate IsBlank(b: byte) {
    b == 0x09 || b == 0x0A || b == 0x0C || b == 0x0D || b == 0x20
  }

  function SkipBlanks(s: bytes): (r: bytes)
    ensures |r| <= |s| && (r != [] ==> !IsBlank(r[0]))
  {
    if s != [] && IsBlank(s[0]) then SkipBlanks(s[1..]) else s
  }

  predicate IsKeyByte(b: byte) {
    0x30 <= b <= 0x39 || 0x41 <= b <= 0x5A || 0x61 <= b <= 0x7A || b == 0x5F || b == 0x2D
  }

  /** A bare key, such as api_key or team. */
  predicate IsKey(key: bytes) {
    key != [] && forall i :: 0 <= i < |key| ==> IsKeyByte(key[i])
  }

  /** What `line` assigns to `key`, if it is an assignment to it. */
  function Assigned(line: bytes, key: bytes): Option<bytes> {
    var s := SkipBlanks(line);
    if !(key <= s) then None
    else
      var t := SkipBlanks(s[|key|..]);
      if t == [] || t[0] != EQUALS then None else Some(SkipBlanks(t[1..]))
  }

  // ----- Quoting -----

  function QuoteChar(c: bytes): bytes {
    if c == [BACKSLASH] then [BACKSLASH, BACKSLASH]
    else if c == [QUOTE] then [BACKSLASH, QUOTE]
    else if c == [NEWLINE] then [BACKSLASH, 0x6E]
    else if c == [RETURN] then [BACKSLASH, 0x72]
    else if c == [0x09] then [BACKSLASH, 0x74]
    else c
  }

  /** Character by character; a byte that is not UTF-8 is written as U+FFFD. */
  function QuotedText(s: bytes): bytes
    decreases |s|
  {
    var n := Utf8.CharLen(s);
    if s == [] then []
    else if n > 0 then QuoteChar(s[..n]) + QuotedText(s[n..])
    else Utf8.REPLACEMENT + QuotedText(s[1..])
  }

  function TomlQuote(s: bytes): bytes {
    [QUOTE] + QuotedText(s) + [QUOTE]
  }

  predicate IsControl(b: byte) {
    (b < 0x20 && b != 0x09) || b == 0x7F
  }

  /** Reads a TOML basic string up to its closing quote: no raw control character but
      tab, and only the escapes a quoter here writes. */
  function UnquotedText(s: bytes): Option<bytes>
    decreases |s|
  {
    if s == [] then None
    else if s == [QUOTE] then Some([])
    else if s[0] == QUOTE || IsControl(s[0]) then None
    else if s[0] == BACKSLASH then
      if |s| < 2 then None
      else
        var c: Option<byte> := match s[1]
          case 0x5C => Some(BACKSLASH)
          case 0x22 => Some(QUOTE)
          case 0x6E => Some(NEWLINE)
          case 0x72 => Some(RETURN)
          case 0x74 => Some(0x09)
          case _ => None;
        match UnquotedText(s[2..])
        case None => None
        case Some(rest) => if c.None? then None else Some([c.value] + rest)
    else
      match UnquotedText(s[1..])
      case None => None
      case Some(rest) => Some([s[0]] + rest)
  }

  function Unquote(s: bytes): Option<bytes> {
    if s == [] || s[0] != QUOTE then None else UnquotedText(s[1..])
  }

  /** The control characters that the quoter writes as they are. */
  predicate Quotable(s: bytes) {
    forall i :: 0 <= i < |s| ==> IsControl(s[i]) ==> s[i] == NEWLINE || s[i] == RETURN
  }

  // ----- The edit -----

  function NewLine(key: bytes, value: bytes): bytes {
    key + [0x20, EQUALS, 0x20] + TomlQuote(value)
  }

  /** The first top-level assignment replaced, or a line put before the first header. */
  function Edited(lines: seq<bytes>, key: bytes, line: bytes): (r: seq<bytes>) {
    if lines == [] then [line]
    else if IsHeader(lines[0]) then [line] + lines
    else if Assigned(lines[0], key).Some? then [line] + lines[1..]
    else [lines[0]] + Edited(lines[1..], key, line)
  }

  function Trimmed(out: bytes, contents: bytes): bytes {
    if !EndsLine(contents) && out != [] && out[|out| - 1] == NEWLINE then out[..|out| - 1] else out
  }

  function Replaced(contents: bytes, key: bytes, value: bytes): Option<bytes> {
    if TooLong(RawLines(contents)) then None
    else Some(Trimmed(Unlines(Edited(DropReturns(RawLines(contents)), key, NewLine(key, value))), contents))
  }

  lemma UnlinesStep(lines: seq<bytes>)
    ensures Unlines(lines) == if lines == [] then [] else lines[0] + [NEWLINE] + Unlines(lines[1..])
  {
  }

  lemma {:induction false} UnlinesConcat(a: seq<bytes>, b: seq<bytes>)
    ensures Unlines(a + b) == Unlines(a) + Unlines(b)
  {
    hide *;
    AppendStep(a, b);
    UnlinesStep(a);
    if a == [] {
      Associate([], [], Unlines(b));
    } else {
      UnlinesStep(a + b);
      UnlinesConcat(a[1..], b);
      Associate(a[0] + [NEWLINE], Unlines(a[1..]), Unlines(b));
    }
  }

  /** What the rest of the file adds to the output, given the flags of the scan. */
  function Remaining(lines: seq<bytes>, key: bytes, line: bytes, inTopLevel: bool, replaced: bool): seq<bytes> {
    if inTopLevel && !replaced then Edited(lines, key, line) else lines
  }

  lemma RemainingStep(lines: seq<bytes>, k: nat, key: bytes, line: bytes, out: bytes, inTopLevel: bool, replaced: bool)
    requires k < |lines|
    ensures var x := lines[k];
            var more := lines[k + 1..];
            var header := inTopLevel && IsHeader(x);
            var hit := !header && inTopLevel && !replaced && Assigned(x, key).Some?;
            var first := if header && !replaced then [line, x] else if hit then [line] else [x];
            Unlines(Remaining(lines[k..], key, line, inTopLevel, replaced)) ==
            Unlines(first) + Unlines(Remaining(more, key, line, inTopLevel && !header, replaced || hit))
  {
    hide IsHeader, Assigned, Unlines;
    var x, more := lines[k], lines[k + 1..];
    assert lines[k..] == [x] + more && ([x] + more)[1..] == more;
    UnlinesConcat([x], more);
    UnlinesConcat([line, x], more);
    UnlinesConcat([line], more);
    UnlinesConcat([x], Edited(more, key, line));
    assert [line] + ([x] + more) == [line, x] + more;
  }

  lemma OneLine(a: bytes, b: bytes)
    ensures Unlines([a]) == a + [NEWLINE] && Unlines([a, b]) == a + [NEWLINE] + b + [NEWLINE] && Unlines([]) == []
  {
    assert [a][1..] == [] && [a, b][1..] == [b] && [b][1..] == [];
  }

  /** The output so far and what the remaining lines add are the edited file. */
  ghost predicate Progress(lines: seq<bytes>, k: nat, key: bytes, line: bytes, out: bytes,
                           inTopLevel: bool, replaced: bool, inserted: bool)
  {
    && k <= |lines|
    && (inserted ==> !inTopLevel) && (!inTopLevel ==> replaced || inserted)
    && Unlines(Edited(lines, key, line)) == out + Unlines(Remaining(lines[k..], key, line, inTopLevel, replaced))
  }

  lemma ProgressStep(lines: seq<bytes>, k: nat, key: bytes, line: bytes, out: bytes,
                     inTopLevel: bool, replaced: bool, inserted: bool)
    requires k < |lines| && Progress(lines, k, key, line, out, inTopLevel, replaced, inserted)
    ensures var x := lines[k];
            if inTopLevel && IsHeader(x) then
              if replaced then Progress(lines, k + 1, key, line, out + x + [NEWLINE], false, replaced, inserted)
              else Progress(lines, k + 1, key, line, out + line + [NEWLINE] + x + [NEWLINE], false, replaced, true)
            else if inTopLevel && !replaced && Assigned(x, key).Some? then
              Progress(lines, k + 1, key, line, out + line + [NEWLINE], inTopLevel, true, inserted)
            else Progress(lines, k + 1, key, line, out + x + [NEWLINE], inTopLevel, replaced, inserted)
  {
    hide Unlines, Edited, Remaining, IsHeader, Assigned;
    RemainingStep(lines, k, key, line, out, inTopLevel, replaced);
    OneLine(line, lines[k]);
    OneLine(lines[k], lines[k]);
  }

  lemma ProgressEnds(lines: seq<bytes>, key: bytes, line: bytes, out: bytes,
                     inTopLevel: bool, replaced: bool, inserted: bool)
    requires Progress(lines, |lines|, key, line, out, inTopLevel, replaced, inserted)
    ensures Unlines(Edited(lines, key, line)) == if !replaced && !inserted then out + line + [NEWLINE] else out
  {
    hide Unlines, Edited, IsHeader, Assigned;
    assert lines[|lines|..] == [];
    OneLine(line, line);
    assert Edited([], key, line) == [line] by { EditedNothing(key, line); }
    assert out + [] == out && out + (line + [NEWLINE]) == out + line + [NEWLINE];
  }

  lemma EditedNothing(key: bytes, line: bytes)
    ensures Edited([], key, line) == [line]
  {
  }

  lemma ProgressStarts(lines: seq<bytes>, key: bytes, line: bytes)
    ensures Progress(lines, 0, key, line, [], true, false, false)
  {
    hide Unlines, Edited;
    assert lines[0..] == lines;
    assert [] + Unlines(Edited(lines, key, line)) == Unlines(Edited(lines, key, line));
  }

  method ReplaceTopLevelKey(contents: bytes, key: bytes, value: bytes) returns (res: Option<bytes>)
    ensures res == Replaced(contents, key, value)
  {
    hide *;
    var line := NewLine(key, value);
    var raw := RawLines(contents);
    var out: bytes := [];
    var inTopLevel, replaced, inserted := true, false, false;
    ghost var lines := DropReturns(raw);
    ProgressStarts(lines, key, line);
    ReplacedMeans(contents, key, value);
    for k := 0 to |raw|
      invariant forall i :: 0 <= i < k ==> |raw[i]| < MAX_LINE
      invariant Progress(lines, k, key, line, out, inTopLevel, replaced, inserted)
    {
      if |raw[k]| >= MAX_LINE {
        return None;
      }
      var text := DropReturn(raw[k]);
      DropReturnsAt(raw, k);
      ProgressStep(lines, k, key, line, out, inTopLevel, replaced, inserted);
      if inTopLevel && IsHeader(text) {
        if !replaced {
          out := out + line;
          out := out + [NEWLINE];
          inserted := true;
        }
        inTopLevel := false;
        out := out + text;
        out := out + [NEWLINE];
        continue;
      }
      if inTopLevel && !replaced && Assigned(text, key).Some? {
        out := out + line;
        out := out + [NEWLINE];
        replaced := true;
        continue;
      }
      out := out + text;
      out := out + [NEWLINE];
    }
    ProgressEnds(lines, key, line, out, inTopLevel, replaced, inserted);
    if !replaced && !inserted {
      out := out + line;
      out := out + [NEWLINE];
    }
    TrimmedMeans(out, contents);
    var result := out;
    if !EndsLine(contents) && |result| > 0 && result[|result| - 1] == NEWLINE {
      result := result[..|result| - 1];
    }
    return Some(result);
  }

  lemma ReplacedMeans(contents: bytes, key: bytes, value: bytes)
    ensures (exists k :: 0 <= k < |RawLines(contents)| && |RawLines(contents)[k]| >= MAX_LINE) ==>
              Replaced(contents, key, value) == None
    ensures (forall k :: 0 <= k < |RawLines(contents)| ==> |RawLines(contents)[k]| < MAX_LINE) ==>
              Replaced(contents, key, value) ==
              Some(Trimmed(Unlines(Edited(DropReturns(RawLines(contents)), key, NewLine(key, value))), contents))
  {
    hide RawLines, Edited, NewLine, Unlines, Trimmed, DropReturns;
  }

  lemma TrimmedMeans(out: bytes, contents: bytes)
    ensures Trimmed(out, contents) ==
            if !EndsLine(contents) && |out| > 0 && out[|out| - 1] == NEWLINE then out[..|out| - 1] else out
  {
  }

  lemma {:induction false} DropReturnsAt(lines: seq<bytes>, k: nat)
    requires k < |lines|
    ensures DropReturns(lines)[k] == DropReturn(lines[k])
  {
    if k > 0 { DropReturnsAt(lines[1..], k - 1); }
  }
}
