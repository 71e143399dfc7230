/** Loading the practice text and splitting a practice line into the indent
    the trainer fills in itself and the part the user must type. */
module Text {

  /** Whitespace as Python's `str.isspace` sees one character: the code
      points of bidirectional class WS, B or S, or of category Zs. */
  predicate IsSpace(c: char)
  {
    ('\t' <= c <= '\r') || ('\U{1C}' <= c <= '\U{1F}') || c == ' '
    || c == '\U{85}' || c == '\U{A0}' || c == '\U{1680}'
    || ('\U{2000}' <= c <= '\U{200A}') || c == '\U{2028}' || c == '\U{2029}'
    || c == '\U{202F}' || c == '\U{205F}' || c == '\U{3000}'
  }

  predicate AllSpace(s: string)
  {
    forall k :: 0 <= k < |s| ==> IsSpace(s[k])
  }

  /** How many whitespace characters `s.lstrip()` removes: every character
      before that index is whitespace, and the one at it (if any) is not. */
  function LeadingSpace(s: string): (k: nat)
    ensures k <= |s|
    ensures forall j :: 0 <= j < k ==> IsSpace(s[j])
    ensures k == |s| || !IsSpace(s[k])
  {
    if s != [] && IsSpace(s[0]) then 1 + LeadingSpace(s[1..]) else 0
  }

  /** `s.lstrip()` with no argument. */
  function LStrip(s: string): string
  {
    s[LeadingSpace(s)..]
  }

  /** A practice line cut into its indent and its stripped part. */
  datatype Split = Split(indent: string, stripped: string)

  /** The split made at the start of `play_line_realtime`: the stripped part
      is `lstrip()` of the line and the indent is the prefix it dropped. */
  function SplitIndent(line: string): Split
  {
    var stripped := LStrip(line);
    var indentLen := |line| - |stripped|;
    Split(line[..indentLen], stripped)
  }

  /** The indent and the stripped part make up the line, the indent is all
      whitespace, and the stripped part does not start with whitespace. */
  lemma SplitIndentParts(line: string)
    ensures SplitIndent(line).indent + SplitIndent(line).stripped == line
    ensures AllSpace(SplitIndent(line).indent)
    ensures SplitIndent(line).stripped == [] || !IsSpace(SplitIndent(line).stripped[0])
  {
    var k := LeadingSpace(line);
    assert SplitIndent(line) == Split(line[..k], line[k..]);
    assert line[..k] + line[k..] == line;
  }

  /** The three facts of SplitIndentParts pin the split down: no other way
      of cutting the line has them all. */
  lemma SplitIsUnique(line: string, indent: string, stripped: string)
    requires indent + stripped == line
    requires AllSpace(indent)
    requires stripped == [] || !IsSpace(stripped[0])
    ensures SplitIndent(line) == Split(indent, stripped)
  {
    var k := LeadingSpace(line);
    assert forall j :: 0 <= j < |indent| ==> line[j] == indent[j];
    assert stripped != [] ==> line[|indent|] == stripped[0];
    assert k == |indent|;
    assert line[..k] == indent && line[k..] == stripped;
  }

  /** Extra leading whitespace never changes what the user has to type. */
  lemma {:induction false} ExtraIndentIgnored(indent: string, line: string)
    requires AllSpace(indent)
    ensures LeadingSpace(indent + line) == |indent| + LeadingSpace(line)
    ensures SplitIndent(indent + line).stripped == SplitIndent(line).stripped
  {
    if indent != [] {
      assert (indent + line)[1..] == indent[1..] + line;
      ExtraIndentIgnored(indent[1..], line);
    } else {
      assert indent + line == line;
    }
    assert (indent + line)[|indent| + LeadingSpace(line)..] == line[LeadingSpace(line)..];
  }

  /** A line made only of whitespace has nothing to type. */
  lemma BlankLineStripsToEmpty(line: string)
    requires AllSpace(line)
    ensures SplitIndent(line) == Split(line, [])
  {
    SplitIsUnique(line, line, []);
  }

  /** The practice file as the program finds it: missing, or holding text
      (after the reader's newline translation). */
  datatype File = Missing | Found(content: string)

  /** Length of the first piece `readlines` cuts from `s`: up to and
      including the first newline, or all of `s` when it has none. */
  function FirstPieceLength(s: string): (k: nat)
    requires s != []
    ensures 0 < k <= |s|
    ensures forall j :: 0 <= j < k - 1 ==> s[j] != '\n'
    ensures k < |s| ==> s[k - 1] == '\n'
  {
    if s[0] == '\n' || |s| == 1 then 1 else 1 + FirstPieceLength(s[1..])
  }

  function Concat(pieces: seq<string>): string
  {
    if pieces == [] then [] else pieces[0] + Concat(pieces[1..])
  }

  /** One piece of `readlines`: non-empty, a newline only as its last
      character, and ended by a newline unless it is the last piece. */
  predicate IsPiece(p: string, last: bool)
  {
    p != [] && (forall k :: 0 <= k < |p| - 1 ==> p[k] != '\n') && (!last ==> p[|p| - 1] == '\n')
  }

  /** `f.readlines()`: the text cut after every newline. */
  function ReadLines(content: string): (pieces: seq<string>)
    ensures Concat(pieces) == content
    ensures forall j :: 0 <= j < |pieces| ==> IsPiece(pieces[j], j == |pieces| - 1)
    decreases |content|
  {
    if content == [] then []
    else
      var k := FirstPieceLength(content);
      var first, rest := content[..k], ReadLines(content[k..]);
      var pieces := [first] + rest;
      assert pieces[1..] == rest;
      assert content[..k] + content[k..] == content;
      assert IsPiece(first, rest == []);
      assert forall j :: 1 <= j < |pieces| ==> pieces[j] == rest[j - 1];
      pieces
  }

  /** `s.rstrip('\n')`: the prefix of `s` left after removing every trailing
      newline. */
  function RStripNewlines(s: string): (r: string)
    ensures |r| <= |s| && r == s[..|r|]
    ensures forall k :: |r| <= k < |s| ==> s[k] == '\n'
    ensures r == [] || r[|r| - 1] != '\n'
  {
    if s != [] && s[|s| - 1] == '\n' then RStripNewlines(s[..|s| - 1]) else s
  }

  /** `load_text`: one entry per line of the file with its newline removed;
      a missing file loads as no lines at all. */
  function LoadText(file: File): (lines: seq<string>)
    ensures file.Missing? ==> lines == []
    ensures file.Found? ==> |lines| == |ReadLines(file.content)|
    ensures forall j, k :: 0 <= j < |lines| && 0 <= k < |lines[j]| ==> lines[j][k] != '\n'
  {
    match file
    case Missing => []
    case Found(content) =>
      var pieces := ReadLines(content);
      seq(|pieces|, j requires 0 <= j < |pieces| => RStripNewlines(pieces[j]))
  }

  /** The text as its lines are saved: unchanged when it is empty or ends
      with a newline, otherwise with the missing final newline added. */
  function Terminated(content: string): string
  {
    if content == [] || content[|content| - 1] == '\n' then content else content + ['\n']
  }

  /** `rstrip('\n')` on a `readlines` piece drops its final newline, if it
      has one, and nothing else. */
  lemma RStripPiece(p: string)
    requires p != [] && forall k :: 0 <= k < |p| - 1 ==> p[k] != '\n'
    ensures RStripNewlines(p) == if p[|p| - 1] == '\n' then p[..|p| - 1] else p
  {
    if p[|p| - 1] == '\n' {
      var q := p[..|p| - 1];
      assert q == [] || q[|q| - 1] != '\n';
      assert RStripNewlines(q) == q;
    }
  }

  /** A newline-ended piece in front of a non-empty text leaves its final
      newline, or the one added, unchanged. */
  lemma TerminatedAfterPiece(first: string, after: string)
    requires after != []
    ensures Terminated(first + after) == first + Terminated(after)
  {
    var s := first + after;
    assert s[|s| - 1] == after[|after| - 1];
    if after[|after| - 1] != '\n' {
      assert s + ['\n'] == first + (after + ['\n']);
    }
  }

  /** The loaded lines of a file are one per `readlines` piece: the first
      piece stripped, then the lines of the rest of the text. */
  lemma LoadTextFirst(content: string)
    requires content != []
    ensures var k := FirstPieceLength(content);
      LoadText(Found(content)) == [RStripNewlines(content[..k])] + LoadText(Found(content[k..]))
  {
    var k := FirstPieceLength(content);
    var pieces, rest := ReadLines(content), ReadLines(content[k..]);
    assert pieces == [content[..k]] + rest;
    var lines, tail := LoadText(Found(content)), LoadText(Found(content[k..]));
    assert |lines| == 1 + |tail|;
    forall j | 0 <= j < |lines|
      ensures lines[j] == ([RStripNewlines(content[..k])] + tail)[j]
    {
      if j > 0 {
        assert pieces[j] == rest[j - 1];
      }
    }
  }

  /** Saving the loaded lines gives back the file's text, with a final
      newline added when it had none: every line holds exactly the text
      between two newlines, in order. */
  lemma {:induction false} UnlinesOfLoadText(content: string)
    ensures Unlines(LoadText(Found(content))) == Terminated(content)
    decreases |content|
  {
    if content != [] {
      var k := FirstPieceLength(content);
      var first, after := content[..k], content[k..];
      var r, rest := RStripNewlines(first), LoadText(Found(after));
      assert LoadText(Found(content)) == [r] + rest by {
        LoadTextFirst(content);
      }
      assert Unlines([r] + rest) == r + ['\n'] + Unlines(rest) by {
        assert ([r] + rest)[1..] == rest;
      }
      UnlinesOfLoadText(after);
      RStripPiece(first);
      if k < |content| {
        assert r + ['\n'] == first;
        assert first + after == content;
        TerminatedAfterPiece(first, after);
      } else {
        assert after == [] && first == content;
      }
    }
  }

  /** The text loads as no lines exactly when the file is missing or empty. */
  lemma LoadsNothingIffEmpty(file: File)
    ensures LoadText(file) == [] <==> file == Missing || file == Found([])
  {
    if file.Found? && file.content != [] {
      assert ReadLines(file.content) != [];
    }
  }

  /** The file a list of newline-free lines is saved as, each line ended by
      a newline. */
  function Unlines(lines: seq<string>): string
  {
    if lines == [] then [] else lines[0] + ['\n'] + Unlines(lines[1..])
  }

  lemma {:induction false} ReadLinesOfUnlines(lines: seq<string>)
    requires forall j, k :: 0 <= j < |lines| && 0 <= k < |lines[j]| ==> lines[j][k] != '\n'
    ensures |ReadLines(Unlines(lines))| == |lines|
    ensures forall j :: 0 <= j < |lines| ==> ReadLines(Unlines(lines))[j] == lines[j] + ['\n']
  {
    if lines != [] {
      var l, tail := lines[0], lines[1..];
      var s := Unlines(lines);
      assert s == l + ['\n'] + Unlines(tail);
      var k := FirstPieceLength(s);
      assert s[|l|] == '\n';
      assert forall j :: 0 <= j < |l| ==> s[j] == l[j];
      assert k == |l| + 1;
      assert s[..k] == l + ['\n'];
      assert s[k..] == Unlines(tail);
      ReadLinesOfUnlines(tail);
    }
  }

  /** Loading a saved file gives back the lines it was saved from. */
  lemma LoadTextOfUnlines(lines: seq<string>)
    requires forall j, k :: 0 <= j < |lines| && 0 <= k < |lines[j]| ==> lines[j][k] != '\n'
    ensures LoadText(Found(Unlines(lines))) == lines
  {
    ReadLinesOfUnlines(lines);
    var loaded := LoadText(Found(Unlines(lines)));
    forall j | 0 <= j < |lines|
      ensures loaded[j] == lines[j]
    {
      var piece := lines[j] + ['\n'];
      var r := RStripNewlines(piece);
      assert forall k :: 0 <= k < |lines[j]| ==> piece[k] == lines[j][k];
      assert piece[|lines[j]|] == '\n';
      assert r != piece;
      assert lines[j] != [] ==> piece[|lines[j]| - 1] != '\n';
      assert |r| == |lines[j]|;
      assert r == piece[..|lines[j]|] == lines[j];
    }
  }
}
