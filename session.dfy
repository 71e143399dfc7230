/** The session driver `main`: load the text, wait for a start key, play
    every line in turn while showing the lines just typed above it, add up
    the misses, and append the result to the log. */
module Session {
  import opened Text
  import opened Keyboard
  import opened LineMatcher
  import opened TypingLog

  /** How many already typed lines are redrawn above the current one. */
  const ContextLines: nat := 3

  /** The lines printed above line `i`: the (at most) ContextLines lines just
      before it, oldest first. */
  function ContextWindow(lines: seq<string>, i: nat): (w: seq<string>)
    requires i < |lines|
    ensures |w| == if i < ContextLines then i else ContextLines
    ensures forall k :: 0 <= k < |w| ==> w[k] == lines[i - |w| + k]
  {
    var startIdx: nat := if i - ContextLines > 0 then i - ContextLines else 0;
    lines[startIdx..i]
  }

  function Sum(ms: seq<nat>): nat
  {
    if ms == [] then 0 else ms[0] + Sum(ms[1..])
  }

  lemma {:induction false} SumAppend(ms: seq<nat>, m: nat)
    ensures Sum(ms + [m]) == Sum(ms) + m
  {
    if ms != [] {
      assert (ms + [m])[1..] == ms[1..] + [m];
      SumAppend(ms[1..], m);
    } else {
      assert ms + [m] == [m];
    }
  }

  lemma DropDrop(s: string, a: nat, b: nat)
    requires a + b <= |s|
    ensures s[a..][b..] == s[a + b..]
  {
  }

  /** Playing a run of lines: every line finished, with its misses line by
      line and the keys left over; or Ctrl+C; or the keys ran out. */
  datatype LinesOutcome = AllTyped(perLine: seq<nat>, rest: string) | LinesAborted | LinesOutOfInput

  /** Put the misses of earlier lines in front of an outcome. */
  function Join(before: seq<nat>, o: LinesOutcome): LinesOutcome
  {
    match o
    case AllTyped(ms, rest) => AllTyped(before + ms, rest)
    case _ => o
  }

  lemma JoinJoin(a: seq<nat>, b: seq<nat>, o: LinesOutcome)
    ensures Join(a, Join(b, o)) == Join(a + b, o)
  {
    if o.AllTyped? {
      assert a + (b + o.perLine) == (a + b) + o.perLine;
    }
  }

  /** The lines played one after another on the same keyboard, each line
      starting with the keys the previous one left. */
  function PlayLines(lines: seq<string>, keys: string): LinesOutcome
    decreases |lines|
  {
    if lines == [] then AllTyped([], keys)
    else
      match PlayLineSpec(lines[0], keys)
      case Done(m, rest) => Join([m], PlayLines(lines[1..], rest))
      case Aborted => LinesAborted
      case OutOfInput => LinesOutOfInput
  }

  /** Characters the user must type for the lines: the indents excluded. */
  function TypedLength(lines: seq<string>): nat
  {
    if lines == [] then 0 else |SplitIndent(lines[0]).stripped| + TypedLength(lines[1..])
  }

  /** A line that ends without Ctrl+C or running out of keys consumed no
      Ctrl+C. */
  lemma {:induction false} RunDoneAvoidsCtrlC(target: string, i: nat, misses: nat, keys: string)
    requires i <= |target| && Run(target, i, misses, keys).Done?
    ensures |Run(target, i, misses, keys).rest| <= |keys|
    ensures forall k :: 0 <= k < |keys| - |Run(target, i, misses, keys).rest| ==> keys[k] != CtrlC
    decreases |keys|
  {
    if i < |target| {
      var key, rest := keys[0], keys[1..];
      if key == target[i] {
        RunDoneAvoidsCtrlC(target, i + 1, misses, rest);
      } else {
        RunDoneAvoidsCtrlC(target, i, misses + 1, rest);
      }
      assert forall k :: 1 <= k < |keys| ==> keys[k] == rest[k - 1];
    }
  }

  /** A run of lines that finishes finished its first line, then the others
      on the keys that line left. */
  lemma PlayLinesFinished(lines: seq<string>, keys: string)
    requires lines != [] && PlayLines(lines, keys).AllTyped?
    ensures var first := Run(SplitIndent(lines[0]).stripped, 0, 0, keys);
      && first.Done?
      && PlayLines(lines[1..], first.rest).AllTyped?
      && PlayLines(lines, keys).perLine == [first.misses] + PlayLines(lines[1..], first.rest).perLine
      && PlayLines(lines, keys).rest == PlayLines(lines[1..], first.rest).rest
  {
    assert PlayLineSpec(lines[0], keys) == Run(SplitIndent(lines[0]).stripped, 0, 0, keys);
  }

  /** What a finished run of lines consumes: every line is played, and the
      keys used are exactly the characters typed plus the misses. */
  lemma {:induction false} PlayLinesConsumes(lines: seq<string>, keys: string)
    ensures var o := PlayLines(lines, keys);
      o.AllTyped? ==>
        && |o.perLine| == |lines|
        && |o.rest| <= |keys| && o.rest == keys[|keys| - |o.rest|..]
        && |keys| - |o.rest| == TypedLength(lines) + Sum(o.perLine)
  {
    var o := PlayLines(lines, keys);
    if lines != [] && o.AllTyped? {
      var stripped := SplitIndent(lines[0]).stripped;
      var first := Run(stripped, 0, 0, keys);
      var m, mid := first.misses, first.rest;
      var tail := PlayLines(lines[1..], mid);
      assert first.Done? && tail.AllTyped? && o.perLine == [m] + tail.perLine && o.rest == tail.rest by {
        PlayLinesFinished(lines, keys);
      }
      assert |mid| <= |keys| && mid == keys[|keys| - |mid|..] && |keys| - |mid| == |stripped| + m by {
        RunConsumes(stripped, 0, 0, keys);
      }
      PlayLinesConsumes(lines[1..], mid);
      assert o.rest == keys[|keys| - |o.rest|..] by {
        DropDrop(keys, |keys| - |mid|, |mid| - |tail.rest|);
      }
      assert Sum(o.perLine) == m + Sum(tail.perLine) by {
        assert o.perLine[1..] == tail.perLine;
      }
      assert TypedLength(lines) == |stripped| + TypedLength(lines[1..]);
    }
  }

  /** None of the keys a finished run of lines used is a Ctrl+C. */
  lemma {:induction false} PlayLinesAvoidsCtrlC(lines: seq<string>, keys: string)
    requires PlayLines(lines, keys).AllTyped?
    ensures |PlayLines(lines, keys).rest| <= |keys|
    ensures forall k :: 0 <= k < |keys| - |PlayLines(lines, keys).rest| ==> keys[k] != CtrlC
  {
    var o := PlayLines(lines, keys);
    if lines != [] {
      var stripped := SplitIndent(lines[0]).stripped;
      var first := Run(stripped, 0, 0, keys);
      var mid := first.rest;
      var tail := PlayLines(lines[1..], mid);
      assert first.Done? && tail.AllTyped? && o.rest == tail.rest by {
        PlayLinesFinished(lines, keys);
      }
      var used := |keys| - |mid|;
      assert |mid| <= |keys| && forall k :: 0 <= k < used ==> keys[k] != CtrlC by {
        RunDoneAvoidsCtrlC(stripped, 0, 0, keys);
      }
      assert forall k :: 0 <= k < |mid| ==> mid[k] == keys[used + k] by {
        RunConsumes(stripped, 0, 0, keys);
      }
      PlayLinesAvoidsCtrlC(lines[1..], mid);
      forall k | used <= k < |keys| - |o.rest|
        ensures keys[k] != CtrlC
      {
        assert keys[k] == mid[k - used];
      }
    }
  }

  /** A run of lines stops early on Ctrl+C only if one was pressed, and runs
      out of keys only if none was. */
  lemma {:induction false} PlayLinesStops(lines: seq<string>, keys: string)
    ensures PlayLines(lines, keys).LinesAborted? ==> CtrlC in keys
    ensures PlayLines(lines, keys).LinesOutOfInput? ==> CtrlC !in keys
  {
    if lines != [] {
      var stripped := SplitIndent(lines[0]).stripped;
      var first := Run(stripped, 0, 0, keys);
      assert PlayLineSpec(lines[0], keys) == first;
      RunConsumes(stripped, 0, 0, keys);
      if first.Done? {
        var mid := first.rest;
        RunDoneAvoidsCtrlC(stripped, 0, 0, keys);
        PlayLinesStops(lines[1..], mid);
        var tail := PlayLines(lines[1..], mid);
        assert PlayLines(lines, keys) == Join([first.misses], tail);
        assert forall k :: 0 <= k < |mid| ==> mid[k] == keys[|keys| - |mid| + k];
        if tail.LinesAborted? {
          var k :| 0 <= k < |mid| && mid[k] == CtrlC;
          assert keys[|keys| - |mid| + k] == CtrlC;
        }
      }
    }
  }

  /** Continue with more lines once a run of lines has finished. */
  function Then(o: LinesOutcome, more: seq<string>): LinesOutcome
  {
    match o
    case AllTyped(ms, rest) => Join(ms, PlayLines(more, rest))
    case _ => o
  }

  /** Playing two runs of lines back to back is playing their concatenation:
      the lines are typed strictly in order. */
  lemma {:induction false} PlayLinesAppend(front: seq<string>, back: seq<string>, keys: string)
    ensures PlayLines(front + back, keys) == Then(PlayLines(front, keys), back)
  {
    if front == [] {
      assert front + back == back;
      assert Join([], PlayLines(back, keys)) == PlayLines(back, keys) by {
        if PlayLines(back, keys).AllTyped? {
          assert [] + PlayLines(back, keys).perLine == PlayLines(back, keys).perLine;
        }
      }
    } else {
      assert (front + back)[0] == front[0];
      assert (front + back)[1..] == front[1..] + back;
      var first := PlayLineSpec(front[0], keys);
      if first.Done? {
        PlayLinesAppend(front[1..], back, first.rest);
        var tail := PlayLines(front[1..], first.rest);
        if tail.AllTyped? {
          JoinJoin([first.misses], tail.perLine, PlayLines(back, tail.rest));
        }
      }
    }
  }

  /** Play the lines one after another on the same keys. */
  lemma PlayLinesStep(lines: seq<string>, i: nat, keys: string)
    requires i < |lines|
    ensures PlayLines(lines[i..], keys) == match PlayLineSpec(lines[i], keys)
      case Done(m, rest) => Join([m], PlayLines(lines[i + 1..], rest))
      case Aborted => LinesAborted
      case OutOfInput => LinesOutOfInput
  {
    assert lines[i..][0] == lines[i];
    assert lines[i..][1..] == lines[i + 1..];
  }

  /** The practice loop of `main`: for every line, redraw the previous
      lines, play the line, and add its misses to the running total. */
  method PlayAll(lines: seq<string>, keys: string) returns (o: LineOutcome)
    ensures o.Done? <==> PlayLines(lines, keys).AllTyped?
    ensures o.Done? ==> o.misses == Sum(PlayLines(lines, keys).perLine) && o.rest == PlayLines(lines, keys).rest
    ensures o.Aborted? <==> PlayLines(lines, keys).LinesAborted?
  {
    var totalMisses: nat := 0;
    var rest := keys;
    ghost var played: seq<nat> := [];
    assert lines[0..] == lines;
    for i := 0 to |lines|
      invariant totalMisses == Sum(played)
      invariant PlayLines(lines, keys) == Join(played, PlayLines(lines[i..], rest))
    {
      var context := ContextWindow(lines, i);  // redrawn above the line
      PlayLinesStep(lines, i, rest);
      var lineOutcome := PlayLine(lines[i], rest);
      match lineOutcome
      case Aborted =>
        return Aborted;
      case OutOfInput =>
        return OutOfInput;
      case Done(lineMisses, after) =>
        JoinJoin(played, [lineMisses], PlayLines(lines[i + 1..], after));
        SumAppend(played, lineMisses);
        played := played + [lineMisses];
        totalMisses := totalMisses + lineMisses;
        rest := after;
    }
    assert lines[|lines|..] == [];
    assert played + [] == played;
    o := Done(totalMisses, rest);
  }

  /** How a session ends: no text to practise, Ctrl+C, the keys ran out
      before the text was finished, or the whole text typed. */
  datatype SessionEnd = NoText | Quit | OutOfKeys | Completed(totalMisses: nat, rest: string)

  /** A whole session on a practice file and the keys the user presses. */
  function Session(file: File, keys: string): SessionEnd
  {
    var lines := LoadText(file);
    if lines == [] then NoText
    else
      match ReadKey(keys)
      case Exhausted => OutOfKeys
      case Interrupted => Quit
      case Pressed(_, afterStart) =>
        match PlayLines(lines, afterStart)
        case AllTyped(ms, rest) => Completed(Sum(ms), rest)
        case LinesAborted => Quit
        case LinesOutOfInput => OutOfKeys
  }

  /** There is nothing to practise exactly when the file is missing or
      empty. */
  lemma NoTextIffEmptyFile(file: File, keys: string)
    ensures Session(file, keys) == NoText <==> file == Missing || file == Found([])
  {
    LoadsNothingIffEmpty(file);
  }

  /** A completed session used one start key, then every character of the
      text except the indents, plus one key per miss; none of those keys was
      Ctrl+C. */
  lemma SessionAccounting(file: File, keys: string)
    ensures var e := Session(file, keys);
      e.Completed? ==>
        && |e.rest| < |keys| && e.rest == keys[|keys| - |e.rest|..]
        && |keys| - |e.rest| == 1 + TypedLength(LoadText(file)) + e.totalMisses
        && forall k :: 0 <= k < |keys| - |e.rest| ==> keys[k] != CtrlC
  {
    var lines := LoadText(file);
    if lines != [] && keys != [] && keys[0] != CtrlC {
      var afterStart := keys[1..];
      var played := PlayLines(lines, afterStart);
      SessionAfterStart(file, keys);
      if played.AllTyped? {
        PlayLinesConsumes(lines, afterStart);
        PlayLinesAvoidsCtrlC(lines, afterStart);
        assert played.rest == keys[|keys| - |played.rest|..] by {
          DropDrop(keys, 1, |afterStart| - |played.rest|);
        }
        forall k | 1 <= k < |keys| - |played.rest|
          ensures keys[k] != CtrlC
        {
          assert keys[k] == afterStart[k - 1];
        }
      }
    }
  }

  /** A session ends by Ctrl+C only if Ctrl+C was pressed, and runs out of
      keys only if it never was. */
  lemma SessionStops(file: File, keys: string)
    ensures Session(file, keys) == Quit ==> CtrlC in keys
    ensures Session(file, keys) == OutOfKeys ==> CtrlC !in keys
  {
    var lines := LoadText(file);
    if lines != [] && keys != [] && keys[0] != CtrlC {
      var afterStart := keys[1..];
      var played := PlayLines(lines, afterStart);
      SessionAfterStart(file, keys);
      PlayLinesStops(lines, afterStart);
      if played.LinesAborted? {
        var k :| 0 <= k < |afterStart| && afterStart[k] == CtrlC;
        assert keys[k + 1] == CtrlC;
      } else {
        assert forall k :: 1 <= k < |keys| ==> keys[k] == afterStart[k - 1];
      }
    }
  }

  lemma ExampleText()
    ensures LoadText(Found("ab\n\nc\n")) == ["ab", "", "c"]
  {
    var lines := ["ab", "", "c"];
    assert forall j, k :: 0 <= j < |lines| && 0 <= k < |lines[j]| ==> lines[j][k] != '\n';
    LoadTextOfUnlines(lines);
    assert Unlines(lines[2..]) == "c\n";
    assert Unlines(lines[1..]) == "\nc\n";
    assert Unlines(lines) == "ab\n\nc\n";
  }

  lemma ExampleFirstLine()
    ensures PlayLineSpec("ab", "abxc") == Done(0, "xc")
  {
    SplitIsUnique("ab", [], "ab");
    assert Run("ab", 2, 0, "xc") == Done(0, "xc");
    assert Run("ab", 1, 0, "bxc") == Done(0, "xc");
  }

  lemma ExampleLastLine()
    ensures PlayLineSpec("c", "xc") == Done(1, [])
  {
    SplitIsUnique("c", [], "c");
    assert Run("c", 1, 1, []) == Done(1, []);
    assert Run("c", 0, 1, "c") == Done(1, []);
  }

  lemma ExampleLastTwoLines()
    ensures PlayLines(["", "c"], "xc") == AllTyped([0, 1], [])
  {
    ExampleLastLine();
    BlankLineTakesNoKeys("", "xc");
    assert PlayLines(["c"], "xc") == AllTyped([1], []) by {
      assert ["c"][1..] == [];
    }
    assert ["", "c"][1..] == ["c"];
  }

  lemma ExampleLines()
    ensures PlayLines(["ab", "", "c"], "abxc") == AllTyped([0, 0, 1], [])
  {
    ExampleFirstLine();
    ExampleLastTwoLines();
    assert ["ab", "", "c"][1..] == ["", "c"];
  }

  /** After the start key, a session is the run of all its lines. */
  lemma SessionAfterStart(file: File, keys: string)
    requires LoadText(file) != [] && keys != [] && keys[0] != CtrlC
    ensures Session(file, keys) == match PlayLines(LoadText(file), keys[1..])
      case AllTyped(ms, rest) => Completed(Sum(ms), rest)
      case LinesAborted => Quit
      case LinesOutOfInput => OutOfKeys
  {
  }

  /** The example session: lines "ab", "" and "c"; after the start key the
      user types a, b, then x (a miss) and c. The blank line takes no key and
      the total is one miss. */
  lemma ExampleSession()
    ensures Session(Found("ab\n\nc\n"), "sabxc") == Completed(1, [])
  {
    ExampleText();
    ExampleLines();
    assert "sabxc"[1..] == "abxc";
    SessionAfterStart(Found("ab\n\nc\n"), "sabxc");
    assert Sum([0, 0, 1]) == 1 by {
      assert [0, 0, 1][1..] == [0, 1];
      assert [0, 1][1..] == [1];
      assert [1][1..] == [];
    }
  }

  /** `main`: load the text (nothing to do when it is empty), wait for a
      start key, play all lines, then append the total to the log. Ctrl+C or
      running out of keys ends the session before anything is saved. The
      date and the formatted duration come from the clock and are given. */
  method RunSession(file: File, keys: string, log: LogFile, date: string, seconds: string, openFails: bool)
      returns (end: SessionEnd)
    requires log.Valid()
    modifies log
    ensures log.Valid()
    ensures end == Session(file, keys)
    ensures end.Completed? && !openFails ==>
      log.present && log.rows == Saved(old(log.present), old(log.rows), DataRow(date, end.totalMisses, seconds))
    ensures !end.Completed? || openFails ==> log.present == old(log.present) && log.rows == old(log.rows)
  {
    var lines := LoadText(file);
    if lines == [] {
      return NoText;
    }
    var start := ReadKey(keys);
    if start.Exhausted? {
      return OutOfKeys;
    } else if start.Interrupted? {
      return Quit;
    }
    var played := PlayAll(lines, start.rest);
    match played
    case Aborted =>
      end := Quit;
    case OutOfInput =>
      end := OutOfKeys;
    case Done(totalMisses, rest) =>
      log.SaveLog(totalMisses, date, seconds, openFails);
      end := Completed(totalMisses, rest);
  }
}
