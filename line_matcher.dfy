/** One practice line: the matcher that advances over the stripped part only
    on the right key, counting every other key as a miss, and what the
    screen shows while it waits for a key. */
module LineMatcher {
  import opened Text
  import opened Keyboard

  /** How a line ends: typed in full with `misses` wrong keys and the keys
      left over, cut short by Ctrl+C, or left waiting for a key that never
      comes. */
  datatype LineOutcome = Done(misses: nat, rest: string) | Aborted | OutOfInput

  /** The matcher in state AwaitingChar(i) with `misses` counted so far:
      the next key either equals `target[i]` and the cursor advances, or is a
      miss and the same character is awaited again; at `i == |target|` the
      line is done. */
  function Run(target: string, i: nat, misses: nat, keys: string): LineOutcome
    requires i <= |target|
    decreases |keys|
  {
    if i == |target| then Done(misses, keys)
    else
      match ReadKey(keys)
      case Exhausted => OutOfInput
      case Interrupted => Aborted
      case Pressed(key, rest) =>
        if key == target[i] then Run(target, i + 1, misses, rest)
        else Run(target, i, misses + 1, rest)
  }

  /** What the matcher takes: a prefix of the keys, one for each character
      still awaited plus one for each miss; it stops on Ctrl+C only when one
      was pressed, and runs out only when none was. */
  lemma {:induction false} RunConsumes(target: string, i: nat, misses: nat, keys: string)
    requires i <= |target|
    ensures var o := Run(target, i, misses, keys);
      o.Done? ==> (misses <= o.misses && |o.rest| <= |keys| && o.rest == keys[|keys| - |o.rest|..]
                   && |keys| - |o.rest| == |target| - i + (o.misses - misses))
    ensures Run(target, i, misses, keys).Aborted? ==> CtrlC in keys
    ensures Run(target, i, misses, keys).OutOfInput? ==> CtrlC !in keys
    decreases |keys|
  {
    if i < |target| && keys != [] && keys[0] != CtrlC {
      if keys[0] == target[i] {
        RunConsumes(target, i + 1, misses, keys[1..]);
      } else {
        RunConsumes(target, i, misses + 1, keys[1..]);
      }
    }
  }

  /** The matcher on a whole stripped part, from the first character and no
      misses. */
  function Match(stripped: string, keys: string): LineOutcome
  {
    Run(stripped, 0, 0, keys)
  }

  /** `play_line_realtime` on one line: only the stripped part is matched. */
  function PlayLineSpec(line: string, keys: string): LineOutcome
  {
    Match(SplitIndent(line).stripped, keys)
  }

  /** While a character is awaited, no key left means the matcher runs out
      and Ctrl+C means it aborts. */
  lemma NoKeyNoLine(target: string, i: nat, misses: nat, keys: string)
    requires i < |target|
    ensures keys == [] ==> Run(target, i, misses, keys) == OutOfInput
    ensures keys != [] && keys[0] == CtrlC ==> Run(target, i, misses, keys) == Aborted
  {
  }

  /** A key that is not the awaited character counts one miss and leaves
      the cursor where it was. */
  lemma WrongKeyKeepsCursor(target: string, i: nat, misses: nat, keys: string)
    requires i < |target| && keys != [] && keys[0] != CtrlC && keys[0] != target[i]
    ensures Run(target, i, misses, keys) == Run(target, i, misses + 1, keys[1..])
  {
  }

  /** The awaited character moves the cursor on by one and counts nothing. */
  lemma RightKeyAdvances(target: string, i: nat, misses: nat, keys: string)
    requires i < |target| && keys != [] && keys[0] != CtrlC && keys[0] == target[i]
    ensures Run(target, i, misses, keys) == Run(target, i + 1, misses, keys[1..])
  {
  }

  /** `play_line_realtime`: split off the indent, then for each character of
      the stripped part read keys until the right one comes, counting the
      others as misses. */
  method PlayLine(line: string, keys: string) returns (o: LineOutcome)
    ensures o == PlayLineSpec(line, keys)
    ensures o.Done? ==> |keys| - |o.rest| == |SplitIndent(line).stripped| + o.misses
  {
    var stripped := SplitIndent(line).stripped;
    var missCount: nat := 0;
    var pos := 0;
    for i := 0 to |stripped|
      invariant pos <= |keys|
      invariant Run(stripped, i, missCount, keys[pos..]) == Match(stripped, keys)
    {
      var targetChar := stripped[i];
      while true
        invariant pos <= |keys|
        invariant Run(stripped, i, missCount, keys[pos..]) == Match(stripped, keys)
        decreases |keys| - pos
      {
        // the line as drawn before the key is read
        var view := Display(line, i);
        var event := ReadKey(keys[pos..]);
        if event.Exhausted? {
          NoKeyNoLine(stripped, i, missCount, keys[pos..]);
          return OutOfInput;
        }
        if event.Interrupted? {
          NoKeyNoLine(stripped, i, missCount, keys[pos..]);
          return Aborted;
        }
        var userChar := event.key;
        assert keys[pos..][1..] == keys[pos + 1..];
        if userChar == targetChar {
          RightKeyAdvances(stripped, i, missCount, keys[pos..]);
          pos := pos + 1;
          break;
        }
        WrongKeyKeepsCursor(stripped, i, missCount, keys[pos..]);
        pos := pos + 1;
        missCount := missCount + 1;
      }
    }
    o := Done(missCount, keys[pos..]);
    RunConsumes(stripped, 0, 0, keys);
  }

  /** No wrong key in `w` is the awaited character or Ctrl+C. */
  predicate Misfires(w: string, awaited: char)
  {
    forall k :: 0 <= k < |w| ==> w[k] != awaited && w[k] != CtrlC
  }

  /** `wrong[j]` are the wrong keys tried while `target[j]` was awaited, and
      no character of the target is Ctrl+C (which could never be typed). */
  predicate Attempts(target: string, wrong: seq<string>)
  {
    |wrong| == |target|
    && forall j :: 0 <= j < |target| ==> target[j] != CtrlC && Misfires(wrong[j], target[j])
  }

  /** The keys of a user who types `target` in full, trying the wrong keys
      `wrong[j]` before getting `target[j]` right: every character of the
      target, in order, none skipped. */
  function Typing(target: string, wrong: seq<string>): string
    requires |wrong| == |target|
  {
    if target == [] then [] else wrong[0] + [target[0]] + Typing(target[1..], wrong[1..])
  }

  function MissTotal(wrong: seq<string>): nat
  {
    if wrong == [] then 0 else |wrong[0]| + MissTotal(wrong[1..])
  }

  lemma {:induction false} RunSkipsMisfires(target: string, i: nat, misses: nat, w: string, keys: string)
    requires i < |target| && Misfires(w, target[i])
    ensures Run(target, i, misses, w + keys) == Run(target, i, misses + |w|, keys)
    decreases |w|
  {
    if w != [] {
      assert (w + keys)[0] == w[0] && w[0] != target[i] && w[0] != CtrlC;
      assert (w + keys)[1..] == w[1..] + keys;
      assert Misfires(w[1..], target[i]);
      WrongKeyKeepsCursor(target, i, misses, w + keys);
      RunSkipsMisfires(target, i, misses + 1, w[1..], keys);
    } else {
      assert w + keys == keys;
    }
  }

  /** Completeness: whatever wrong keys the user tries before each
      character, the matcher takes exactly those keys, ends the line, counts
      every wrong key as a miss and leaves the following keys alone. */
  lemma {:induction false} RunAccepts(target: string, i: nat, misses: nat, wrong: seq<string>, rest: string)
    requires i <= |target| && Attempts(target[i..], wrong)
    ensures Run(target, i, misses, Typing(target[i..], wrong) + rest) == Done(misses + MissTotal(wrong), rest)
    decreases |target| - i
  {
    if i < |target| {
      var t, tail := target[i..], Typing(target[i + 1..], wrong[1..]) + rest;
      assert t[1..] == target[i + 1..];
      assert Typing(t, wrong) + rest == wrong[0] + ([target[i]] + tail);
      assert Misfires(wrong[0], target[i]) && target[i] != CtrlC;
      RunSkipsMisfires(target, i, misses, wrong[0], [target[i]] + tail);
      assert ([target[i]] + tail)[1..] == tail;
      assert Attempts(target[i + 1..], wrong[1..]) by {
        forall j | 0 <= j < |target| - (i + 1)
          ensures target[i + 1..][j] != CtrlC && Misfires(wrong[1..][j], target[i + 1..][j])
        {
          assert target[i + 1..][j] == t[j + 1];
        }
      }
      RunAccepts(target, i + 1, misses + |wrong[0]|, wrong[1..], rest);
    }
  }

  /** Soundness: when the matcher ends the line, the keys it took are the
      target typed in full with some wrong keys tried before each character,
      and the misses it reports are exactly those wrong keys. */
  lemma {:induction false} RunExplained(target: string, i: nat, misses: nat, keys: string) returns (wrong: seq<string>)
    requires i <= |target| && Run(target, i, misses, keys).Done?
    ensures Attempts(target[i..], wrong)
    ensures keys == Typing(target[i..], wrong) + Run(target, i, misses, keys).rest
    ensures Run(target, i, misses, keys).misses == misses + MissTotal(wrong)
    decreases |keys|
  {
    var o := Run(target, i, misses, keys);
    if i == |target| {
      wrong := [];
    } else {
      var c := keys[0];
      var t := target[i..];
      assert t[1..] == target[i + 1..];
      if c == target[i] {
        var w := RunExplained(target, i + 1, misses, keys[1..]);
        wrong := [[]] + w;
        assert wrong[1..] == w;
        assert Typing(t, wrong) == [c] + Typing(target[i + 1..], w);
        assert keys == [c] + keys[1..];
      } else {
        var w := RunExplained(target, i, misses + 1, keys[1..]);
        wrong := [[c] + w[0]] + w[1..];
        assert wrong[1..] == w[1..];
        assert Typing(t, wrong) == [c] + Typing(t, w);
        assert keys == [c] + keys[1..];
        assert MissTotal(wrong) == 1 + MissTotal(w);
        assert Attempts(t, wrong) by {
          forall j | 0 <= j < |t|
            ensures t[j] != CtrlC && Misfires(wrong[j], t[j])
          {
            if j == 0 {
              assert forall k :: 0 <= k < |w[0]| ==> wrong[0][k + 1] == w[0][k];
            }
          }
        }
      }
    }
  }

  /** A line is typed to the end on `keys` exactly when `keys` begins with
      its stripped part typed in full, wrong tries allowed; the misses are the
      wrong tries. (Completeness half.) */
  lemma PlayLineAccepts(line: string, wrong: seq<string>, rest: string)
    requires Attempts(SplitIndent(line).stripped, wrong)
    ensures PlayLineSpec(line, Typing(SplitIndent(line).stripped, wrong) + rest) == Done(MissTotal(wrong), rest)
  {
    var stripped := SplitIndent(line).stripped;
    assert stripped[0..] == stripped;
    RunAccepts(stripped, 0, 0, wrong, rest);
  }

  /** Soundness half of PlayLineAccepts. */
  lemma PlayLineExplained(line: string, keys: string) returns (wrong: seq<string>)
    requires PlayLineSpec(line, keys).Done?
    ensures Attempts(SplitIndent(line).stripped, wrong)
    ensures keys == Typing(SplitIndent(line).stripped, wrong) + PlayLineSpec(line, keys).rest
    ensures PlayLineSpec(line, keys).misses == MissTotal(wrong)
  {
    var stripped := SplitIndent(line).stripped;
    assert stripped[0..] == stripped;
    wrong := RunExplained(stripped, 0, 0, keys);
  }

  /** The indent is never typed: extra leading whitespace changes nothing
      about the keys taken or the misses counted. */
  lemma IndentNeverTyped(indent: string, line: string, keys: string)
    requires AllSpace(indent)
    ensures PlayLineSpec(indent + line, keys) == PlayLineSpec(line, keys)
  {
    ExtraIndentIgnored(indent, line);
  }

  /** A blank or all-whitespace line takes no key and counts no miss. */
  lemma BlankLineTakesNoKeys(line: string, keys: string)
    requires AllSpace(line)
    ensures PlayLineSpec(line, keys) == Done(0, keys)
  {
    BlankLineStripsToEmpty(line);
  }

  /** What the screen shows while `stripped[i]` is awaited: the indent, the
      completed characters, the target character and the rest, and the
      cursor offset: how many characters from the start of the row the
      cursor is moved (a count of characters, not of display columns). */
  datatype View = View(indent: string, completed: string, target: char, remain: string, cursor: nat)

  /** The per-step display of `play_line_realtime` for cursor index `i`;
      the cursor offset is `|indent| + i` characters. */
  function Display(line: string, i: nat): View
    requires i < |SplitIndent(line).stripped|
  {
    var sp := SplitIndent(line);
    var stripped := sp.stripped;
    var completed := stripped[..i];
    var remain := if i + 1 < |stripped| then stripped[i + 1..] else [];
    var moveLen := |sp.indent| + i;
    View(sp.indent, completed, stripped[i], remain, moveLen)
  }

  /** At every cursor index the view redraws the line exactly: the indent,
      then the first `i` characters of the stripped part as completed, then
      the awaited character, then the rest; and the cursor offset is the
      awaited character's index in the line. */
  lemma DisplayRedrawsLine(line: string, i: nat)
    requires i < |SplitIndent(line).stripped|
    ensures var v := Display(line, i);
      && v.indent + v.completed + [v.target] + v.remain == line
      && v.indent == SplitIndent(line).indent
      && v.completed + [v.target] + v.remain == SplitIndent(line).stripped
      && |v.completed| == i && v.target == SplitIndent(line).stripped[i]
      && v.cursor == |v.indent + v.completed|
      && v.cursor < |line| && line[v.cursor] == v.target
  {
    SplitIndentParts(line);
    var sp := SplitIndent(line);
    var v := Display(line, i);
    assert v.completed + [v.target] + v.remain == sp.stripped;
    assert line == sp.indent + (v.completed + [v.target] + v.remain);
    assert line[v.cursor] == (sp.indent + sp.stripped)[|sp.indent| + i];
  }
}
