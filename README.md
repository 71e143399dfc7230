# Typing trainer core, modelled in Dafny

`typing_practice.py` is a terminal typing trainer. It works like this:

- It loads a practice text and waits for a start key.
- It replays the text line by line. A line's leading whitespace is filled in automatically. The user must type the rest of the line character by character. A wrong key counts as a miss, and the same character is asked for again.
- Above the current line it redraws up to three of the lines before it.
- At the end it adds up the misses and appends a dated row to a CSV log.
- Ctrl+C before the result is saved ends the program at once, and nothing is logged.

This project models that logic with the keyboard given as a finite sequence of keys.

Modules:

- `Text` (`text.dfy`):
  - whitespace as `str.isspace` defines it;
  - `lstrip()` and the split of a line into indent and stripped part;
  - `readlines()` followed by `rstrip('\n')`, which is what `load_text` does.
- `Keyboard` (`keyboard.dfy`): one `get_key` call on the keys still to come. The three results are no key left, Ctrl+C (`'\x03'`, which exits), or a key and the keys after it.
- `LineMatcher` (`line_matcher.dfy`):
  - the matcher state machine `Run`: a cursor `i` into the stripped part, plus a miss count;
  - the imperative `PlayLine`, with the loops of `play_line_realtime`;
  - a reference description of what a typed line is (`Typing`: the wrong tries before each character, then the character), with soundness and completeness lemmas;
  - the per-step display split.
- `TypingLog` (`typing_log.dfy`): the log as rows, and the `LogFile` class whose `SaveLog` appends the header if needed, then the data row.
- `Session` (`session.dfy`):
  - the context window;
  - the specification `PlayLines` of the line loop;
  - the imperative `PlayAll`, which keeps the running `total_misses`;
  - the whole-session function `Session`;
  - the imperative `RunSession` for `main`, which calls `SaveLog` only on a completed session.

Behaviour of the code worth noting:

- An existing but empty log file gets no header. The header is written only when the file does not exist (`typing_practice.py:93-98`).
- When the text is empty, `main` waits for one more key before it returns. That key changes nothing and is not modelled.
- A failure after the header has been written can leave a header with no data row.

## Model

| member | source | states |
|---|---|---|
| Text.LeadingSpace | typing_practice.py:105 | The number of characters `lstrip()` removes: every character before it is whitespace, and the one at it (if any) is not. |
| Text.SplitIndentParts | typing_practice.py:105-107 | indent + stripped part == line; the indent is all whitespace; the stripped part is empty or starts with non-whitespace. |
| Text.SplitIsUnique | typing_practice.py:105-107 | Those three facts determine the split: any indent and stripped part that satisfy them are the ones computed. |
| Text.ExtraIndentIgnored | typing_practice.py:105-107 | Extra leading whitespace adds exactly its length to the indent and leaves the stripped part unchanged. |
| Text.BlankLineStripsToEmpty | typing_practice.py:105-107 | An all-whitespace line is all indent, with an empty stripped part. |
| Text.FirstPieceLength | typing_practice.py:81 | The first `readlines` piece is non-empty, has a newline only as its last character, and ends with a newline unless it is the whole rest of the text. |
| Text.ReadLines | typing_practice.py:81 | The pieces concatenate back to the text; each piece is non-empty, has no inner newline, and ends with a newline unless it is the last piece. |
| Text.RStripNewlines | typing_practice.py:81 | `rstrip('\n')` gives a prefix of the piece; only newlines were removed; the result does not end with a newline. |
| Text.LoadText | typing_practice.py:78-85 | A missing file loads as no lines; a found file loads as one line per `readlines` piece; no loaded line contains a newline. |
| Text.LoadsNothingIffEmpty | typing_practice.py:78-85 | The text loads as no lines exactly when the file is missing or empty. |
| Text.ReadLinesOfUnlines | typing_practice.py:81 | A file written as newline-terminated lines is read back as exactly those lines, each with its newline. |
| Text.LoadTextOfUnlines | typing_practice.py:78-81 | Round trip: loading a file saved as newline-terminated lines gives back the lines. |
| Text.UnlinesOfLoadText | typing_practice.py:78-81 | Converse round trip for every file: the loaded lines, each followed by a newline, give back the file's text exactly, with a final newline added if the text had none. So every line holds exactly the text between two newlines, in order. |
| Keyboard.ReadKey | typing_practice.py:51-74 | No key is left exactly when the keys are empty; Ctrl+C exactly when the next key is `'\x03'`; otherwise the next key is returned, it is not Ctrl+C, and the rest follows it. |
| LineMatcher.RunConsumes | typing_practice.py:114-144 | A finished line consumed a prefix of the keys: one key per remaining character plus one per miss, and misses never decrease. An abort implies a Ctrl+C among the keys; running out implies there was none. |
| LineMatcher.PlayLine | typing_practice.py:104-144 | The index loop with its retry loop computes exactly the matcher on the stripped part. When done: keys consumed == characters of the stripped part + misses. |
| LineMatcher.RunSkipsMisfires | typing_practice.py:136-139 | Wrong keys that are neither the awaited character nor Ctrl+C are each counted as a miss and the cursor stays put. |
| LineMatcher.RunAccepts | typing_practice.py:114-144 | Completeness: the target typed in full, with any wrong tries before each character, is accepted. The misses are exactly the wrong tries, and the following keys are left untouched. |
| LineMatcher.RunExplained | typing_practice.py:114-144 | Soundness: whenever the matcher finishes, the keys it took are the target typed in full, in order and with nothing skipped, with wrong tries before each character. The misses equal those tries. |
| LineMatcher.PlayLineAccepts | typing_practice.py:104-144 | Completeness for a whole line: its stripped part typed with wrong tries finishes with misses == the number of wrong tries. |
| LineMatcher.PlayLineExplained | typing_practice.py:104-144 | Soundness for a whole line: a finished line consumed exactly its stripped part typed in order, plus the wrong tries counted as misses. |
| LineMatcher.IndentNeverTyped | typing_practice.py:105-114 | Extra leading whitespace changes neither the keys taken nor the misses counted. |
| LineMatcher.BlankLineTakesNoKeys | typing_practice.py:114-144 | An all-whitespace line consumes no key and counts 0 misses. |
| LineMatcher.DisplayRedrawsLine | typing_practice.py:116-128 | At step `i`: `completed` is the first `i` characters of the stripped part; completed + target + remain == stripped part; indent + that == line; the cursor offset is `len(indent) + i`, which is the target character's index in the line. |
| TypingLog.Decimal | typing_practice.py:99 | The miss-count cell is non-empty, all digits, with no leading zero except for 0 itself. |
| TypingLog.ParseDecimalInverts | typing_practice.py:99 | The miss-count cell reads back as the miss count. |
| TypingLog.DataRowIsNotHeader | typing_practice.py:97-99 | A data row is never equal to the header row. |
| TypingLog.SaveAppendsOneRow | typing_practice.py:93-99 | Saving keeps all previous rows as a prefix and adds exactly one data row; a new file becomes header + data row; the last row holds the given date, miss count and seconds. |
| TypingLog.LogFile.SaveLog | typing_practice.py:90-102 | If the file cannot be opened, nothing changes. Otherwise the file exists afterwards and its rows are the old rows (or the header, for a new file) followed by the data row. |
| Session.ContextWindow | typing_practice.py:170-172 | The lines shown above line `i` are the `min(i, 3)` lines just before it, in order, so the current line is never among them. |
| Session.PlayLinesConsumes | typing_practice.py:167-175 | A finished run has one miss count per line; it consumed a prefix of the keys equal to the typed characters (indents excluded) plus the sum of the misses. |
| Session.PlayLinesAvoidsCtrlC | typing_practice.py:167-175 | None of the keys a finished run consumed is Ctrl+C. |
| Session.PlayLinesStops | typing_practice.py:167-175 | A run aborts only if Ctrl+C is among the keys, and runs out of keys only if it is not. |
| Session.PlayLinesAppend | typing_practice.py:167-175 | Lines are played strictly in order: playing `front + back` is playing `front`, then `back` on the keys left over. |
| Session.PlayAll | typing_practice.py:164-177 | The line loop finishes exactly when the run of lines does. `total_misses` is then the sum of the per-line misses, with the same keys left. It aborts exactly when the run does. |
| Session.NoTextIffEmptyFile | typing_practice.py:150-154 | There is no session exactly when the text file is missing or empty. |
| Session.SessionAccounting | typing_practice.py:150-177 | A completed session used one start key, plus every non-indent character of the text, plus one key per miss; none of these keys was Ctrl+C. |
| Session.SessionStops | typing_practice.py:150-177 | A session ends by Ctrl+C only if Ctrl+C was pressed, and runs out of keys only if it never was. |
| Session.ExampleText | typing_practice.py:78-81 | The file "ab\n\nc\n" loads as the lines "ab", "" and "c". |
| Session.ExampleFirstLine | typing_practice.py:104-144 | Typing "ab" on the line "ab" finishes it with no miss. |
| Session.ExampleLastLine | typing_practice.py:104-144 | Typing "x" then "c" on the line "c" finishes it with one miss. |
| Session.ExampleLastTwoLines | typing_practice.py:167-175 | The empty line takes no key, and "c" then takes "xc" with one miss. |
| Session.ExampleLines | typing_practice.py:167-175 | The three lines on "abxc" finish with misses 0, 0, 1. |
| Session.ExampleSession | typing_practice.py:150-177 | The whole session on that file with keys start, a, b, x, c completes with a total of one miss. |
| Session.RunSession | typing_practice.py:146-188 | `main` ends as the `Session` function says. The log gets header-if-new plus one data row carrying the total exactly when the session completed and the file could be opened; otherwise the log is unchanged, including on Ctrl+C and on an empty text. |

## Left out

- Raw terminal mode and the actual key reads (`termios`, `tty`, `msvcrt`) are left out. The keys are given as a sequence. A Ctrl+C exits through `sys.exit`, which is modelled as an outcome of the session.
- Screen output is left out: `clear_screen`, ANSI colours, the red flash on a miss and its 0.1 s sleep, the three-space prefix of context lines, and the messages. The display split and the context window are modelled as values.
- The clock is left out. The log's date text and the formatted duration are parameters of `RunSession` and `SaveLog`, because they come from the real clock and from floating-point formatting.
- The key press after the result is saved (`typing_practice.py:187-188`) is not modelled, because it comes after the log row and changes nothing. The same applies to the extra key `main` waits for when the text is empty.
- The sample-file setup copy (`shutil.copy`) and the Windows self-relaunch are left out. They are process and file plumbing.
- CSV quoting and escaping, file encodings, and the reader's universal-newline translation are left out. A file's content is the text after newline translation, and the log is a sequence of rows of cells.
- TypingLog.LogFile.SaveLog: a failure to open the file is a boolean parameter. A failure after the header was written, which can leave a partial row, is not modelled.
- Read errors other than a missing file (for example invalid UTF-8) raise an exception in the source. They are not modelled.
- Display width is not modelled. The cursor offset counts characters, while the terminal moves by columns. On a line with a tab in the indent or a full-width character before the target, the source's cursor is therefore not on the target character.
- The `current_misses` parameter of `play_line_realtime` is unused, so it is not modelled.
