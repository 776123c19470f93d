# ansi-wrap in Dafny

A model of `ansi-wrap.py`, a filter that re-wraps text containing ANSI/VT100
control sequences so that ordinary characters break at a fixed width while escape
sequences are never split. The model follows the program's own structure:

- `Records` (records.dfy): the input is cut into records at every line feed, as
  `data.split('\n')` does, and joined back.
- `Scanner` (scanner.dfy): one record is cut into units. An ESC starts a token
  that runs through the first letter after it, or to the end of the record. A
  tab, a backspace and any other character are one unit each.
- `CursorCodes` (cursor.dfy): the cursor pattern
  `\x1b\[(\d+)?;?(\d+)?([HfABCDEFG])` written as an explicit parser (`Match`),
  and the column effect of a matched code (`Effect`, `Classify`, `Move`).
- `Tracker` (tracker.dfy): the column tracker and the wrap rule. The output is
  kept as the list of writes (`Emit`: an injected line feed, or a unit copied
  verbatim), so injected line feeds stay distinguishable from copied ones.
  `Render` turns the list into text; `Record` and `Rewrap` give the program's
  output for one record and for the whole input.
- `WrapProperties` (properties.dfy): properties of the output, namely chunking of
  plain records, content preservation, the line-feed count, escape atomicity,
  unterminated escapes, and re-wrapping.
- `Rewrapper` (rewrapper.dfy): the program's loops as methods that build the
  output string piece by piece. `WrapLine` and `RewrapText` are proved to produce
  exactly `Record` and `Rewrap`. The methods for the parts of one pass
  (`TokenEnd`, `CutToken`, `HandleEscape`, `HandleUnit`) are proved against the
  scanner's `FindAlpha` and `Lead` and the tracker's `Step`.
- `WrapExamples` (examples.dfy): concrete inputs with their outputs.

The model fixes some details the code decides:

- The column can become -1. A digit group of `0` counts as present, so `ESC[0G`
  and `ESC[r;0H` set the column to -1. The invariant is therefore `col >= -1`.
- After an ordinary character the column is in [0, width], not [1, width]. It is
  0 exactly when the character was written at column -1, so after `ESC[0G` a
  record fits width + 1 ordinary characters on its first line
  (`WrapExamples.ZeroColumnExample`). The bound [1, width] holds when no
  zero-column code comes earlier in the record
  (`Tracker.ColumnAfterOrdinaryNoZero`).
- Re-wrapping is not byte-for-byte idempotent. Every pass ends the last record
  with a line feed, so the output's final empty record gains one more. For plain
  text, re-wrapping the output gives the output plus one line feed
  (`WrapProperties.RewrapPlainTwice`).
- When an ESC has no letter after it, Python sets `i = j + 1`, one past the end
  of the record. The method sets `i` to the record's length, which leaves the
  loop in the same way.
- Python's `//` floors. Dafny's `/` is Euclidean. The two agree for the positive
  divisor 8 of the tab rule, including at column -1.
- `re.match` tries alternatives by backtracking and returns the first that
  succeeds. Other splits of the digits can match as well: `ESC[12H` also reads
  as the groups `1` and `2`, which would set the column to 1. The engine tries
  the greedy reading first: the first group takes every digit, then the `;` if
  present, then the second group every digit. `Match` is that reading. It
  succeeds whenever any split does, and consumes the same characters
  (`CursorCodes.MatchGreedy`), so it is the match returned. For `ESC[12H` the
  column is unchanged (`WrapExamples.TwelveH`).

## Model

| member | source | states |
|---|---|---|
| Records.Split | ansi-wrap.py:9 | there is always at least one record, even for empty input; `SplitCount`, `SplitLineFree`, `JoinSplit` and `SplitJoin` pin the rest down: one more record than line feeds, none containing a line feed, joining gives the input back, and splitting undoes joining |
| Records.SplitCount | ansi-wrap.py:9 | splitting gives exactly one more record than the text has line feeds |
| Records.SplitLineFree | ansi-wrap.py:9 | no record contains a line feed |
| Records.JoinSplit | ansi-wrap.py:9 | joining the records with line feeds gives back the input text |
| Records.SplitJoin | ansi-wrap.py:9 | splitting a join of line-feed-free records gives back those records |
| Records.JoinAppend | ansi-wrap.py:9 | joining two non-empty record lists back to back puts one line feed between their joins |
| Scanner.FindAlpha | ansi-wrap.py:18-21 | the result is the first letter position at or after the start, or the record length when there is none |
| Scanner.Lead | ansi-wrap.py:16-24 | the unit at the head of the record is a non-empty prefix of it |
| Scanner.Scan | ansi-wrap.py:14-68 | a record scans to no units exactly when it is empty, and to at most one unit per character; `ScanValid`, `FlattenScan` and `ScanFlatten` pin the rest down: the units are valid, their text is the record, and scanning is the inverse of flattening |
| Scanner.EscapeTokenExtent | ansi-wrap.py:16-24 | a token at an ESC has no letter before its last character; it either ends with a letter or is the whole rest of the record |
| Scanner.ScanValid | ansi-wrap.py:14-24 | every unit is well formed, and only the last unit can be a token cut off by the end of the record |
| Scanner.FlattenScan | ansi-wrap.py:14-68 | concatenating the units' text gives back the record: scanning loses and reorders nothing |
| Scanner.ScanFlatten | ansi-wrap.py:14-68 | every valid unit list is what scanning its own text produces |
| Scanner.ScanAppend | ansi-wrap.py:14-68 | a record that does not end inside a token scans as the units of its two pieces |
| Scanner.UnterminatedToken | ansi-wrap.py:20-24 | an ESC with no later letter becomes one unterminated token holding the whole rest of the record |
| CursorCodes.Value | ansi-wrap.py:31-32 | a digit group reads as 0 exactly when every digit is `0`, so `0` and `00` both give 0 |
| CursorCodes.Param | ansi-wrap.py:31-32 | a parameter is 0 exactly when its group is present and all zeros; an absent group reads as 1 (`CursorForward`, `CursorColumn`) |
| CursorCodes.Match | ansi-wrap.py:29 | every match yields digit-only groups and a command among H f A B C D E F G; without `;` the second group is empty |
| CursorCodes.MatchGreedy | ansi-wrap.py:29 | whenever some split of the digits and `;` spells the front of a token, the greedy reading matches, consumes the same characters, and is the code whose first group takes every digit when there is no `;` |
| CursorCodes.MatchPrefix | ansi-wrap.py:29 | a match spells out a prefix of the token |
| CursorCodes.MatchPrint | ansi-wrap.py:29 | the pattern matches a written code whatever follows it, and yields exactly that code |
| CursorCodes.MatchCoversToken | ansi-wrap.py:24-29 | on a token as the scanner cuts it, a match covers the whole token |
| CursorCodes.Effect | ansi-wrap.py:31-43 | no code takes a column of -1 or more below -1 |
| CursorCodes.Classify | ansi-wrap.py:29-43 | trying the pattern on a token never takes a column of -1 or more below -1; `MatchPrint` and `UnmatchedTokens` show that a written code gets its effect and a token the pattern does not match leaves the column alone |
| CursorCodes.Move | ansi-wrap.py:27-43 | an escape token never takes a column of -1 or more below -1; `MoveOfPrint`, `CursorForward`, `CursorBackward`, `CursorColumn`, `CursorPosition`, `RowMovesKeepColumn` and `UnmatchedTokens` give its value for each kind of token |
| CursorCodes.CursorForward | ansi-wrap.py:31-36 | `ESC[nC` adds n to the column, and 1 when n is absent |
| CursorCodes.CursorBackward | ansi-wrap.py:37-38 | `ESC[nD` moves the column left by n but never below 0 |
| CursorCodes.CursorColumn | ansi-wrap.py:39-40 | `ESC[nG` sets the column to n - 1 whatever it was |
| CursorCodes.CursorPosition | ansi-wrap.py:41-43 | `ESC[r;cH` and `ESC[r;cf` set the column to c - 1; without the column group the column is unchanged |
| CursorCodes.RowMovesKeepColumn | ansi-wrap.py:29-43 | A, B, E and F codes leave the column unchanged |
| CursorCodes.UnmatchedTokens | ansi-wrap.py:27-30 | `ESC[?25h`, `ESC[1;2;3H`, `ESC M` and the unterminated `ESC[12` leave the column unchanged |
| Tracker.TabStop | ansi-wrap.py:52 | the next tab stop is a multiple of 8 strictly right of the column and at most 8 columns on |
| Tracker.TabStopLeast | ansi-wrap.py:52 | the tab stop is the least multiple of 8 strictly right of the column |
| Tracker.ControlColumns | ansi-wrap.py:50-60 | a tab goes to the next multiple of 8 (from -1 to 0); a backspace goes one left but not below 0; neither has a break before it |
| Tracker.Step | ansi-wrap.py:15-68 | a unit is written once, preceded by a break exactly when it is ordinary and the column is at or past the width; the column stays at or above -1 |
| Tracker.Run | ansi-wrap.py:12-68 | starting from a column at or above -1, the column never goes below -1 |
| Tracker.Record | ansi-wrap.py:12-69 | a record's output always ends with a line feed; `BodyText`, `PlainRecordChunks`, `UnterminatedTail` and `EscapeTokenIntact` say what comes before it |
| Tracker.WrapAllEnds | ansi-wrap.py:11-69 | the output for a non-empty list of records has at least one character per record and ends with a line feed |
| Tracker.Rewrap | ansi-wrap.py:9-69 | the program's output is never empty and always ends with a line feed, even for empty input; `RewrapKeepsText`, `RewrapLineCount` and `WrapAllPlain` say what it holds |
| Tracker.RunAppend | ansi-wrap.py:14-68 | running two unit lists back to back is running their concatenation |
| Tracker.RunKeepsUnits | ansi-wrap.py:46-66 | with the injected breaks dropped, the writes are the units, in order |
| Tracker.RunBreaksBeforeOrdinary | ansi-wrap.py:63-66 | every injected break is immediately followed by an ordinary character |
| Tracker.RenderText | ansi-wrap.py:46-66 | the written text without line feeds is the units' text without line feeds; it has one more line feed per injected break |
| Tracker.OrdinaryColumn | ansi-wrap.py:63-67 | after an ordinary character the column is in [0, width], and 0 exactly when it was -1 before |
| Tracker.ColumnAfterOrdinary | ansi-wrap.py:63-67 | the same for every ordinary unit along a record |
| Tracker.MinusOneOnlyFromZeroCodes | ansi-wrap.py:31-67 | a unit sets the column to -1 only if it was -1 already or the unit is `ESC[0G` or `ESC[r;0H`/`f`, and such a code always does |
| Tracker.NoZeroCodesNoNegative | ansi-wrap.py:12-67 | a record with no zero-column code never sees a negative column |
| Tracker.ColumnAfterOrdinaryNoZero | ansi-wrap.py:63-67 | with no zero-column code earlier in the record, the column after an ordinary character is in [1, width] |
| WrapProperties.Chunks | ansi-wrap.py:61-68 | a text cuts into at least one piece, each at most the width long |
| WrapProperties.ScanPlain | ansi-wrap.py:61-68 | text without ESC, tab or backspace scans as one ordinary unit per character |
| WrapProperties.RunFits | ansi-wrap.py:61-68 | plain text that fits before the width is copied and moves the column by its length |
| WrapProperties.AtWidth | ansi-wrap.py:63-65 | plain text met at or past the width starts with a break and then goes on as from column 0 |
| WrapProperties.PlainRun | ansi-wrap.py:61-68 | plain text from column 0 comes out as its width-long chunks joined by line feeds |
| WrapProperties.PlainRecordChunks | ansi-wrap.py:61-69 | a plain record is written as its width-long chunks joined by line feeds, then the record's line feed |
| WrapProperties.PlainLinesFit | ansi-wrap.py:61-69 | no physical line written for a plain record is longer than the width |
| WrapProperties.BodyText | ansi-wrap.py:14-68 | a record's output without line feeds is the record without line feeds; it has one extra line feed per injected break |
| WrapProperties.WrapAllText | ansi-wrap.py:11-69 | the same over a list of records, with one more line feed per record |
| WrapProperties.RewrapKeepsText | ansi-wrap.py:9-69 | deleting every line feed from the output gives the input with every line feed deleted |
| WrapProperties.RewrapLineCount | ansi-wrap.py:9-69 | the output has the input's line feeds, plus one, plus one per injected break; so at least one per record |
| WrapProperties.RunAround | ansi-wrap.py:14-68 | the writes for a record are the writes before a unit, that unit's writes, and the writes after it |
| WrapProperties.EscapeTokenIntact | ansi-wrap.py:16-64 | every escape token appears in the output as one contiguous, unmodified piece; around it is the text before and after it |
| WrapProperties.UnterminatedTail | ansi-wrap.py:20-69 | an ESC with no later letter makes the rest of the record come out verbatim with no column change, then the record's line feed |
| WrapProperties.WrapAllPlain | ansi-wrap.py:9-69 | plain records come out as the join of all their chunks plus a final line feed |
| WrapProperties.AllChunksShape | ansi-wrap.py:61-68 | the chunks of line-feed-free plain records are line-feed-free, plain and at most the width long |
| WrapProperties.AllChunksFit | ansi-wrap.py:61-68 | records that already fit the width are their own chunks |
| WrapProperties.RewrapPlainTwice | ansi-wrap.py:9-69 | re-wrapping plain output at the same width gives that output plus one line feed |
| WrapProperties.RecordsPlain | ansi-wrap.py:9 | the records of plain text are plain |
| Rewrapper.TokenEnd | ansi-wrap.py:18-21 | the loop stops at the first letter after the ESC, or at the end of the record |
| Rewrapper.CutToken | ansi-wrap.py:16-24 | `line[i:j+1]` is the scanner's unit at the ESC, ended by a letter exactly when `j` is inside the record |
| Rewrapper.HandleEscape | ansi-wrap.py:16-47 | the token is written whole, and the column moves only when a letter ended the token |
| Rewrapper.HandleUnit | ansi-wrap.py:15-68 | one pass writes what the tracker writes for the unit at `i`, moves the column as the tracker does, and goes on right after that unit |
| Rewrapper.Advance | ansi-wrap.py:14-68 | after one pass, the record's remaining output is what that pass wrote followed by the output from the next unit |
| Rewrapper.WrapLine | ansi-wrap.py:11-69 | the loop over one record writes exactly the record's output, ending with its line feed |
| Rewrapper.RewrapText | ansi-wrap.py:9-69 | the whole program writes the output of every record in turn |
| WrapExamples.EightLetters | ansi-wrap.py:61-69 | "abcdefgh" at width 5 gives "abcde\nfgh\n" |
| WrapExamples.ExactWidth | ansi-wrap.py:61-69 | "abcde" at width 5 gives "abcde\n": no break after a character that reaches the width |
| WrapExamples.EmptyRecord | ansi-wrap.py:69 | an empty record gives a single line feed |
| WrapExamples.TabPastWidth | ansi-wrap.py:50-66 | a tab that reaches the width stays on its line, and the next ordinary character starts a new line |
| WrapExamples.TabExample | ansi-wrap.py:50-69 | "ab", a tab, "cd" at width 5 gives "ab", the tab, a line feed, then "cd" and the record's line feed |
| WrapExamples.CodeThenPlain | ansi-wrap.py:29-69 | a cursor code then plain text that fits after the code's column is copied with no break |
| WrapExamples.ForwardExample | ansi-wrap.py:35-69 | `ESC[2C` then "ab" at width 5 is copied unchanged |
| WrapExamples.TwelveH | ansi-wrap.py:29-43 | `ESC[12H` can also be read with the column group `2`, but the match is the greedy one with no column group, so the column is unchanged |
| WrapExamples.ZeroColumnExample | ansi-wrap.py:31-69 | after `ESC[0G` six letters fit on one line of width 5 |

## Left out

- Reading the width from `sys.argv[1]` with `int()`, and its failure modes (line 5): the width is a parameter. It is not validated; the bounds that need it require `width >= 1`.
- `sys.stdin.read()` and `sys.stdout.write` (lines 6, 46, 53, 58, 64, 66): the input is a parameter and the output is a returned string, built in the order of the writes.
- Python's Unicode `str.isalpha`, the regex `\d` and `int()` over non-ASCII digits (lines 20, 29, 31-32): letters are the ASCII letters and digits are the ASCII digits.
- CursorCodes.Value: reads a digit group of any length as an unbounded number. Python's `int()` on lines 31-32 raises an uncaught ValueError for a digit string longer than the interpreter's limit (`sys.get_int_max_str_digits()`, 4300 by default on Python 3.11 and later and on the security releases of 3.7 to 3.10). Both groups are converted for every match, so `ESC[` with 5000 digits and `C`, or `ESC[;` with 5000 digits and `A`, ends the program there: the rest of that record and every later record are never written. The model carries on as if the interpreter had no limit, because the limit depends on the interpreter version and its settings.
- The `re` engine (line 29): replaced by the explicit parser `CursorCodes.Match` of the same pattern.
- The escape test `line[i] == '\033' or line[i] == '\x1b'` (line 16): both literals are the same character, ESC.
- WrapProperties.PlainLinesFit: states the width bound only for records without ESC, tab or backspace. With cursor codes the program's column need not match the physical line length.
