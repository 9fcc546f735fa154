# log4j to slf4j rewriting scanner, in Dafny

This project models the core of `log4jtoslf4j.py`, a one-pass scanner that
rewrites Java source from log4j to slf4j. The scanner walks the text one
position at a time and tries three recognizers at each position, in a fixed
order:

- a log call `logger . info (...)`. Its argument list is rewritten from string
  concatenation (`"a" + x + "b"`) to the placeholder form (`("a{}b", x)`);
- a log4j import, which becomes the two slf4j imports the first time and
  nothing after that;
- `Logger.getLogger`, which becomes `LoggerFactory.getLogger`.

Any other character is copied as it is.

The model has the same layering as the script:

- `TextOps`: the Python string built-ins the script relies on (`isspace`,
  `isalnum`, `lower`, `strip`, `find`, `split`, slicing), written out as
  functions over ASCII characters. Lemmas state what `lower`, `strip`,
  `find` and `split` compute.
- `Scanner`: what the cursor primitives and the three recognizers compute,
  as functions of the text and a start offset. The two regular expressions
  become a small pattern datatype and a matcher.
- `ArgConversion`: `is_balanced` and the argument rewriting of
  `convert_log_args`, as functions. The two loops are methods proved against
  those functions.
- `Rewrite`: one iteration of `convert`'s loop (`StepAt`) and the run to the
  end of the text (`Run`), with lemmas about the import flag, about text no
  recognizer fires on, and about each branch.
- `Log4jToSlf4j`: a class `Converter` whose fields are the script's module
  globals:
  - `content`, the text;
  - `offset`, the cursor;
  - `logger_name` and `log_level`;
  - `slf4j_imports_added`, the import flag.

  Its methods change those fields step by step as the script does. Each is
  proved against the `Scanner`, `ArgConversion` or `Rewrite` function that
  says what it computes.
- `TestVectors`: concrete inputs, among them the argument lists of lines 5
  and 35 of `ExampleInput.java`, and the corner cases listed below.

Behaviour modelled as the code has it, some of it evidently not what the
authors meant:

- The level is compared case-sensitively: `logger.Info(x)` is not a log call.
  The logger name is compared case-insensitively and is emitted lower-cased.
- `looking_at_log_stmt` clears the logger name on entry but not the level.
  The assignment meant to clear the level writes to a misspelled local
  variable. After a failed probe the level keeps its earlier value
  (`LookingAtLogStmt`, `StepAt`).
- The import flag is never reset. A second `Convert` on the same object emits
  no import block (`Convert`, `ImportBlockEmittedOnce`).
- Converting twice is not always the same as converting once. Arguments made
  only of string literals become `("ab", )`. Converted again, that gives
  `("ab",)` (`LiteralsOnlyNotIdempotent`). `ConversionIdempotent` and
  `NotReconvertibleChanges` together state exactly which inputs do
  round-trip: those whose output is not a rewrite with an empty argument
  list or one ending in whitespace.
- An argument list whose `(` is never closed loses its last character
  (`UnclosedParenDropsLastChar`).
- A log call at the very end of the text, or one not followed by `(`, raises
  an error. That ends the conversion (`LogCallAtEndRaises`,
  `LogCallWithoutArgsRaises`).

## Model

| member | source | states |
|---|---|---|
| TextOps.LowerHasNoUpper | log4jtoslf4j.py:195-196 | a lower-cased name holds no upper-case letter |
| TextOps.LowerIdempotent | log4jtoslf4j.py:195-196 | lower-casing twice is lower-casing once |
| TextOps.LowerMatchesIgnoringCase | log4jtoslf4j.py:195-196 | two names lower-case to the same text exactly when they differ only in ASCII case, so `LOG`, `Log` and `log` are one name |
| TextOps.SpaceIsWhitespace | log4jtoslf4j.py:151 | the character test of `isspace()` holds for exactly the characters that `strip()` removes |
| TextOps.Find | log4jtoslf4j.py:318 | `find(c, from)` returns an index at or after `from` that holds `c` |
| TextOps.FindSound | log4jtoslf4j.py:318 | no `c` lies between `from` and the index `find` returns; when it returns nothing, no `c` lies at or after `from` |
| TextOps.FindFirst | log4jtoslf4j.py:318 | the converse: the first `c` at or after `from` is what `find` returns |
| TextOps.StripTrims | log4jtoslf4j.py:285 | `strip()` returns the slice of its input between a prefix and a suffix of whitespace, and the slice neither starts nor ends with whitespace |
| TextOps.StripLeftSpec | log4jtoslf4j.py:286 | stripping the left end removes a prefix of stripped characters and stops at the first other one |
| TextOps.StripRightSpec | log4jtoslf4j.py:286 | stripping the right end removes a suffix of stripped characters and stops at the last other one |
| TextOps.StripCharsInfix | log4jtoslf4j.py:286 | `strip` returns a contiguous slice of its input |
| TextOps.StripCharsKeepsAbsent | log4jtoslf4j.py:297-302 | `strip` introduces no character that was not in its input |
| TextOps.StripCharsNoop | log4jtoslf4j.py:286 | `strip` is the identity on text whose two ends are not stripped characters |
| TextOps.StripCharsIdempotent | log4jtoslf4j.py:286 | stripping twice is stripping once |
| TextOps.Split | log4jtoslf4j.py:287 | `split(sep)` returns at least one piece, and no piece contains `sep` |
| TextOps.SplitJoin | log4jtoslf4j.py:287 | joining the pieces of `split(sep)` with `sep` gives the input back |
| TextOps.SplitSingle | log4jtoslf4j.py:287-291 | `split` yields a single piece exactly when `sep` does not occur |
| TextOps.CountAppend | log4jtoslf4j.py:266-275 | the count of bracket or quote characters in a concatenation is the sum of the two counts |
| Scanner.SpaceEnd | log4jtoslf4j.py:139-153 | `skip_white_spaces` leaves the cursor at or after where it was, within the text |
| Scanner.SpaceEndSound | log4jtoslf4j.py:151 | the cursor passes only whitespace, and stops at the end of the text or at a character that is not whitespace |
| Scanner.SpaceEndAt | log4jtoslf4j.py:151 | the converse: a run of whitespace followed by the end or by a non-space is exactly what is skipped |
| Scanner.WordEnd | log4jtoslf4j.py:170-171 | the word run lies within the text, starting at the cursor |
| Scanner.WordEndSound | log4jtoslf4j.py:170-171 | the word run holds only alphanumerics and underscores, and stops at the end or at any other character |
| Scanner.WordEndAt | log4jtoslf4j.py:170-171 | the converse: a maximal run of word characters is exactly what is taken |
| Scanner.NextToken | log4jtoslf4j.py:155-176 | `capture_next_token`: no token exactly at the end; otherwise the token is the text from the cursor to the new cursor; `.` and `+` are one-character tokens; any other token is a maximal, possibly empty, run of word characters |
| Scanner.TokenUnstripped | log4jtoslf4j.py:195-219 | a captured token has no whitespace at its ends, so the script's `strip()` on it changes nothing |
| Scanner.LogStmtAt | log4jtoslf4j.py:178-231 | a recognized log statement ends after its start and within the text |
| Scanner.LogStmtSound | log4jtoslf4j.py:178-231 | a recognized call has a name that lower-cases to `logger` or `log`, a level from the six levels compared exactly, and no word character right after the level |
| Scanner.LogStmtDotSound | log4jtoslf4j.py:199-215 | between the name and the level lie exactly one `.` and only whitespace around it |
| Scanner.LogStmtRecognized | log4jtoslf4j.py:178-231 | the converse: a logger name in any case, whitespace, a dot, whitespace and an exact level not followed by a word character are recognized, with the name lower-cased |
| Scanner.LevelIsWord | log4jtoslf4j.py:225 | every level is made of word characters |
| Scanner.CloseParenEnd | log4jtoslf4j.py:253-259 | the paren loop moves the cursor forward by at least one character, and no further than the end of the text |
| Scanner.CloseParenEndFrom | log4jtoslf4j.py:253-259 | when entered with the counter positive since the `(`, the loop stops where the counter returns to zero on a `)`, or at the end with the counter still positive |
| Scanner.MatchingParen | log4jtoslf4j.py:246-259 | `move_to_matching_paren` succeeds only on a `(` and then moves the cursor past it, within the text; it fails only at the end or off a `(`, and the error names the cursor |
| Scanner.MatchingParenOutcome | log4jtoslf4j.py:246-259 | `move_to_matching_paren` raises exactly when the cursor is at the end or not on `(`; otherwise it stops one past the `)` that closes the `(`, or at the end of the text when none does |
| Scanner.PieceEnd | log4jtoslf4j.py:66-69 | one piece of a regular expression matches a stretch of the text from the start position, within the text |
| Scanner.MatchEnd | log4jtoslf4j.py:66-69 | an anchored match of a whole pattern ends within the text, at or after where it started |
| Scanner.MatchEndLength | log4jtoslf4j.py:66-69 | a match is at least as long as the fewest characters the pattern needs |
| Scanner.MatchEndHasText | log4jtoslf4j.py:66-69 | every literal piece of a matching pattern occurs in the matched text |
| Scanner.MatchEndTrailingSpace | log4jtoslf4j.py:69 | a pattern ending in `\s*` leaves no whitespace right after its match |
| Scanner.ImportMatchShape | log4jtoslf4j.py:66 | the import pattern matches the start of the text up to `e` exactly when the text is `import`, at least one whitespace, `org`, `.`, `apache`, `.`, `log4j`, `.` with only whitespace between the words and dots, then at least one character and the first `;` after them at `e - 1` |
| Scanner.ShapeMatchesImport | log4jtoslf4j.py:66 | text with that import layout matches the pattern up to just past its `;` |
| Scanner.ImportStmtAt | log4jtoslf4j.py:312-328 | a recognized import ends after where it starts and within the text |
| Scanner.ImportStmtSound | log4jtoslf4j.py:312-328 | a recognized import starts with `import`, ends with the first `;` after it, and that text matches the import pattern |
| Scanner.ImportStmtFails | log4jtoslf4j.py:312-328 | the import is not recognized exactly when `import` is not at the cursor, no `;` follows, or the text up to the first `;` does not match |
| Scanner.GetLoggerPrefixShape | log4jtoslf4j.py:69 | the getLogger pattern matches the start of the text up to `n` exactly when the text is `Logger`, whitespace, `.`, whitespace, `getLogger` and whitespace up to `n`, with no whitespace at `n` |
| Scanner.ShapeMatchesGetLogger | log4jtoslf4j.py:69 | text with that getLogger layout matches the pattern up to the end of its trailing whitespace |
| Scanner.GetLoggerPrefixSound | log4jtoslf4j.py:69 | a getLogger match starts with `Logger`, is at least as long as `Logger.getLogger`, and takes the whitespace after it |
| Scanner.GetLoggerAt | log4jtoslf4j.py:340-354 | a recognized `Logger.getLogger` moves the cursor forward, within the text |
| Scanner.GetLoggerSound | log4jtoslf4j.py:340-354 | a recognized `Logger.getLogger` starts with `Logger` at the cursor and ends at or before the next `(`; without a later `(` nothing is recognized |
| ArgConversion.IsBalanced | log4jtoslf4j.py:261-277 | `is_balanced` is true exactly when there are as many opening as closing brackets and an even number of double quotes |
| ArgConversion.BalancedIgnoresOrder | log4jtoslf4j.py:266-277 | brackets are counted, not matched: swapping two pieces of text keeps the verdict |
| ArgConversion.BalancedIgnoresBackslash | log4jtoslf4j.py:262-273 | the escape flag is never set, so inserting a backslash anywhere keeps the verdict |
| ArgConversion.ConvertedArgsParenthesized | log4jtoslf4j.py:279-310 | the rewritten argument list is one pair of parentheses around either the stripped text as it was or a rewrite with no `+` left in it |
| ArgConversion.RewriteArgs | log4jtoslf4j.py:285-310 | the loop of `convert_log_args` returns `ConvertedArgs` of the argument text |
| ArgConversion.RewriteStep | log4jtoslf4j.py:296-308 | one more part adds its fragment to the format string and, when it is not a literal, itself to the argument list |
| ArgConversion.PlaceholderStyleKept | log4jtoslf4j.py:287-291 | argument text without `+` is returned stripped, in parentheses |
| ArgConversion.UnbalancedPartKept | log4jtoslf4j.py:296-300 | a single unbalanced part abandons the conversion, and the stripped text is returned in parentheses |
| ArgConversion.ArgsAreExpressionsInOrder | log4jtoslf4j.py:296-308 | when no part is empty, the argument list is the non-literal parts, stripped, in their original order, separated by `, ` |
| ArgConversion.NoPlusInRewrite | log4jtoslf4j.py:296-310 | no `+` survives into the format string or the argument list |
| ArgConversion.ConversionIdempotent | log4jtoslf4j.py:279-310 | converting the text between the parentheses of a converted call again gives the same call, unless the argument list came out empty or ending in whitespace |
| ArgConversion.NotReconvertibleChanges | log4jtoslf4j.py:279-310 | the converse: when the argument list came out empty or ending in whitespace, converting again changes the call |
| ArgConversion.TrailingSpaceStripped | log4jtoslf4j.py:285-291 | argument text without `+` that ends in whitespace is not its own conversion |
| ArgConversion.LogArgsAt | log4jtoslf4j.py:279-284 | `convert_log_args` either moves the cursor forward within the text, or raises at the first non-space character when that is not `(` or is the end |
| Rewrite.StepAt | log4jtoslf4j.py:365-386 | every iteration that does not raise moves the index forward, within the text |
| Rewrite.NonLogStepAt | log4jtoslf4j.py:377-386 | once the log call is ruled out, the iteration never raises and moves the index forward |
| Rewrite.StepIgnoresOffset | log4jtoslf4j.py:367 | each iteration first sets the cursor to the index, so the cursor's old value does not matter |
| Rewrite.Run | log4jtoslf4j.py:363-386 | the loop only appends to what it has emitted, and never clears the import flag |
| Rewrite.UnrecognizedTextCopied | log4jtoslf4j.py:363-386 | text on which no recognizer fires comes out unchanged, and the level and the flag are left as they were |
| Rewrite.RecognizersNeedDot | log4jtoslf4j.py:178-231 | every recognizer needs a `.` at or after its start |
| Rewrite.DotFreeTextUnchanged | log4jtoslf4j.py:357-386 | text without any `.` is converted to itself |
| Rewrite.StepImportFlag | log4jtoslf4j.py:330-338 | an iteration sets the flag exactly when it recognizes an import, and emits the block there exactly when the flag was clear |
| Rewrite.ImportBlockEmittedOnce | log4jtoslf4j.py:363-386 | the slf4j block is emitted at most once per run: once when the flag starts clear and some import is recognized, never when the flag was already set; at the end the flag is set exactly when it was set before or an import was recognized |
| Log4jToSlf4j.Converter.constructor | log4jtoslf4j.py:78-83 | the globals at load time: no text, cursor at 0, nothing captured, flag clear |
| Log4jToSlf4j.Converter.IsEof | log4jtoslf4j.py:135-137 | within the text, `is_eof` holds exactly when no token is left to capture |
| Log4jToSlf4j.Converter.SkipWhiteSpaces | log4jtoslf4j.py:139-153 | the cursor moves to `SpaceEnd` of where it was |
| Log4jToSlf4j.Converter.CaptureNextToken | log4jtoslf4j.py:155-176 | returns `NextToken`'s text and moves the cursor past it, or returns nothing at the end of the text |
| Log4jToSlf4j.Converter.LookingAtLogStmt | log4jtoslf4j.py:178-231 | on a `LogStmtAt` match, the cursor is past the level and the name and level are captured; otherwise the cursor is restored, the name is cleared and the level keeps its old value |
| Log4jToSlf4j.Converter.MoveToMatchingParen | log4jtoslf4j.py:246-259 | returns what `MatchingParen` raises, or moves the cursor to where it stops |
| Log4jToSlf4j.Converter.ConvertLogArgs | log4jtoslf4j.py:279-310 | returns `LogArgsAt`'s rewritten text and cursor, or what it raised with the cursor at the failing position |
| Log4jToSlf4j.Converter.LookingAtImportStmt | log4jtoslf4j.py:312-328 | returns whether `ImportStmtAt` matches, and moves the cursor past the `;` only then |
| Log4jToSlf4j.Converter.GetSlf4jImportsOnce | log4jtoslf4j.py:330-338 | the block when the flag was clear and nothing when it was set; afterwards the flag is set |
| Log4jToSlf4j.Converter.LookingAtGetLoggerStmt | log4jtoslf4j.py:340-354 | returns whether `GetLoggerAt` matches, and moves the cursor past the match only then |
| Log4jToSlf4j.Converter.ConvertStep | log4jtoslf4j.py:366-386 | one loop iteration emits what `StepAt` emits and leaves the globals as `StepAt` does, or reports what it raised |
| Log4jToSlf4j.Converter.ConvertNonLogStep | log4jtoslf4j.py:377-386 | the import, getLogger and copy branches agree with `NonLogStepAt` |
| Log4jToSlf4j.Converter.Convert | log4jtoslf4j.py:357-386 | `convert` returns `Run`'s output or the error raised, and leaves the globals as `Run` does, starting from the flag as an earlier call left it |
| TestVectors.LogStmtAnyCaseName | log4jtoslf4j.py:195-196 | `LOG . info(x)` is a log call with the name `log` |
| TestVectors.InfoTokens | log4jtoslf4j.py:155-176 | `logger.Info(x)` yields the tokens `logger`, `.` and `Info` |
| TestVectors.LogStmtLevelCaseSensitive | log4jtoslf4j.py:225 | `logger.Info(x)` is not a log call |
| TestVectors.LogStmtInsideIdentifier | log4jtoslf4j.py:365-369 | in `myLOG.info(x)` a log call is recognized from index 2 |
| TestVectors.ConcatenationConverted | log4jtoslf4j.py:279-310 | `"a" + b` becomes `("a{}", b)` |
| TestVectors.PlaceholderArgsKept | ExampleInput.java:5 | `"Hello {}", who` is kept as it is |
| TestVectors.NestedConcatenationKept | ExampleInput.java:35 | the argument list `"Hello " + greetWho("wo" + "r" + "ld")` is passed through as it is: the `+` inside the nested call cuts it into an unbalanced piece |
| TestVectors.LiteralsConverted | log4jtoslf4j.py:296-310 | `"a" + "b"` becomes `("ab", )` |
| TestVectors.CommaArgsKept | log4jtoslf4j.py:287-291 | `"ab", ` is kept and stripped to `("ab",)` |
| TestVectors.LiteralsOnlyNotIdempotent | log4jtoslf4j.py:279-310 | converting `"a" + "b"` twice gives `("ab",)`, not `("ab", )` |
| TestVectors.LogCallAtEndRaises | log4jtoslf4j.py:246-248 | `log.info` at the end of the text raises an index error at offset 8 |
| TestVectors.LogCallWithoutArgsRaises | log4jtoslf4j.py:248-250 | `log.info;` raises the open-parenthesis error naming `;` |
| TestVectors.UnclosedArgs | log4jtoslf4j.py:284 | in `log.info(ab`, the argument text is `a` and the cursor ends at 11 |
| TestVectors.UnclosedParenDropsLastChar | log4jtoslf4j.py:284 | `log.info(ab` is converted to `log.info(a)` |
| TestVectors.Log4jImportRecognized | log4jtoslf4j.py:312-328 | `import org.apache.log4j.A;` is recognized up to and including its `;` |
| TestVectors.Log4jImportPattern | log4jtoslf4j.py:66 | the import pattern matches the start of `import org.apache.log4j.A;` |
| TestVectors.OtherImportIgnored | log4jtoslf4j.py:312-328 | `import java.util.List;` is not recognized |
| TestVectors.GetLoggerPrefixMatched | log4jtoslf4j.py:69 | the getLogger pattern matches `Logger.getLogger ` up to its end, trailing space included |
| TestVectors.GetLoggerRecognized | log4jtoslf4j.py:340-354 | in `Logger.getLogger (X.class)`, the match runs up to the `(` and includes the space before it |
| TestVectors.ImportLineNotLogCall | log4jtoslf4j.py:195-198 | a log4j import line is not a log call |
| TestVectors.ImportLineRecognized | log4jtoslf4j.py:312-328 | a log4j import line is recognized wherever it occurs |
| TestVectors.ImportLineStep | log4jtoslf4j.py:377-379 | at a log4j import line, an iteration emits the block if the flag is clear, and sets the flag |
| TestVectors.TwoImportsOneBlock | log4jtoslf4j.py:363-386 | two log4j imports in a row give the slf4j block once |

## Left out

- File input and output, backups, command-line parsing, logging setup, the debug log calls and `highlight_error` are left out. They only read or write files and logs. `Convert` takes the text as a parameter and returns the output.
- `main` is left out. It only loops over the files named on the command line.
- `clear_globals` is left out. Nothing calls it.
- `MAX_STMT_LEN` is left out. Nothing reads it.
- Only ASCII is modelled: `isspace`, `isalnum` and `lower` are modelled on ASCII characters. Python's Unicode tables are not modelled.
- Scanner.MatchEnd: the two regular expressions are modelled as fixed sequences of pieces (`text`, `\s*`, `\s+`, `.+?;`), not as a general regular-expression engine. The greedy `\s` pieces take the whole run of whitespace and the lazy `.+?;` takes the first `;` after at least one character. For the two patterns in the script this is what Python's engine returns: `ImportMatchShape` and `GetLoggerPrefixShape` state the matched text's layout in both directions. Backtracking into a `\s` run is not modelled in general.
- The methods require the cursor to be within the text (`offset <= |content|`). The script only calls them that way.
- The escape branch of `is_balanced` is not in `IsBalanced`. `escape_next` is never set, so the branch never runs. `BalancedIgnoresBackslash` states the consequence.
- Python's exceptions are modelled as a `ScanError` value, and the run stops there. The message text of the exception is not modelled.
