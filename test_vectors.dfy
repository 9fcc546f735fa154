/**
  Concrete inputs and what the model does with them: argument lists in the
  style of ExampleInput.java, and the edge cases of the scanner (case
  handling, matches inside an identifier, the errors of a log call without
  an argument list, an unclosed parenthesis, the import and getLogger
  patterns).
 */
module TestVectors {
  import opened Wrappers
  import opened TextOps
  import opened Scanner
  import opened ArgConversion
  import opened Rewrite

  /** The globals before the first conversion. */
  const Fresh: Fields := Fields(0, None, None, false)

  /** A log4j import line. */
  const OtherImport: string := "import java.util.List;"
  const Log4jImport: string := "import org.apache.log4j.A;"

  /** The name matches in any case and is lower-cased; whitespace around the dot is allowed. */
  lemma LogStmtAnyCaseName()
    ensures LogStmtAt("LOG . info(x)", 0) == Some(LogCall("log", "info", 10))
  {
    var s := "LOG . info(x)";
    assert s[0..3] == "LOG";
    assert Lower("LOG") == "log";
    assert s[6..10] == "info";
    LogStmtRecognized(s, 0, 3, 4, 6, 10);
  }

  lemma InfoTokens()
    ensures NextToken("logger.Info(x)", 0) == Some(Token("logger", 6))
    ensures NextToken("logger.Info(x)", 6) == Some(Token(".", 7))
    ensures NextToken("logger.Info(x)", 7) == Some(Token("Info", 11))
  {
    var s := "logger.Info(x)";
    assert s[0..6] == "logger";
    WordEndAt(s, 0, 6);
    assert s[6..7] == ".";
    assert s[7..11] == "Info";
    WordEndAt(s, 7, 11);
  }

  /** The level is compared exactly: `Info` is not a level. */
  lemma LogStmtLevelCaseSensitive()
    ensures LogStmtAt("logger.Info(x)", 0) == None
  {
    var s := "logger.Info(x)";
    InfoTokens();
    assert Lower("logger") == "logger";
    SpaceEndAt(s, 6, 6);
    SpaceEndAt(s, 7, 7);
  }

  /** Recognizers are tried inside identifiers: `myLOG.info` holds a log call starting at index 2. */
  lemma LogStmtInsideIdentifier()
    ensures LogStmtAt("myLOG.info(x)", 2) == Some(LogCall("log", "info", 10))
  {
    var s := "myLOG.info(x)";
    assert s[2..5] == "LOG";
    assert Lower("LOG") == "log";
    assert s[6..10] == "info";
    LogStmtRecognized(s, 2, 5, 5, 6, 10);
  }

  /** A string in two pieces around one separator splits into those two pieces. */
  lemma SplitOnce(s: string, sep: char, k: nat)
    requires k < |s| && s[k] == sep && sep !in s[..k] && sep !in s[k + 1..]
    ensures Split(s, sep) == [s[..k], s[k + 1..]]
  {
    assert s[0..k] == s[..k];
    FindFirst(s, sep, 0, k);
    var t := s[k + 1..];
    assert Find(t, sep, 0).None?;
  }

  /** `"a" +` and a tail without `+` split into the literal, with its space, and the tail. */
  lemma QuotedASplit(tail: string)
    requires '+' !in tail
    ensures Split("\"a\" +" + tail, '+') == ["\"a\" ", tail]
  {
    var s := "\"a\" +" + tail;
    assert s[..4] == "\"a\" " && s[5..] == tail;
    SplitOnce(s, '+', 4);
  }

  /** The second `+`-piece is the text between the first two separators. */
  lemma SecondPiece(s: string, sep: char, k1: nat, k2: nat)
    requires k1 < k2 < |s| && s[k1] == sep && s[k2] == sep
    requires sep !in s[..k1] && sep !in s[k1 + 1..k2]
    ensures |Split(s, sep)| >= 2 && Split(s, sep)[1] == s[k1 + 1..k2]
  {
    assert s[0..k1] == s[..k1];
    FindFirst(s, sep, 0, k1);
    var t := s[k1 + 1..];
    assert t[0..k2 - k1 - 1] == s[k1 + 1..k2];
    FindFirst(t, sep, 0, k2 - k1 - 1);
  }

  lemma ConcatStripped()
    ensures Strip("\"a\" + b") == "\"a\" + b"
    ensures Strip("\"a\" ") == "\"a\"" && Strip(" b") == "b"
  {
    StripCharsNoop("\"a\" + b", Whitespace);
    var p0, p1 := "\"a\" ", " b";
    assert StripLeft(p0, Whitespace) == p0;
    assert p0[..3] == "\"a\"";
    assert p1[1..] == "b";
  }

  lemma LiteralsStripped()
    ensures Strip("\"a\" + \"b\"") == "\"a\" + \"b\""
    ensures Strip("\"a\" ") == "\"a\"" && Strip(" \"b\"") == "\"b\""
  {
    StripCharsNoop("\"a\" + \"b\"", Whitespace);
    var p0, p2 := "\"a\" ", " \"b\"";
    assert StripLeft(p0, Whitespace) == p0;
    assert p0[..3] == "\"a\"";
    assert p2[1..] == "\"b\"";
  }

  /** A one-character string literal is balanced. */
  lemma QuotedBalanced(c: char)
    requires c !in Opening && c !in Closing && c !in Quote
    ensures Balanced(['"', c, '"'])
  {
    var x := ['"', c, '"'];
    CountAbsent(x, Opening);
    CountAbsent(x, Closing);
    assert x[..2] == ['"', c] && x[..2][..1] == ['"'] && x[..2][..1][..0] == [];
    assert Count(['"'], Quote) == 1;
    assert Count(['"', c], Quote) == 1;
  }

  /** A one-character string literal contributes its character to the format string. */
  lemma QuotedFragment(c: char)
    requires c != '"'
    ensures Fragment(['"', c, '"']) == [c]
  {
    var x := ['"', c, '"'];
    assert StripLeft(x, Quote) == [c, '"'];
    assert StripRight([c, '"'], Quote) == [c];
  }

  lemma WordBalanced()
    ensures Balanced("b")
  {
    CountAbsent("b", Opening);
    CountAbsent("b", Closing);
    CountAbsent("b", Quote);
  }

  lemma EmittedConcatenation()
    ensures "(\"" + "a{}" + "\", " + "b" + ")" == "(\"a{}\", b)"
  {
  }

  lemma EmittedLiterals()
    ensures "(\"" + "ab" + "\", " + "" + ")" == "(\"ab\", )"
  {
  }

  lemma EmittedCall()
    ensures "" + ("log" + "." + "info" + "(a)") == "log.info(a)"
  {
  }

  /** Two balanced `+`-parts of already stripped text: a format string and an argument list. */
  lemma TwoPartsConverted(s: string, p0: string, p1: string, x0: string, x1: string, format: string, args: string)
    requires Strip(s) == s && Split(s, '+') == [p0, p1]
    requires Strip(p0) == x0 && Strip(p1) == x1 && Balanced(x0) && Balanced(x1)
    requires format == Fragment(x0) + Fragment(x1)
    requires args == ArgsAppend(ArgsAppend("", x0), x1)
    ensures ConvertedArgs(s) == "(\"" + format + "\", " + args + ")"
  {
    var parts := [p0, p1];
    assert AllBalanced(parts);
    assert parts[..1] == [p0] && parts[..1][..0] == [];
    assert FormatOf([p0]) == Fragment(x0);
    assert ArgsOf([p0]) == ArgsAppend("", x0);
  }

  /** Text without `+` whose ends are not whitespace is kept as it is. */
  lemma KeptWithoutPlus(s: string)
    requires s == [] || (s[0] !in Whitespace && s[|s| - 1] !in Whitespace)
    requires '+' !in s
    ensures ConvertedArgs(s) == "(" + s + ")"
  {
    StripCharsNoop(s, Whitespace);
    PlaceholderStyleKept(s);
  }

  /** A literal and an expression joined by `+` become a format string and an argument. */
  lemma ConcatenationConverted()
    ensures ConvertedArgs("\"a\" + b") == "(\"a{}\", b)"
  {
    QuotedASplit(" b");
    assert "\"a\" +" + " b" == "\"a\" + b";
    ConcatStripped();
    QuotedBalanced('a');
    QuotedFragment('a');
    WordBalanced();
    TwoPartsConverted("\"a\" + b", "\"a\" ", " b", "\"a\"", "b", "a{}", "b");
    EmittedConcatenation();
  }

  /** ExampleInput.java line 5: arguments already in placeholder style are kept. */
  lemma PlaceholderArgsKept()
    ensures ConvertedArgs("\"Hello {}\", who") == "(\"Hello {}\", who)"
  {
    KeptWithoutPlus("\"Hello {}\", who");
  }

  /** Text with one space on each side strips to what lies between. */
  lemma StripPadded(x: string)
    requires x != [] && !IsSpace(x[0]) && !IsSpace(x[|x| - 1])
    ensures Strip(" " + x + " ") == x
  {
    var p := " " + x + " ";
    assert p[1..] == x + " ";
    assert (x + " ")[..|x|] == x;
    SpaceIsWhitespace(x[0]);
    SpaceIsWhitespace(x[|x| - 1]);
    assert StripLeft(x + " ", Whitespace) == x + " ";
    assert StripLeft(p, Whitespace) == x + " ";
    assert StripRight(x + " ", Whitespace) == StripRight(x, Whitespace) == x;
  }

  /** `greetWho("wo"` opens a parenthesis it does not close. */
  lemma OpenCallUnbalanced()
    ensures !Balanced("greetWho(\"wo\"")
  {
    var x := "greetWho(\"wo\"";
    assert x == "greetWho" + "(" + "\"wo\"";
    CountAbsent("greetWho", Opening);
    CountAbsent("\"wo\"", Opening);
    CountAppend("greetWho", "(", Opening);
    CountAppend("greetWho" + "(", "\"wo\"", Opening);
    assert Count("(", Opening) == 1;
    CountAbsent(x, Closing);
  }

  /**
    An expression, `+`, an unbalanced expression, `+`, and the rest: the
    second piece stops the conversion, and the text is kept.
   */
  lemma UnbalancedSecondPieceKept(a: string, x: string, rest: string)
    requires a != [] && !IsSpace(a[0]) && '+' !in a
    requires x != [] && !IsSpace(x[0]) && !IsSpace(x[|x| - 1]) && '+' !in x && !Balanced(x)
    requires rest != [] && !IsSpace(rest[|rest| - 1])
    ensures var s := a + " + " + x + " +" + rest; ConvertedArgs(s) == "(" + s + ")"
  {
    var s := a + " + " + x + " +" + rest;
    var k1, k2 := |a| + 1, |a| + |x| + 4;
    assert s[..k1] == a + " ";
    assert s[k1 + 1..k2] == " " + x + " ";
    SpaceIsWhitespace(s[0]);
    SpaceIsWhitespace(s[|s| - 1]);
    StripCharsNoop(s, Whitespace);
    SecondPiece(s, '+', k1, k2);
    StripPadded(x);
    UnbalancedPartKept(s, 1);
  }

  /**
    ExampleInput.java line 35, its argument text written out around its two
    first `+` signs: the `+` inside the call's own arguments cuts the call
    in two, the piece `greetWho("wo"` is unbalanced, and the arguments are
    passed through as they are.
   */
  lemma NestedConcatenationKept()
    ensures var s := "\"Hello \"" + " + " + "greetWho(\"wo\"" + " +" + " \"r\" + \"ld\")";
            ConvertedArgs(s) == "(" + s + ")"
  {
    OpenCallUnbalanced();
    UnbalancedSecondPieceKept("\"Hello \"", "greetWho(\"wo\"", " \"r\" + \"ld\")");
  }

  lemma LiteralsConverted()
    ensures ConvertedArgs("\"a\" + \"b\"") == "(\"ab\", )"
  {
    QuotedASplit(" \"b\"");
    assert "\"a\" +" + " \"b\"" == "\"a\" + \"b\"";
    LiteralsStripped();
    QuotedBalanced('a');
    QuotedBalanced('b');
    QuotedFragment('a');
    QuotedFragment('b');
    TwoPartsConverted("\"a\" + \"b\"", "\"a\" ", " \"b\"", "\"a\"", "\"b\"", "ab", "");
    EmittedLiterals();
  }

  lemma CommaArgsKept()
    ensures ConvertedArgs("\"ab\", ") == "(\"ab\",)"
  {
    var again := "\"ab\", ";
    assert StripLeft(again, Whitespace) == again;
    assert again[..5] == "\"ab\",";
    assert Strip(again) == "\"ab\",";
    PlaceholderStyleKept(again);
  }

  /**
    Only string literals: the format string takes both, the argument list is
    empty, and converting that output again removes the space after the comma.
   */
  lemma LiteralsOnlyNotIdempotent()
    ensures ConvertedArgs("\"a\" + \"b\"") == "(\"ab\", )"
    ensures ConvertedArgs("\"ab\", ") == "(\"ab\",)"
  {
    LiteralsConverted();
    CommaArgsKept();
  }

  /** A log call that ends the text raises an index error just past the level. */
  lemma LogCallAtEndRaises()
    ensures Run("log.info", 0, "", Fresh).Raised?
    ensures Run("log.info", 0, "", Fresh).error == IndexOutOfRange(8)
  {
    var s := "log.info";
    assert s[0..3] == "log";
    assert Lower("log") == "log";
    assert s[4..8] == "info";
    LogStmtRecognized(s, 0, 3, 3, 4, 8);
    assert SpaceEnd(s, 8) == 8;
    RunStep(s, 0, "", Fresh);
  }

  /** A log call followed by anything but `(` raises, naming what it found. */
  lemma LogCallWithoutArgsRaises()
    ensures Run("log.info;", 0, "", Fresh).Raised?
    ensures Run("log.info;", 0, "", Fresh).error == ExpectedOpenParen(8, ';')
  {
    var s := "log.info;";
    assert s[0..3] == "log";
    assert Lower("log") == "log";
    assert s[4..8] == "info";
    LogStmtRecognized(s, 0, 3, 3, 4, 8);
    assert SpaceEnd(s, 8) == 8;
    RunStep(s, 0, "", Fresh);
  }

  lemma UnclosedArgs()
    ensures LogArgsAt("log.info(ab", 8) == ArgsConverted("(a)", 11)
  {
    var s := "log.info(ab";
    SpaceEndAt(s, 8, 8);
    assert CloseParenEnd(s, 8, 0) == 11;
    assert MatchingParen(s, 8) == Success(11);
    assert Slice(s, 9, 10) == "a";
    StripCharsNoop("a", Whitespace);
    PlaceholderStyleKept("a");
    assert ConvertedArgs("a") == "(a)";
  }

  /** An unclosed argument list loses its last character. */
  lemma UnclosedParenDropsLastChar()
    ensures Run("log.info(ab", 0, "", Fresh).Converted?
    ensures Run("log.info(ab", 0, "", Fresh).output == "log.info(a)"
  {
    var s := "log.info(ab";
    assert s[0..3] == "log";
    assert Lower("log") == "log";
    assert s[4..8] == "info";
    LogStmtRecognized(s, 0, 3, 3, 4, 8);
    UnclosedArgs();
    RunStep(s, 0, "", Fresh);
    var h := Fields(11, Some("log"), Some("info"), false);
    EmittedCall();
    assert Run(s, 11, "log.info(a)", h) == Converted("log.info(a)", h);
    assert Run(s, 0, "", Fresh) == Run(s, 11, "log.info(a)", h);
  }

  /** One literal piece of a pattern matched. */
  lemma TextStep(w: string, pos: nat, pattern: Pattern, t: string)
    requires pos <= |w| && pattern.Then? && pattern.piece == Text(t) && StartsAt(w, pos, t)
    ensures MatchEnd(w, pos, pattern) == MatchEnd(w, pos + |t|, pattern.rest)
  {
  }

  /** One whitespace piece of a pattern matched up to `e`. */
  lemma SpaceStep(w: string, pos: nat, pattern: Pattern, e: nat)
    requires pos <= e <= |w| && pattern.Then? && (pattern.piece == AnySpace || (pattern.piece == SomeSpace && pos < e))
    requires SpaceEnd(w, pos) == e
    ensures MatchEnd(w, pos, pattern) == MatchEnd(w, e, pattern.rest)
  {
  }

  /** `import org.apache.log4j.A;` has the import layout, with its `;` last. */
  lemma Log4jImportPattern()
    ensures MatchesImportPattern(Log4jImport)
  {
    var s := Log4jImport;
    var y := ImportLayout(7, 10, 11, 17, 18, 23, 25);
    assert s[0..6] == "import" && s[7..10] == "org" && s[11..17] == "apache" && s[18..23] == "log4j";
    assert s[10] == s[17] == s[23] == '.' && s[25] == ';' && s[24] == 'A';
    assert ImportShape(s, y);
    ShapeMatchesImport(s, y);
  }

  /** A log4j import is recognized up to and including its `;`. */
  lemma Log4jImportRecognized()
    ensures ImportStmtAt(Log4jImport, 0) == Some(26)
  {
    Log4jImportSemicolon();
    Log4jImportPattern();
    assert Log4jImport[0..26] == Log4jImport;
    ImportStmtFails(Log4jImport, 0);
  }

  lemma Log4jImportSemicolon()
    ensures StartsAt(Log4jImport, 0, "import") && Find(Log4jImport, ';', 0) == Some(25)
  {
    var s := Log4jImport;
    assert s[0..6] == "import";
    assert s[0..25] == "import org.apache.log4j.A";
    FindFirst(s, ';', 0, 25);
  }

  lemma OtherImportPattern()
    ensures !MatchesImportPattern(OtherImport)
  {
    var s, p := OtherImport, ImportPattern;
    assert s[0..6] == "import";
    SpaceEndAt(s, 6, 7);
    assert s[7 + 0] != "org"[0];
    assert !StartsAt(s, 7, "org");
    TextStep(s, 0, p, "import");
    SpaceStep(s, 6, p.rest, 7);
    assert MatchEnd(s, 7, p.rest.rest) == None;
  }

  lemma OtherImportSemicolon()
    ensures Find(OtherImport, ';', 0) == Some(21)
  {
    var s := OtherImport;
    assert s[0..21] == "import java.util.List";
    FindFirst(s, ';', 0, 21);
  }

  /** An import of another package is not recognized. */
  lemma OtherImportIgnored()
    ensures ImportStmtAt(OtherImport, 0) == None
  {
    OtherImportSemicolon();
    OtherImportPattern();
    assert OtherImport[0..22] == OtherImport;
    ImportStmtFails(OtherImport, 0);
  }

  lemma GetLoggerPrefixMatched()
    ensures GetLoggerPrefix("Logger.getLogger ") == Some(17)
  {
    var w := "Logger.getLogger ";
    assert w[0..6] == "Logger" && w[6] == '.' && w[7..16] == "getLogger";
    assert GetLoggerShape(w, 6, 7, 17);
    ShapeMatchesGetLogger(w, 6, 7, 17);
  }

  /** Logger.getLogger is matched up to the `(`, with the whitespace before it. */
  lemma GetLoggerRecognized()
    ensures GetLoggerAt("Logger.getLogger (X.class)", 0) == Some(17)
  {
    var s := "Logger.getLogger (X.class)";
    assert s[0..17] == "Logger.getLogger ";
    FindFirst(s, '(', 0, 17);
    GetLoggerPrefixMatched();
  }

  /** A log4j import line is not a log call: `import` is not a logger name. */
  lemma ImportLineNotLogCall(s: string, i: nat)
    requires i + 26 <= |s| && s[i..i + 26] == Log4jImport
    ensures LogStmtAt(s, i) == None
  {
    assert s[i..i + 6] == Log4jImport[0..6] == "import";
    assert s[i + 6] == Log4jImport[6] == ' ';
    WordEndAt(s, i, i + 6);
    assert NextToken(s, i) == Some(Token("import", i + 6));
    assert Lower("import") == "import";
  }

  /** A log4j import line is recognized wherever it occurs. */
  lemma ImportLineRecognized(s: string, i: nat)
    requires i + 26 <= |s| && s[i..i + 26] == Log4jImport
    ensures ImportStmtAt(s, i) == Some(i + 26)
  {
    assert s[i..i + 6] == Log4jImport[0..6];
    assert Log4jImport[0..6] == "import";
    assert s[i..i + 25] == Log4jImport[..25];
    assert ';' !in Log4jImport[..25];
    assert s[i + 25] == Log4jImport[25];
    FindFirst(s, ';', i, i + 25);
    Log4jImportPattern();
  }

  /** At a log4j import line the driver emits the block if the flag is clear, and sets the flag. */
  lemma ImportLineStep(s: string, i: nat, f: Fields)
    requires i + 26 <= |s| && s[i..i + 26] == Log4jImport
    ensures StepAt(s, i, f) == Advance(ImportAt, if f.importsAdded then "" else ImportBlock, i + 26,
                                       f.(offset := i + 26, loggerName := None, importsAdded := true))
  {
    ImportLineNotLogCall(s, i);
    ImportLineRecognized(s, i);
  }

  /** Two log4j imports in one text: the slf4j block is emitted once, in place of the first. */
  lemma TwoImportsOneBlock()
    ensures Run(Log4jImport + Log4jImport, 0, "", Fresh) == Converted(ImportBlock, Fields(52, None, None, true))
  {
    var s := Log4jImport + Log4jImport;
    assert s[0..26] == Log4jImport;
    assert s[26..52] == Log4jImport;
    ImportLineStep(s, 0, Fresh);
    var g := Fields(26, None, None, true);
    var h := Fields(52, None, None, true);
    ImportLineStep(s, 26, g);
    RunStep(s, 0, "", Fresh);
    RunStep(s, 26, ImportBlock, g);
    assert "" + ImportBlock == ImportBlock && ImportBlock + "" == ImportBlock;
    assert Run(s, 52, ImportBlock, h) == Converted(ImportBlock, h);
    assert Run(s, 26, ImportBlock, g) == Run(s, 52, ImportBlock, h);
    assert Run(s, 0, "", Fresh) == Run(s, 26, ImportBlock, g);
  }
}
