/**
  The driver loop of convert as functions: one step at a position, and the
  run from a position to the end of the text. The state a step reads and
  writes is the scanner's set of globals: the cursor, the captured logger
  name and level, and the flag that says the slf4j imports were emitted.
 */
module Rewrite {
  import opened Wrappers
  import opened TextOps
  import opened Scanner
  import opened ArgConversion

  /** What get_slf4j_imports_once emits the first time. */
  const ImportBlock: string := "\nimport org.slf4j.Logger;\nimport org.slf4j.LoggerFactory;\n    "

  /** What replaces a recognized Logger.getLogger. */
  const FactoryCall: string := "LoggerFactory.getLogger"

  /** The globals the recognizers read and write. */
  datatype Fields = Fields(offset: nat, loggerName: Option<string>, logLevel: Option<string>, importsAdded: bool)

  /** Which branch of the driver loop a step took. */
  datatype Construct = LogCallAt | ImportAt | GetLoggerCallAt | PlainChar

  datatype StepOutcome =
    | Advance(kind: Construct, emitted: string, next: nat, fields: Fields)
    | Stop(error: ScanError, fields: Fields)

  datatype Outcome = Converted(output: string, fields: Fields) | Raised(error: ScanError, fields: Fields)

  /**
    One iteration of convert's loop at `index`: the log statement first,
    then the import, then Logger.getLogger, else the character itself.
    looking_at_log_stmt clears the logger name on entry but never the level.
   */
  function StepAt(s: string, index: nat, f: Fields): (r: StepOutcome)
    requires index < |s|
    ensures r.Advance? ==> index < r.next <= |s|
  {
    match LogStmtAt(s, index)
    case Some(m) =>
      var named := f.(loggerName := Some(m.name), logLevel := Some(m.level));
      (match LogArgsAt(s, m.end)
       case ArgsRaised(e, at) => Stop(e, named.(offset := at))
       case ArgsConverted(args, end) =>
         Advance(LogCallAt, m.name + "." + m.level + args, end, named.(offset := end)))
    case None => NonLogStepAt(s, index, f)
  }

  /**
    The rest of an iteration when no log statement starts at `index`: the
    import, then Logger.getLogger, else the character itself. The name was
    cleared by the failed log-statement probe; the level is kept.
   */
  function NonLogStepAt(s: string, index: nat, f: Fields): (r: StepOutcome)
    requires index < |s|
    ensures r.Advance? && index < r.next <= |s|
  {
    var probed := f.(offset := index, loggerName := None);
    match ImportStmtAt(s, index)
    case Some(end) =>
      Advance(ImportAt, if f.importsAdded then "" else ImportBlock, end,
              probed.(offset := end, importsAdded := true))
    case None =>
      match GetLoggerAt(s, index)
      case Some(end) => Advance(GetLoggerCallAt, FactoryCall, end, probed.(offset := end))
      case None => Advance(PlainChar, [s[index]], index + 1, probed)
  }

  /** A step resets the cursor to `index` first, so where the cursor was before does not matter. */
  lemma StepIgnoresOffset(s: string, index: nat, f: Fields, o: nat)
    requires index < |s|
    ensures StepAt(s, index, f.(offset := o)) == StepAt(s, index, f)
  {
  }

  /** convert's loop from `index`, with `out` emitted so far and the globals at `f`. */
  function Run(s: string, index: nat, out: string, f: Fields): (r: Outcome)
    requires index <= |s|
    ensures r.Converted? ==> out <= r.output
    ensures f.importsAdded ==> r.fields.importsAdded
    decreases |s| - index
  {
    if index == |s| then Converted(out, f)
    else
      match StepAt(s, index, f)
      case Stop(e, g) => Raised(e, g)
      case Advance(_, emitted, next, g) => Run(s, next, out + emitted, g)
  }

  /** Run takes one step and goes on from where it leaves the cursor and the globals. */
  lemma RunStep(s: string, index: nat, out: string, f: Fields)
    requires index < |s|
    ensures StepAt(s, index, f).Stop? ==>
              Run(s, index, out, f) == Raised(StepAt(s, index, f).error, StepAt(s, index, f).fields)
    ensures StepAt(s, index, f).Advance? ==>
              var step := StepAt(s, index, f);
              Run(s, index, out, f) == Run(s, step.next, out + step.emitted, step.fields)
  {
  }

  /** No recognizer fires at `k`. */
  predicate Unrecognized(s: string, k: nat)
    requires k <= |s|
  {
    LogStmtAt(s, k).None? && ImportStmtAt(s, k).None? && GetLoggerAt(s, k).None?
  }

  /** At a log call, the step rewrites its arguments or stops with what convert_log_args raised. */
  lemma StepAtLogCall(s: string, index: nat, f: Fields)
    requires index < |s| && LogStmtAt(s, index).Some?
    ensures var m := LogStmtAt(s, index).value;
            var named := f.(loggerName := Some(m.name), logLevel := Some(m.level));
            && (LogArgsAt(s, m.end).ArgsRaised? ==>
                  StepAt(s, index, f) == Stop(LogArgsAt(s, m.end).error, named.(offset := LogArgsAt(s, m.end).at)))
            && (LogArgsAt(s, m.end).ArgsConverted? ==>
                  StepAt(s, index, f) == Advance(LogCallAt, m.name + "." + m.level + LogArgsAt(s, m.end).text,
                                                 LogArgsAt(s, m.end).end, named.(offset := LogArgsAt(s, m.end).end)))
  {
  }

  /** At a log4j import, the step emits the block unless the flag is set, and sets it. */
  lemma StepAtImport(s: string, index: nat, f: Fields)
    requires index < |s| && LogStmtAt(s, index).None? && ImportStmtAt(s, index).Some?
    ensures var end := ImportStmtAt(s, index).value;
            StepAt(s, index, f) == Advance(ImportAt, if f.importsAdded then "" else ImportBlock, end,
                                           f.(offset := end, loggerName := None, importsAdded := true))
  {
  }

  /** At Logger.getLogger, the step emits the factory call. */
  lemma StepAtGetLogger(s: string, index: nat, f: Fields)
    requires index < |s| && LogStmtAt(s, index).None? && ImportStmtAt(s, index).None? && GetLoggerAt(s, index).Some?
    ensures var end := GetLoggerAt(s, index).value;
            StepAt(s, index, f) == Advance(GetLoggerCallAt, FactoryCall, end, f.(offset := end, loggerName := None))
  {
  }

  /** Where no recognizer fires, the step copies the one character and clears the logger name. */
  lemma StepCopiesUnrecognized(s: string, index: nat, f: Fields)
    requires index < |s| && Unrecognized(s, index)
    ensures StepAt(s, index, f) == Advance(PlainChar, [s[index]], index + 1, f.(offset := index, loggerName := None))
  {
  }

  /**
    Text in which no recognizer fires is copied unchanged, character by
    character; the level and the import flag are left as they were.
   */
  lemma {:induction false} UnrecognizedTextCopied(s: string, index: nat, out: string, f: Fields)
    requires index <= |s|
    requires forall k :: index <= k < |s| ==> Unrecognized(s, k)
    ensures Run(s, index, out, f).Converted?
    ensures Run(s, index, out, f).output == out + s[index..]
    ensures Run(s, index, out, f).fields.logLevel == f.logLevel
    ensures Run(s, index, out, f).fields.importsAdded == f.importsAdded
    decreases |s| - index
  {
    if index < |s| {
      var g := f.(offset := index, loggerName := None);
      StepCopiesUnrecognized(s, index, f);
      RunStep(s, index, out, f);
      UnrecognizedTextCopied(s, index + 1, out + [s[index]], g);
      CopyOneMore(out, s, index);
    } else {
      assert out + s[index..] == out;
    }
  }

  /** The `.` piece of a matching pattern puts a `.` in the text matched. */
  lemma PatternHasDot(w: string, pattern: Pattern)
    requires HasPiece(pattern, Text(".")) && MatchEnd(w, 0, pattern).Some?
    ensures exists k :: 0 <= k < |w| && w[k] == '.'
  {
    MatchEndHasText(w, 0, pattern, ".");
    var p :| 0 <= p && p + 1 <= MatchEnd(w, 0, pattern).value && StartsAt(w, p, ".");
    assert w[p..p + 1] == ".";
    assert w[p] == '.';
  }

  lemma ImportPatternHasDot(w: string)
    requires MatchesImportPattern(w)
    ensures exists j :: 0 <= j < |w| && w[j] == '.'
  {
    PatternHasDot(w, ImportPattern);
  }

  lemma GetLoggerPrefixHasDot(w: string)
    requires GetLoggerPrefix(w).Some?
    ensures exists j :: 0 <= j < |w| && w[j] == '.'
  {
    PatternHasDot(w, GetLoggerPattern);
  }

  /** A recognized import contains a `.` at or after where it starts. */
  lemma ImportHasDot(s: string, k: nat)
    requires k <= |s|
    ensures ImportStmtAt(s, k).Some? ==> exists j :: k <= j < |s| && s[j] == '.'
  {
    ImportStmtSound(s, k);
    if ImportStmtAt(s, k).Some? {
      var w := s[k..ImportStmtAt(s, k).value];
      ImportPatternHasDot(w);
      var j :| 0 <= j < |w| && w[j] == '.';
      assert s[k + j] == '.';
    }
  }

  /** A recognized Logger.getLogger contains a `.` at or after where it starts. */
  lemma GetLoggerHasDot(s: string, k: nat)
    requires k <= |s|
    ensures GetLoggerAt(s, k).Some? ==> exists j :: k <= j < |s| && s[j] == '.'
  {
    if GetLoggerAt(s, k).Some? {
      var w := s[k..Find(s, '(', k).value];
      GetLoggerPrefixHasDot(w);
      var j :| 0 <= j < |w| && w[j] == '.';
      assert s[k + j] == '.';
    }
  }

  /** Every recognizer needs a dot at or after the position where it starts. */
  lemma RecognizersNeedDot(s: string, k: nat)
    requires k <= |s|
    requires forall j :: k <= j < |s| ==> s[j] != '.'
    ensures Unrecognized(s, k)
  {
    LogStmtSound(s, k);
    ImportHasDot(s, k);
    GetLoggerHasDot(s, k);
  }

  /** A text without any `.` comes out exactly as it went in. */
  lemma DotFreeTextUnchanged(s: string, f: Fields)
    requires '.' !in s
    ensures Run(s, 0, "", f).Converted? && Run(s, 0, "", f).output == s
  {
    forall k | 0 <= k < |s|
      ensures Unrecognized(s, k)
    {
      RecognizersNeedDot(s, k);
    }
    UnrecognizedTextCopied(s, 0, "", f);
  }

  /** How many steps from `index` on recognize a log4j import. */
  function ImportsMatched(s: string, index: nat, f: Fields): nat
    requires index <= |s|
    decreases |s| - index
  {
    if index == |s| then 0
    else
      match StepAt(s, index, f)
      case Stop(_, _) => 0
      case Advance(kind, _, next, g) => (if kind == ImportAt then 1 else 0) + ImportsMatched(s, next, g)
  }

  /** How many steps from `index` on emit the slf4j import block. */
  function ImportBlocksEmitted(s: string, index: nat, f: Fields): nat
    requires index <= |s|
    decreases |s| - index
  {
    if index == |s| then 0
    else
      match StepAt(s, index, f)
      case Stop(_, _) => 0
      case Advance(kind, emitted, next, g) =>
        (if kind == ImportAt && emitted == ImportBlock then 1 else 0) + ImportBlocksEmitted(s, next, g)
  }

  /**
    A step sets the import flag exactly when it recognizes an import, and
    emits the block there exactly when the flag was clear.
   */
  lemma StepImportFlag(s: string, index: nat, f: Fields)
    requires index < |s|
    ensures StepAt(s, index, f).Advance? ==>
              var step := StepAt(s, index, f);
              && step.fields.importsAdded == (f.importsAdded || step.kind == ImportAt)
              && (step.kind == ImportAt && step.emitted == ImportBlock) == (step.kind == ImportAt && !f.importsAdded)
  {
  }

  /**
    The import block is emitted at most once: exactly once when the flag
    starts clear and some import is recognized, never when the flag was
    already set (by this run or an earlier one). At the end the flag is set
    exactly when it was set before or an import was recognized.
   */
  lemma {:induction false} ImportBlockEmittedOnce(s: string, index: nat, out: string, f: Fields)
    requires index <= |s|
    ensures ImportBlocksEmitted(s, index, f) ==
              if f.importsAdded || ImportsMatched(s, index, f) == 0 then 0 else 1
    ensures Run(s, index, out, f).fields.importsAdded == (f.importsAdded || ImportsMatched(s, index, f) > 0)
    decreases |s| - index
  {
    if index < |s| {
      match StepAt(s, index, f)
      case Stop(_, g) =>
      case Advance(kind, emitted, next, g) =>
        StepImportFlag(s, index, f);
        ImportBlockEmittedOnce(s, next, out + emitted, g);
    }
  }
}
