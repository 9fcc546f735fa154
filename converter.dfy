/**
  The converter itself, with the module globals of log4jtoslf4j.py as the
  fields of one object: the text being converted, the cursor into it, the
  logger name and level captured by the last log statement, and the flag
  that says the slf4j imports were already emitted. Each method runs the
  source's steps on these fields and is proved against the function of the
  Scanner, ArgConversion or Rewrite module that says what it computes.
 */
module Log4jToSlf4j {
  import opened Wrappers
  import opened TextOps
  import opened Scanner
  import opened ArgConversion
  import opened Rewrite

  class Converter {
    var content: string
    var offset: nat
    var loggerName: Option<string>
    var logLevel: Option<string>
    var slf4jImportsAdded: bool

    /** The globals as set when the module is loaded: no text yet, cursor at 0, nothing captured. */
    constructor()
      ensures content == [] && offset == 0
      ensures loggerName == None && logLevel == None && !slf4jImportsAdded
    {
      content := [];
      offset := 0;
      loggerName := None;
      logLevel := None;
      slf4jImportsAdded := false;
    }

    /** The globals a driver step reads and writes. */
    function State(): Fields
      reads this
    {
      Fields(offset, loggerName, logLevel, slf4jImportsAdded)
    }

    /** is_eof: the cursor is at or past the end of the text, so no token is left to capture. */
    predicate IsEof(): (eof: bool)
      reads this
      ensures offset <= |content| ==> (eof <==> NextToken(content, offset).None?)
    {
      offset >= |content|
    }

    /** skip_white_spaces: the cursor moves past the whitespace under it. */
    method SkipWhiteSpaces()
      requires offset <= |content|
      modifies this`offset
      ensures offset == SpaceEnd(content, old(offset))
    {
      if offset >= |content| {
        return;
      }
      while offset < |content| && IsSpace(content[offset])
        invariant old(offset) <= offset <= |content|
        invariant SpaceEnd(content, offset) == SpaceEnd(content, old(offset))
        decreases |content| - offset
      {
        offset := offset + 1;
      }
    }

    /**
      capture_next_token: nothing at the end of the text, otherwise the token
      under the cursor, which the cursor moves past.
     */
    method CaptureNextToken() returns (token: Option<string>)
      requires offset <= |content|
      modifies this`offset
      ensures NextToken(content, old(offset)).None? ==> token == None && offset == old(offset)
      ensures NextToken(content, old(offset)).Some? ==>
                token == Some(NextToken(content, old(offset)).value.text) &&
                offset == NextToken(content, old(offset)).value.end
    {
      var startPos := offset;
      if IsEof() {
        return None;
      }
      if content[offset] == '.' || content[offset] == '+' {
        offset := offset + 1;
      } else {
        while offset < |content| && IsWordChar(content[offset])
          invariant startPos <= offset <= |content|
          invariant WordEnd(content, offset) == WordEnd(content, startPos)
          decreases |content| - offset
        {
          offset := offset + 1;
        }
      }
      token := Some(content[startPos..offset]);
    }

    /**
      looking_at_log_stmt. On a match the cursor is past the level and the
      lower-cased name and the level are captured; otherwise the cursor is
      back where it was. The name is cleared on entry in either case, the
      level never is: on a failed match it keeps its earlier value.
     */
    method LookingAtLogStmt() returns (found: bool)
      requires offset <= |content|
      modifies this`offset, this`loggerName, this`logLevel
      ensures LogStmtAt(content, old(offset)).Some? ==>
                var m := LogStmtAt(content, old(offset)).value;
                found && offset == m.end && loggerName == Some(m.name) && logLevel == Some(m.level)
      ensures LogStmtAt(content, old(offset)).None? ==>
                !found && offset == old(offset) && loggerName == None && logLevel == old(logLevel)
    {
      loggerName := None;
      var startOffset := offset;
      var objName := CaptureNextToken();
      if objName.None? {
        return false;
      }
      TokenUnstripped(content, startOffset);
      var name := Lower(Strip(objName.value));
      if name !in LoggerNames {
        offset := startOffset;
        return false;
      }
      SkipWhiteSpaces();
      var dotAt := offset;
      var dot := CaptureNextToken();
      if dot.None? {
        offset := startOffset;
        return false;
      }
      TokenUnstripped(content, dotAt);
      if Strip(dot.value) != "." {
        offset := startOffset;
        return false;
      }
      SkipWhiteSpaces();
      var levelAt := offset;
      var level := CaptureNextToken();
      if level.None? {
        offset := startOffset;
        return false;
      }
      TokenUnstripped(content, levelAt);
      var levelText := Strip(level.value);
      if levelText in LogLevels {
        loggerName := Some(name);
        logLevel := Some(levelText);
        return true;
      }
      offset := startOffset;
      return false;
    }

    /**
      move_to_matching_paren: what it raises when the cursor is not on `(`,
      otherwise the cursor moves one past the matching `)`, or to the end of
      the text when there is none.
     */
    method MoveToMatchingParen() returns (failure: Option<ScanError>)
      requires offset <= |content|
      modifies this`offset
      ensures MatchingParen(content, old(offset)).Failure? ==>
                failure == Some(MatchingParen(content, old(offset)).error) && offset == old(offset)
      ensures MatchingParen(content, old(offset)).Success? ==>
                failure == None && offset == MatchingParen(content, old(offset)).value
    {
      if offset == |content| {
        return Some(IndexOutOfRange(offset));
      }
      if content[offset] != '(' {
        return Some(ExpectedOpenParen(offset, content[offset]));
      }
      var count := 0;
      while !IsEof()
        invariant old(offset) <= offset <= |content|
        invariant CloseParenEnd(content, offset, count) == CloseParenEnd(content, old(offset), 0)
        decreases |content| - offset
      {
        if content[offset] == '(' {
          count := count + 1;
        } else if content[offset] == ')' {
          count := count - 1;
        }
        offset := offset + 1;
        if count == 0 {
          return None;
        }
      }
      return None;
    }

    /**
      convert_log_args: the rewritten argument list and the cursor past the
      closing parenthesis, or what move_to_matching_paren raised, with the
      cursor where it raised.
     */
    method ConvertLogArgs() returns (r: Result<string, ScanError>)
      requires offset <= |content|
      modifies this`offset
      ensures LogArgsAt(content, old(offset)) ==
                if r.Success? then ArgsConverted(r.value, offset) else ArgsRaised(r.error, offset)
    {
      SkipWhiteSpaces();
      var startOffset := offset;
      var failure := MoveToMatchingParen();
      if failure.Some? {
        return Failure(failure.value);
      }
      var logArgs := Slice(content, startOffset + 1, offset - 1);
      var converted := RewriteArgs(logArgs);
      return Success(converted);
    }

    /**
      looking_at_import_stmt: a log4j import starting at the cursor, which
      then moves past its `;`; otherwise the cursor stays.
     */
    method LookingAtImportStmt() returns (matches: bool)
      requires offset <= |content|
      modifies this`offset
      ensures ImportStmtAt(content, old(offset)).Some? ==>
                matches && offset == ImportStmtAt(content, old(offset)).value
      ensures ImportStmtAt(content, old(offset)).None? ==> !matches && offset == old(offset)
    {
      if !StartsAt(content, offset, "import") {
        return false;
      }
      var semicolonAt := Find(content, ';', offset);
      if semicolonAt.None? {
        return false;
      }
      ImportStmtAtSemicolon(content, offset, semicolonAt.value);
      matches := MatchesImportPattern(content[offset..semicolonAt.value + 1]);
      if matches {
        offset := semicolonAt.value + 1;
      }
    }

    /** get_slf4j_imports_once: the import block the first time, nothing after that. */
    method GetSlf4jImportsOnce() returns (imports: string)
      modifies this`slf4jImportsAdded
      ensures imports == if old(slf4jImportsAdded) then "" else ImportBlock
      ensures slf4jImportsAdded
    {
      if slf4jImportsAdded {
        return "";
      }
      slf4jImportsAdded := true;
      return ImportBlock;
    }

    /**
      looking_at_get_logger_stmt: Logger.getLogger and the whitespace after
      it, before the next `(`; the cursor moves past what matched.
     */
    method LookingAtGetLoggerStmt() returns (matches: bool)
      requires offset <= |content|
      modifies this`offset
      ensures GetLoggerAt(content, old(offset)).Some? ==>
                matches && offset == GetLoggerAt(content, old(offset)).value
      ensures GetLoggerAt(content, old(offset)).None? ==> !matches && offset == old(offset)
    {
      var parenAt := Find(content, '(', offset);
      if parenAt.None? {
        return false;
      }
      var prefix := GetLoggerPrefix(content[offset..parenAt.value]);
      if prefix.None? {
        return false;
      }
      offset := offset + prefix.value;
      return true;
    }

    /**
      One iteration of convert's loop at `index`: the cursor is reset to it,
      then a log statement, an import and Logger.getLogger are tried in that
      order, and what the iteration appends and where the next one starts
      are returned, or what a log call raised.
     */
    method ConvertStep(index: nat) returns (emitted: string, next: nat, failure: Option<ScanError>)
      requires index < |content|
      modifies this`offset, this`loggerName, this`logLevel, this`slf4jImportsAdded
      ensures StepAt(content, index, old(State())).Stop? ==>
                failure == Some(StepAt(content, index, old(State())).error) &&
                State() == StepAt(content, index, old(State())).fields
      ensures StepAt(content, index, old(State())).Advance? ==>
                failure == None &&
                emitted == StepAt(content, index, old(State())).emitted &&
                next == StepAt(content, index, old(State())).next &&
                State() == StepAt(content, index, old(State())).fields
    {
      StepIgnoresOffset(content, index, State(), index);
      offset := index;
      var isLog := LookingAtLogStmt();
      if isLog {
        StepAtLogCall(content, index, old(State()));
        var newArgs := ConvertLogArgs();
        if newArgs.Failure? {
          assert StepAt(content, index, old(State())) == Stop(newArgs.error, State());
          return [], index, Some(newArgs.error);
        }
        emitted := loggerName.value + "." + logLevel.value + newArgs.value;
        assert StepAt(content, index, old(State())) == Advance(LogCallAt, emitted, offset, State());
        return emitted, offset, None;
      }
      assert StepAt(content, index, old(State())) == NonLogStepAt(content, index, State());
      emitted, next := ConvertNonLogStep(index);
      failure := None;
    }

    /**
      The rest of convert's loop body once looking_at_log_stmt has failed:
      an import, then Logger.getLogger, else the character at `index`.
     */
    method ConvertNonLogStep(index: nat) returns (emitted: string, next: nat)
      requires index < |content| && offset == index && loggerName == None
      modifies this`offset, this`slf4jImportsAdded
      ensures var step := NonLogStepAt(content, index, old(State()));
              emitted == step.emitted && next == step.next && State() == step.fields
    {
      var isImport := LookingAtImportStmt();
      if isImport {
        var imports := GetSlf4jImportsOnce();
        return imports, offset;
      }
      var isGetLogger := LookingAtGetLoggerStmt();
      if isGetLogger {
        return FactoryCall, offset;
      }
      return [content[index]], index + 1;
    }

    /**
      convert, on a text instead of a file: the output, or what a log call
      raised, and the globals as Run leaves them. The import flag is not
      reset, so a block emitted by an earlier call is not emitted again.
     */
    method Convert(text: string) returns (r: Result<string, ScanError>)
      modifies this
      ensures content == text
      ensures State() == Run(text, 0, "", old(State())).fields
      ensures Run(text, 0, "", old(State())).Converted? ==> r == Success(Run(text, 0, "", old(State())).output)
      ensures Run(text, 0, "", old(State())).Raised? ==> r == Failure(Run(text, 0, "", old(State())).error)
    {
      content := text;
      var output := "";
      var index := 0;
      while index < |content|
        invariant content == text && index <= |text|
        invariant Run(text, index, output, State()) == Run(text, 0, "", old(State()))
        decreases |text| - index
      {
        RunStep(text, index, output, State());
        var emitted, next, failure := ConvertStep(index);
        if failure.Some? {
          return Failure(failure.value);
        }
        output := output + emitted;
        index := next;
      }
      return Success(output);
    }
  }
}
