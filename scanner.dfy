/**
  What the cursor primitives and the three recognizers of log4jtoslf4j.py
  compute, as functions of the text and a start offset. Each returns where
  the cursor ends up together with what was matched; the Converter class
  runs the same steps on its own fields and is proved against these.
 */
module Scanner {
  import opened Wrappers
  import opened TextOps

  /** Logger variable names, compared after lower-casing the captured token. */
  const LoggerNames: seq<string> := ["logger", "log"]

  /** Level method names, compared exactly as captured (case-sensitive). */
  const LogLevels: seq<string> := ["trace", "debug", "info", "error", "warn", "fatal"]

  /** A token captured by capture_next_token and the offset just past it. */
  datatype Token = Token(text: string, end: nat)

  /** A recognized `name . level`: the lower-cased name, the level, and the offset past the level. */
  datatype LogCall = LogCall(name: string, level: string, end: nat)

  /** What move_to_matching_paren raises: indexing past the end, or a character other than `(`. */
  datatype ScanError = IndexOutOfRange(at: nat) | ExpectedOpenParen(at: nat, found: char)

  /** Where skip_white_spaces leaves the cursor: past the run of whitespace starting at `i`. */
  function SpaceEnd(s: string, i: nat): (r: nat)
    requires i <= |s|
    ensures i <= r <= |s|
    decreases |s| - i
  {
    if i < |s| && IsSpace(s[i]) then SpaceEnd(s, i + 1) else i
  }

  /** SpaceEnd passes only whitespace and stops at the end or at a character that is not whitespace. */
  lemma {:induction false} SpaceEndSound(s: string, i: nat)
    requires i <= |s|
    ensures forall k :: i <= k < SpaceEnd(s, i) ==> IsSpace(s[k])
    ensures SpaceEnd(s, i) == |s| || !IsSpace(s[SpaceEnd(s, i)])
    decreases |s| - i
  {
    if i < |s| && IsSpace(s[i]) {
      SpaceEndSound(s, i + 1);
    }
  }

  /** The end of the run of word characters starting at `i`. */
  function WordEnd(s: string, i: nat): (r: nat)
    requires i <= |s|
    ensures i <= r <= |s|
    decreases |s| - i
  {
    if i < |s| && IsWordChar(s[i]) then WordEnd(s, i + 1) else i
  }

  /** WordEnd passes only word characters and stops at the end or at any other character. */
  lemma {:induction false} WordEndSound(s: string, i: nat)
    requires i <= |s|
    ensures forall k :: i <= k < WordEnd(s, i) ==> IsWordChar(s[k])
    ensures WordEnd(s, i) == |s| || !IsWordChar(s[WordEnd(s, i)])
    decreases |s| - i
  {
    if i < |s| && IsWordChar(s[i]) {
      WordEndSound(s, i + 1);
    }
  }

  /**
    capture_next_token: nothing at the end of the text; a lone `.` or `+`;
    otherwise the maximal, possibly empty, run of word characters.
   */
  function NextToken(s: string, i: nat): (r: Option<Token>)
    requires i <= |s|
    ensures r.None? <==> i == |s|
    ensures r.Some? ==> i <= r.value.end <= |s| && r.value.text == s[i..r.value.end]
    ensures r.Some? && s[i] in {'.', '+'} ==> r.value.end == i + 1
    ensures r.Some? && s[i] !in {'.', '+'} ==>
              (forall k :: i <= k < r.value.end ==> IsWordChar(s[k])) &&
              (r.value.end == |s| || !IsWordChar(s[r.value.end]))
  {
    if i == |s| then None
    else if s[i] == '.' || s[i] == '+' then Some(Token(s[i..i + 1], i + 1))
    else
      var end := WordEnd(s, i);
      WordEndSound(s, i);
      Some(Token(s[i..end], end))
  }

  /**
    looking_at_log_stmt: a logger name (any case), optional whitespace, a dot,
    optional whitespace, and a level (exact case), starting exactly at `i`.
    The captured tokens hold no whitespace, so the source's strip() calls on
    them change nothing and are not repeated here.
   */
  function LogStmtAt(s: string, i: nat): (r: Option<LogCall>)
    requires i <= |s|
    ensures r.Some? ==> i < r.value.end <= |s|
  {
    match NextToken(s, i)
    case None => None
    case Some(obj) =>
      var name := Lower(obj.text);
      if name !in LoggerNames then None
      else
        match NextToken(s, SpaceEnd(s, obj.end))
        case None => None
        case Some(dot) =>
          if dot.text != "." then None
          else
            match NextToken(s, SpaceEnd(s, dot.end))
            case None => None
            case Some(level) =>
              if level.text in LogLevels then Some(LogCall(name, level.text, level.end))
              else None
  }

  /**
    What LogStmtAt recognizes: a name that lower-cases to a logger name and
    a level that is not followed by another word character.
   */
  lemma LogStmtSound(s: string, i: nat)
    requires i <= |s|
    ensures LogStmtAt(s, i).Some? ==>
              var m := LogStmtAt(s, i).value;
              && m.name in LoggerNames && m.level in LogLevels
              && i + |m.name| < m.end - |m.level| && m.end <= |s|
              && Lower(s[i..i + |m.name|]) == m.name
              && s[m.end - |m.level|..m.end] == m.level
              && (m.end == |s| || !IsWordChar(s[m.end]))
  {
    if LogStmtAt(s, i).Some? {
      var m := LogStmtAt(s, i).value;
      var obj := NextToken(s, i).value;
      var a := SpaceEnd(s, obj.end);
      var dot := NextToken(s, a).value;
      var b := SpaceEnd(s, dot.end);
      var level := NextToken(s, b).value;
      assert m == LogCall(Lower(obj.text), level.text, level.end);
      assert s[a] == '.' && dot.end == a + 1;
    }
  }

  /** Between the name and the level of a recognized call: one dot, and whitespace around it. */
  lemma LogStmtDotSound(s: string, i: nat)
    requires i <= |s|
    ensures LogStmtAt(s, i).Some? ==>
              var m := LogStmtAt(s, i).value;
              exists d :: i + |m.name| <= d < m.end - |m.level| && s[d] == '.' &&
                forall k :: i + |m.name| <= k < m.end - |m.level| && k != d ==> IsSpace(s[k])
  {
    if LogStmtAt(s, i).Some? {
      var m := LogStmtAt(s, i).value;
      var obj := NextToken(s, i).value;
      var a := SpaceEnd(s, obj.end);
      var dot := NextToken(s, a).value;
      var b := SpaceEnd(s, dot.end);
      var level := NextToken(s, b).value;
      assert m == LogCall(Lower(obj.text), level.text, level.end);
      assert s[a..a + 1] == dot.text == ".";
      assert s[a] == '.' && dot.end == a + 1;
      assert level.text !in {".", "+"};
      assert s[b] !in {'.', '+'};
      SpaceEndSound(s, obj.end);
      SpaceEndSound(s, dot.end);
      forall k | i + |m.name| <= k < m.end - |m.level| && k != a
        ensures IsSpace(s[k])
      {
        if k < a {
          assert obj.end <= k;
        }
      }
    }
  }

  /** A captured token has no whitespace at either end, so strip() leaves it as it is. */
  lemma TokenUnstripped(s: string, i: nat)
    requires i < |s|
    ensures Strip(NextToken(s, i).value.text) == NextToken(s, i).value.text
  {
    var t := NextToken(s, i).value;
    if t.text != [] {
      assert t.text[0] == s[i];
      assert t.text[|t.text| - 1] == s[t.end - 1];
    }
    StripCharsNoop(t.text, Whitespace);
  }

  /** Every level is a run of word characters. */
  lemma LevelIsWord(w: string)
    requires w in LogLevels
    ensures forall k :: 0 <= k < |w| ==> IsWordChar(w[k])
  {
  }

  /**
    The converse of LogStmtAt's contract: a logger name in any case, then
    whitespace, a dot, whitespace and a level that is not followed by
    another word character, is recognized, with the name lower-cased.
   */
  lemma LogStmtRecognized(s: string, i: nat, nameEnd: nat, dot: nat, levelStart: nat, end: nat)
    requires i < nameEnd <= dot < levelStart < end <= |s|
    requires forall k :: i <= k < nameEnd ==> IsWordChar(s[k])
    requires Lower(s[i..nameEnd]) in LoggerNames
    requires forall k :: nameEnd <= k < dot ==> IsSpace(s[k])
    requires s[dot] == '.'
    requires forall k :: dot < k < levelStart ==> IsSpace(s[k])
    requires s[levelStart..end] in LogLevels
    requires end == |s| || !IsWordChar(s[end])
    ensures LogStmtAt(s, i) == Some(LogCall(Lower(s[i..nameEnd]), s[levelStart..end], end))
  {
    WordEndAt(s, i, nameEnd);
    assert NextToken(s, i) == Some(Token(s[i..nameEnd], nameEnd));
    SpaceEndAt(s, nameEnd, dot);
    assert s[dot..dot + 1] == ".";
    assert NextToken(s, dot) == Some(Token(".", dot + 1));
    SpaceEndAt(s, dot + 1, levelStart);
    var level := s[levelStart..end];
    LevelIsWord(level);
    forall k | levelStart <= k < end
      ensures IsWordChar(s[k])
    {
      assert s[k] == level[k - levelStart];
    }
    WordEndAt(s, levelStart, end);
    assert NextToken(s, levelStart) == Some(Token(level, end));
  }

  lemma {:induction false} SpaceEndAt(s: string, i: nat, j: nat)
    requires i <= j <= |s|
    requires forall k :: i <= k < j ==> IsSpace(s[k])
    requires j == |s| || !IsSpace(s[j])
    ensures SpaceEnd(s, i) == j
    decreases j - i
  {
    if i < j {
      SpaceEndAt(s, i + 1, j);
    }
  }

  lemma {:induction false} WordEndAt(s: string, i: nat, j: nat)
    requires i <= j <= |s|
    requires forall k :: i <= k < j ==> IsWordChar(s[k])
    requires j == |s| || !IsWordChar(s[j])
    ensures WordEnd(s, i) == j
    decreases j - i
  {
    if i < j {
      WordEndAt(s, i + 1, j);
    }
  }

  /** How one character moves move_to_matching_paren's counter. */
  function Nesting(c: char): int {
    if c == '(' then 1 else if c == ')' then -1 else 0
  }

  /** The counter's value after scanning s[lo..hi]. */
  function Depth(s: string, lo: nat, hi: nat): int
    requires lo <= hi <= |s|
    decreases hi
  {
    if hi == lo then 0 else Depth(s, lo, hi - 1) + Nesting(s[hi - 1])
  }

  /**
    The loop of move_to_matching_paren, entered at `i` with the counter at
    `depth`: one past the character that brings the counter to zero, or the
    end of the text.
   */
  function CloseParenEnd(s: string, i: nat, depth: int): (r: nat)
    requires i <= |s|
    ensures i <= r <= |s|
    ensures i < |s| ==> i < r
    decreases |s| - i
  {
    if i == |s| then i
    else if depth + Nesting(s[i]) == 0 then i + 1
    else CloseParenEnd(s, i + 1, depth + Nesting(s[i]))
  }

  /** move_to_matching_paren from `i`: the new offset, or what it raises. */
  function MatchingParen(s: string, i: nat): (r: Result<nat, ScanError>)
    requires i <= |s|
    ensures r.Success? ==> i < |s| && s[i] == '(' && i < r.value <= |s|
    ensures r.Failure? ==> (i == |s| || s[i] != '(') && r.error.at == i
  {
    if i == |s| then Failure(IndexOutOfRange(i))
    else if s[i] != '(' then Failure(ExpectedOpenParen(i, s[i]))
    else Success(CloseParenEnd(s, i, 0))
  }

  /**
    The paren scan from the `(` at `from` stopped at `r`: the counter stayed
    positive before `r`, and at `r` either a `)` brought it back to zero or
    the text ended with the parenthesis still open.
   */
  ghost predicate ClosesAt(s: string, from: nat, r: nat)
    requires from < r <= |s|
  {
    && (forall k :: from < k < r ==> Depth(s, from, k) >= 1)
    && ((Depth(s, from, r) == 0 && s[r - 1] == ')') || (r == |s| && Depth(s, from, r) >= 1))
  }

  lemma {:induction false} CloseParenEndFrom(s: string, from: nat, i: nat)
    requires from < i <= |s| && s[from] == '('
    requires forall k :: from < k <= i ==> Depth(s, from, k) >= 1
    ensures ClosesAt(s, from, CloseParenEnd(s, i, Depth(s, from, i)))
    decreases |s| - i
  {
    if i < |s| {
      var d := Depth(s, from, i) + Nesting(s[i]);
      assert Depth(s, from, i + 1) == d;
      if d != 0 {
        CloseParenEndFrom(s, from, i + 1);
      }
    }
  }

  /**
    move_to_matching_paren raises exactly when the cursor is not on `(`;
    otherwise it stops one past the `)` that brings the counter back to zero,
    or at the end of the text when that never happens.
   */
  lemma MatchingParenOutcome(s: string, i: nat)
    requires i <= |s|
    ensures MatchingParen(s, i).Failure? <==> i == |s| || s[i] != '('
    ensures MatchingParen(s, i).Success? ==>
              i < MatchingParen(s, i).value <= |s| && ClosesAt(s, i, MatchingParen(s, i).value)
  {
    if i < |s| && s[i] == '(' {
      assert Depth(s, i, i + 1) == 1;
      CloseParenEndFrom(s, i, i + 1);
    }
  }

  /**
    One element of a fixed regular expression: literal text, \s*, \s+, or
    .+?; (at least one character, then up to and including the first `;`).
   */
  datatype Piece = Text(t: string) | AnySpace | SomeSpace | UpToSemicolon

  /** A fixed regular expression: its pieces, in order. */
  datatype Pattern = Done | Then(piece: Piece, rest: Pattern)

  /**
    import\s+org\s*\.\s*apache\s*\.\s*log4j\s*\..+?; — each \s* and \s+ is
    followed by a character that is not whitespace, so taking all the
    whitespace is the only way to match, and the lazy .+? stops at the
    first `;` it can reach.
   */
  const ImportPattern: Pattern :=
    Then(Text("import"), Then(SomeSpace, Then(Text("org"), Then(AnySpace, Then(Text("."), ImportTailPattern)))))

  /** \s*apache\s*\.\s*log4j\s*\..+?; — the import pattern after `import org.`. */
  const ImportTailPattern: Pattern :=
    Then(AnySpace, Then(Text("apache"), Then(AnySpace, Then(Text("."), Then(AnySpace,
    Then(Text("log4j"), Then(AnySpace, Then(Text("."), Then(UpToSemicolon, Done)))))))))

  /** Logger\s*\.\s*getLogger\s* — the trailing \s* takes all the whitespace. */
  const GetLoggerPattern: Pattern :=
    Then(Text("Logger"), Then(AnySpace, Then(Text("."), Then(AnySpace, Then(Text("getLogger"), Then(AnySpace, Done))))))

  /** Where one piece, matched at `pos`, ends. */
  function PieceEnd(w: string, pos: nat, piece: Piece): (r: Option<nat>)
    requires pos <= |w|
    ensures r.Some? ==> pos <= r.value <= |w|
  {
    match piece
    case Text(t) => if StartsAt(w, pos, t) then Some(pos + |t|) else None
    case AnySpace => Some(SpaceEnd(w, pos))
    case SomeSpace => if SpaceEnd(w, pos) > pos then Some(SpaceEnd(w, pos)) else None
    case UpToSemicolon =>
      match Find(w, ';', pos + 1)
      case None => None
      case Some(k) => Some(k + 1)
  }

  /** re.match of a fixed pattern at `pos`: where the match ends, if it matches. */
  function MatchEnd(w: string, pos: nat, pattern: Pattern): (r: Option<nat>)
    requires pos <= |w|
    ensures r.Some? ==> pos <= r.value <= |w|
    decreases PieceCount(pattern), pos
  {
    match pattern
    case Done => Some(pos)
    case Then(piece, rest) =>
      match PieceEnd(w, pos, piece)
      case None => None
      case Some(e) => MatchEnd(w, e, rest)
  }

  /** s[i..j] is all whitespace. */
  predicate SpaceRun(s: string, i: nat, j: nat) {
    i <= j <= |s| && forall k :: i <= k < j ==> IsSpace(s[k])
  }

  /** Whitespace that runs up to a literal starting with anything else is all the whitespace there is. */
  lemma SpaceBefore(s: string, i: nat, j: nat, t: string)
    requires SpaceRun(s, i, j) && StartsAt(s, j, t) && t != [] && !IsSpace(t[0])
    ensures SpaceEnd(s, i) == j
  {
    assert s[j + 0] == t[0];
    SpaceEndAt(s, i, j);
  }

  /** A literal matched at `q`: the text is there, and the rest matched after it. */
  lemma TextMatched(w: string, q: nat, t: string, rest: Pattern, n: nat)
    requires q <= |w| && MatchEnd(w, q, Then(Text(t), rest)) == Some(n)
    ensures StartsAt(w, q, t) && MatchEnd(w, q + |t|, rest) == Some(n)
  {
  }

  /** The text at `q` and the rest matched after it: the literal and the rest match from `q`. */
  lemma TextThen(w: string, q: nat, t: string, rest: Pattern, n: nat)
    requires StartsAt(w, q, t) && MatchEnd(w, q + |t|, rest) == Some(n)
    ensures MatchEnd(w, q, Then(Text(t), rest)) == Some(n)
  {
  }

  /** \s* matched at `pos`: it took all the whitespace there, and the rest matched after it. */
  lemma SpaceMatched(w: string, pos: nat, rest: Pattern, n: nat)
    requires pos <= |w| && MatchEnd(w, pos, Then(AnySpace, rest)) == Some(n)
    ensures var e := SpaceEnd(w, pos);
            SpaceRun(w, pos, e) && (e == |w| || !IsSpace(w[e])) && MatchEnd(w, e, rest) == Some(n)
  {
    SpaceEndSound(w, pos);
  }

  /** \s+ matched at `pos`: as \s*, and there was whitespace at `pos`. */
  lemma SomeSpaceMatched(w: string, pos: nat, rest: Pattern, n: nat)
    requires pos <= |w| && MatchEnd(w, pos, Then(SomeSpace, rest)) == Some(n)
    ensures var e := SpaceEnd(w, pos);
            pos < e && SpaceRun(w, pos, e) && (e == |w| || !IsSpace(w[e])) && MatchEnd(w, e, rest) == Some(n)
  {
    SpaceEndSound(w, pos);
  }

  /** Whitespace from `pos` up to a literal at `q` that the rest follows: \s* and the literal match from `pos`. */
  lemma SpaceThen(w: string, pos: nat, q: nat, t: string, rest: Pattern, n: nat)
    requires SpaceRun(w, pos, q) && StartsAt(w, q, t) && t != [] && !IsSpace(t[0])
    requires MatchEnd(w, q, Then(Text(t), rest)) == Some(n)
    ensures MatchEnd(w, pos, Then(AnySpace, Then(Text(t), rest))) == Some(n)
  {
    SpaceBefore(w, pos, q, t);
  }

  /** As SpaceThen, for \s+: the run of whitespace must not be empty. */
  lemma SomeSpaceThen(w: string, pos: nat, q: nat, t: string, rest: Pattern, n: nat)
    requires pos < q && SpaceRun(w, pos, q) && StartsAt(w, q, t) && t != [] && !IsSpace(t[0])
    requires MatchEnd(w, q, Then(Text(t), rest)) == Some(n)
    ensures MatchEnd(w, pos, Then(SomeSpace, Then(Text(t), rest))) == Some(n)
  {
    SpaceBefore(w, pos, q, t);
  }

  /** A trailing \s* matched at `pos` ends where the whitespace ends. */
  lemma SpaceLast(w: string, pos: nat, n: nat)
    requires SpaceRun(w, pos, n) && (n == |w| || !IsSpace(w[n]))
    ensures MatchEnd(w, pos, Then(AnySpace, Done)) == Some(n)
  {
    SpaceEndAt(w, pos, n);
  }

  /** A trailing .+?; matched at `pos` ends just past the first `;` after pos + 1. */
  lemma SemicolonMatched(w: string, pos: nat, n: nat)
    requires pos <= |w| && MatchEnd(w, pos, Then(UpToSemicolon, Done)) == Some(n)
    ensures pos + 2 <= n && w[n - 1] == ';' && forall j :: pos + 1 <= j < n - 1 ==> w[j] != ';'
  {
    FindSound(w, ';', pos + 1);
  }

  /** The first `;` after pos + 1, at k: a trailing .+?; matched at `pos` ends just past it. */
  lemma SemicolonLast(w: string, pos: nat, k: nat)
    requires pos + 1 <= k < |w| && w[k] == ';' && forall j :: pos + 1 <= j < k ==> w[j] != ';'
    ensures MatchEnd(w, pos, Then(UpToSemicolon, Done)) == Some(k + 1)
  {
    assert ';' !in w[pos + 1..k];
    FindFirst(w, ';', pos + 1, k);
  }

  /** The number of pieces in a pattern. */
  function PieceCount(pattern: Pattern): nat {
    match pattern
    case Done => 0
    case Then(_, rest) => 1 + PieceCount(rest)
  }

  /** The fewest characters a piece can match. */
  function MinLength(piece: Piece): nat {
    match piece
    case Text(t) => |t|
    case AnySpace => 0
    case SomeSpace => 1
    case UpToSemicolon => 2
  }

  /** The fewest characters a pattern can match. */
  function MinTotal(pattern: Pattern): nat {
    match pattern
    case Done => 0
    case Then(piece, rest) => MinLength(piece) + MinTotal(rest)
  }

  /** The pattern has the piece somewhere. */
  predicate HasPiece(pattern: Pattern, piece: Piece) {
    pattern.Then? && (pattern.piece == piece || HasPiece(pattern.rest, piece))
  }

  /** The pattern's last piece. */
  predicate EndsWith(pattern: Pattern, piece: Piece) {
    pattern.Then? && if pattern.rest == Done then pattern.piece == piece else EndsWith(pattern.rest, piece)
  }

  /** A match is at least as long as the pattern's literal text and mandatory characters. */
  lemma {:induction false} MatchEndLength(w: string, pos: nat, pattern: Pattern)
    requires pos <= |w|
    ensures MatchEnd(w, pos, pattern).Some? ==> pos + MinTotal(pattern) <= MatchEnd(w, pos, pattern).value
    decreases pattern
  {
    if pattern.Then? && PieceEnd(w, pos, pattern.piece).Some? {
      MatchEndLength(w, PieceEnd(w, pos, pattern.piece).value, pattern.rest);
    }
  }

  /** Every literal piece of a matching pattern occurs in the text matched. */
  lemma {:induction false} MatchEndHasText(w: string, pos: nat, pattern: Pattern, t: string)
    requires pos <= |w| && HasPiece(pattern, Text(t))
    ensures MatchEnd(w, pos, pattern).Some? ==>
              exists p :: pos <= p && p + |t| <= MatchEnd(w, pos, pattern).value && StartsAt(w, p, t)
    decreases pattern
  {
    if MatchEnd(w, pos, pattern).Some? {
      var e := PieceEnd(w, pos, pattern.piece).value;
      if pattern.piece == Text(t) {
        assert StartsAt(w, pos, t) && e == pos + |t|;
      } else {
        MatchEndHasText(w, e, pattern.rest, t);
      }
    }
  }

  /** A pattern ending in \s* leaves no whitespace after its match. */
  lemma {:induction false} MatchEndTrailingSpace(w: string, pos: nat, pattern: Pattern)
    requires pos <= |w| && EndsWith(pattern, AnySpace)
    ensures MatchEnd(w, pos, pattern).Some? ==> MatchEnd(w, pos, pattern).value == SpaceEnd(w, MatchEnd(w, pos, pattern).value)
    decreases pattern
  {
    if MatchEnd(w, pos, pattern).Some? {
      var e := PieceEnd(w, pos, pattern.piece).value;
      if pattern.rest == Done {
        assert e == SpaceEnd(w, pos);
        SpaceEndIdempotent(w, pos);
      } else {
        MatchEndTrailingSpace(w, e, pattern.rest);
      }
    }
  }

  lemma SpaceEndIdempotent(w: string, pos: nat)
    requires pos <= |w|
    ensures SpaceEnd(w, SpaceEnd(w, pos)) == SpaceEnd(w, pos)
  {
    SpaceEndSound(w, pos);
  }

  /**
    Where the parts of an import statement sit: `org` at o, the dots at d1,
    d2 and d3, `apache` at a, `log4j` at l, and the closing `;` at k.
   */
  datatype ImportLayout = ImportLayout(o: nat, d1: nat, a: nat, d2: nat, l: nat, d3: nat, k: nat)

  /**
    The layout of an import statement the pattern matches: `import`, at
    least one whitespace character, then `org`, the dot, `apache`, the dot,
    `log4j` and the dot where `y` puts them, with only whitespace between
    them; then at least one character and the first `;` after it, at y.k,
    which ends the match.
   */
  predicate ImportShape(w: string, y: ImportLayout) {
    && StartsAt(w, 0, "import") && 6 < y.o && SpaceRun(w, 6, y.o)
    && StartsAt(w, y.o, "org") && SpaceRun(w, y.o + 3, y.d1)
    && StartsAt(w, y.d1, ".") && SpaceRun(w, y.d1 + 1, y.a)
    && StartsAt(w, y.a, "apache") && SpaceRun(w, y.a + 6, y.d2)
    && StartsAt(w, y.d2, ".") && SpaceRun(w, y.d2 + 1, y.l)
    && StartsAt(w, y.l, "log4j") && SpaceRun(w, y.l + 5, y.d3)
    && StartsAt(w, y.d3, ".")
    && y.d3 + 2 <= y.k < |w| && w[y.k] == ';' && (forall j :: y.d3 + 2 <= j < y.k ==> w[j] != ';')
  }

  /** A match of the import pattern has the import layout, ending just past its `;`. */
  lemma ImportMatchHasShape(w: string, e: nat)
    requires MatchEnd(w, 0, ImportPattern) == Some(e)
    ensures exists y :: ImportShape(w, y) && e == y.k + 1
  {
    var o, d1 := ImportHeadHasShape(w, e);
    var a, d2, l, d3 := ImportTailHasShape(w, d1, e);
    assert ImportShape(w, ImportLayout(o, d1, a, d2, l, d3, e - 1));
  }

  /** An import match starts with `import`, whitespace, `org` at o and the dot at d1. */
  lemma ImportHeadHasShape(w: string, e: nat) returns (o: nat, d1: nat)
    requires MatchEnd(w, 0, ImportPattern) == Some(e)
    ensures StartsAt(w, 0, "import") && 6 < o && SpaceRun(w, 6, o)
    ensures StartsAt(w, o, "org") && SpaceRun(w, o + 3, d1) && StartsAt(w, d1, ".")
    ensures d1 + 1 <= |w| && MatchEnd(w, d1 + 1, ImportTailPattern) == Some(e)
  {
    var p := ImportPattern;
    TextMatched(w, 0, "import", p.rest, e);
    SomeSpaceMatched(w, 6, p.rest.rest, e);
    o := SpaceEnd(w, 6);
    TextMatched(w, o, "org", p.rest.rest.rest, e);
    SpaceMatched(w, o + 3, p.rest.rest.rest.rest, e);
    d1 := SpaceEnd(w, o + 3);
    TextMatched(w, d1, ".", ImportTailPattern, e);
  }

  /** The part of an import match after `org.` (the dot at d1) has the import layout. */
  lemma ImportTailHasShape(w: string, d1: nat, e: nat) returns (a: nat, d2: nat, l: nat, d3: nat)
    requires d1 + 1 <= |w| && MatchEnd(w, d1 + 1, ImportTailPattern) == Some(e)
    ensures SpaceRun(w, d1 + 1, a) && StartsAt(w, a, "apache") && SpaceRun(w, a + 6, d2)
    ensures StartsAt(w, d2, ".") && SpaceRun(w, d2 + 1, l)
    ensures StartsAt(w, l, "log4j") && SpaceRun(w, l + 5, d3) && StartsAt(w, d3, ".")
    ensures d3 + 3 <= e && w[e - 1] == ';' && forall j :: d3 + 2 <= j < e - 1 ==> w[j] != ';'
  {
    var q := ImportTailPattern;
    SpaceMatched(w, d1 + 1, q.rest, e);
    a := SpaceEnd(w, d1 + 1);
    TextMatched(w, a, "apache", q.rest.rest, e);
    SpaceMatched(w, a + 6, q.rest.rest.rest, e);
    d2 := SpaceEnd(w, a + 6);
    TextMatched(w, d2, ".", q.rest.rest.rest.rest, e);
    l, d3 := Log4jHasShape(w, d2 + 1, e);
  }

  /** The part of an import match after `apache.` (the dot at d2 = pos - 1): `log4j`, the dot, and the `;`. */
  lemma Log4jHasShape(w: string, pos: nat, e: nat) returns (l: nat, d3: nat)
    requires pos <= |w| && MatchEnd(w, pos, ImportTailPattern.rest.rest.rest.rest) == Some(e)
    ensures SpaceRun(w, pos, l) && StartsAt(w, l, "log4j") && SpaceRun(w, l + 5, d3) && StartsAt(w, d3, ".")
    ensures d3 + 3 <= e && w[e - 1] == ';' && forall j :: d3 + 2 <= j < e - 1 ==> w[j] != ';'
  {
    var q := ImportTailPattern.rest.rest.rest.rest;
    SpaceMatched(w, pos, q.rest, e);
    l := SpaceEnd(w, pos);
    TextMatched(w, l, "log4j", q.rest.rest, e);
    SpaceMatched(w, l + 5, q.rest.rest.rest, e);
    d3 := SpaceEnd(w, l + 5);
    TextMatched(w, d3, ".", Then(UpToSemicolon, Done), e);
    SemicolonMatched(w, d3 + 1, e);
  }

  /** Text with the import layout matches the pattern, up to just past its `;`. */
  lemma ShapeMatchesImport(w: string, y: ImportLayout)
    requires ImportShape(w, y)
    ensures MatchEnd(w, 0, ImportPattern) == Some(y.k + 1)
  {
    var p := ImportPattern;
    var e := y.k + 1;
    ShapeMatchesImportTail(w, y.d1, y.a, y.d2, y.l, y.d3, y.k);
    TextThen(w, y.d1, ".", ImportTailPattern, e);
    SpaceThen(w, y.o + 3, y.d1, ".", ImportTailPattern, e);
    TextThen(w, y.o, "org", p.rest.rest.rest, e);
    SomeSpaceThen(w, 6, y.o, "org", p.rest.rest.rest, e);
    TextThen(w, 0, "import", p.rest, e);
  }

  /** From just past `org.` on, text with the import layout matches the rest of the pattern. */
  lemma ShapeMatchesImportTail(w: string, d1: nat, a: nat, d2: nat, l: nat, d3: nat, k: nat)
    requires SpaceRun(w, d1 + 1, a) && StartsAt(w, a, "apache") && SpaceRun(w, a + 6, d2)
    requires StartsAt(w, d2, ".") && SpaceRun(w, d2 + 1, l)
    requires StartsAt(w, l, "log4j") && SpaceRun(w, l + 5, d3) && StartsAt(w, d3, ".")
    requires d3 + 2 <= k < |w| && w[k] == ';' && forall j :: d3 + 2 <= j < k ==> w[j] != ';'
    ensures MatchEnd(w, d1 + 1, ImportTailPattern) == Some(k + 1)
  {
    var q := ImportTailPattern;
    ShapeMatchesLog4j(w, d2 + 1, l, d3, k);
    TextThen(w, d2, ".", q.rest.rest.rest.rest, k + 1);
    SpaceThen(w, a + 6, d2, ".", q.rest.rest.rest.rest, k + 1);
    TextThen(w, a, "apache", q.rest.rest, k + 1);
    SpaceThen(w, d1 + 1, a, "apache", q.rest.rest, k + 1);
  }

  /** From just past `apache.` on, `log4j`, the dot and the first `;` match the rest of the pattern. */
  lemma ShapeMatchesLog4j(w: string, pos: nat, l: nat, d3: nat, k: nat)
    requires SpaceRun(w, pos, l) && StartsAt(w, l, "log4j") && SpaceRun(w, l + 5, d3) && StartsAt(w, d3, ".")
    requires d3 + 2 <= k < |w| && w[k] == ';' && forall j :: d3 + 2 <= j < k ==> w[j] != ';'
    ensures MatchEnd(w, pos, ImportTailPattern.rest.rest.rest.rest) == Some(k + 1)
  {
    var q := ImportTailPattern.rest.rest.rest.rest;
    SemicolonLast(w, d3 + 1, k);
    TextThen(w, d3, ".", Then(UpToSemicolon, Done), k + 1);
    SpaceThen(w, l + 5, d3, ".", Then(UpToSemicolon, Done), k + 1);
    TextThen(w, l, "log4j", q.rest.rest, k + 1);
    SpaceThen(w, pos, l, "log4j", q.rest.rest, k + 1);
  }

  /**
    import\s+org\s*\.\s*apache\s*\.\s*log4j\s*\..+?; matches `w` from its
    start up to `e` exactly when `w` has the import layout with its `;` at
    e - 1: the whitespace before each literal must run up to it, and the
    lazy .+? stops at the first `;`.
   */
  lemma ImportMatchShape(w: string, e: nat)
    ensures MatchEnd(w, 0, ImportPattern) == Some(e) <==> exists y :: ImportShape(w, y) && e == y.k + 1
  {
    if MatchEnd(w, 0, ImportPattern) == Some(e) {
      ImportMatchHasShape(w, e);
    } else {
      ImportShapeMatches(w, e);
    }
  }

  /** Some import layout with its `;` at e - 1: the pattern matches up to e. */
  lemma ImportShapeMatches(w: string, e: nat)
    ensures (exists y :: ImportShape(w, y) && e == y.k + 1) ==> MatchEnd(w, 0, ImportPattern) == Some(e)
  {
    if exists y :: ImportShape(w, y) && e == y.k + 1 {
      var y :| ImportShape(w, y) && e == y.k + 1;
      ShapeMatchesImport(w, y);
    }
  }

  /** The import pattern matched at the start of `w`. */
  predicate MatchesImportPattern(w: string) {
    MatchEnd(w, 0, ImportPattern).Some?
  }

  /**
    looking_at_import_stmt: `import` exactly at `i`, and the text up to and
    including the first later `;` matching the import pattern; the new
    offset is just past that `;`.
   */
  function ImportStmtAt(s: string, i: nat): (r: Option<nat>)
    requires i <= |s|
    ensures r.Some? ==> i < r.value <= |s|
  {
    if !StartsAt(s, i, "import") then None
    else
      match Find(s, ';', i)
      case None => None
      case Some(k) => if MatchesImportPattern(s[i..k + 1]) then Some(k + 1) else None
  }

  /** With `import` at `i` and the first `;` after it at `k`, the match decides. */
  lemma ImportStmtAtSemicolon(s: string, i: nat, k: nat)
    requires i <= |s| && StartsAt(s, i, "import") && Find(s, ';', i) == Some(k)
    ensures ImportStmtAt(s, i) == if MatchesImportPattern(s[i..k + 1]) then Some(k + 1) else None
  {
  }

  /**
    What ImportStmtAt recognizes: the text from `import` up to and including
    the first `;` after it, which matches the import pattern.
   */
  lemma ImportStmtSound(s: string, i: nat)
    requires i <= |s|
    ensures ImportStmtAt(s, i).Some? ==>
              var r := ImportStmtAt(s, i).value;
              && StartsAt(s, i, "import") && s[r - 1] == ';'
              && (forall k :: i <= k < r - 1 ==> s[k] != ';')
              && MatchesImportPattern(s[i..r])
  {
    FindSound(s, ';', i);
  }

  /**
    ImportStmtAt fails exactly when `import` is not at `i`, there is no `;`
    after it, or the text up to the first `;` does not match.
   */
  lemma ImportStmtFails(s: string, i: nat)
    requires i <= |s|
    ensures ImportStmtAt(s, i).None? <==>
              || !StartsAt(s, i, "import")
              || Find(s, ';', i).None?
              || !MatchesImportPattern(s[i..Find(s, ';', i).value + 1])
  {
  }

  /** The getLogger pattern matched at the start of `w`: the length of the match. */
  function GetLoggerPrefix(w: string): Option<nat> {
    MatchEnd(w, 0, GetLoggerPattern)
  }

  /**
    The layout of a getLogger match ending at n: `Logger`, whitespace up to
    the dot at a, whitespace up to `getLogger` at b, and then all the
    whitespace that follows, since the last \s* is greedy.
   */
  predicate GetLoggerShape(w: string, a: nat, b: nat, n: nat) {
    && StartsAt(w, 0, "Logger") && SpaceRun(w, 6, a)
    && StartsAt(w, a, ".") && SpaceRun(w, a + 1, b)
    && StartsAt(w, b, "getLogger") && SpaceRun(w, b + 9, n)
    && (n == |w| || !IsSpace(w[n]))
  }

  /** A getLogger match has the getLogger layout. */
  lemma GetLoggerMatchHasShape(w: string, n: nat)
    requires GetLoggerPrefix(w) == Some(n)
    ensures exists a: nat, b: nat :: GetLoggerShape(w, a, b, n)
  {
    var p := GetLoggerPattern;
    var a := GetLoggerHeadHasShape(w, n);
    SpaceMatched(w, a + 1, p.rest.rest.rest.rest, n);
    var b := SpaceEnd(w, a + 1);
    TextMatched(w, b, "getLogger", p.rest.rest.rest.rest.rest, n);
    SpaceMatched(w, b + 9, Done, n);
    assert GetLoggerShape(w, a, b, n);
  }

  /** A getLogger match starts with `Logger`, whitespace and the dot at a. */
  lemma GetLoggerHeadHasShape(w: string, n: nat) returns (a: nat)
    requires GetLoggerPrefix(w) == Some(n)
    ensures StartsAt(w, 0, "Logger") && SpaceRun(w, 6, a) && StartsAt(w, a, ".")
    ensures a + 1 <= |w| && MatchEnd(w, a + 1, GetLoggerPattern.rest.rest.rest) == Some(n)
  {
    var p := GetLoggerPattern;
    TextMatched(w, 0, "Logger", p.rest, n);
    SpaceMatched(w, 6, p.rest.rest, n);
    a := SpaceEnd(w, 6);
    TextMatched(w, a, ".", p.rest.rest.rest, n);
  }

  /** Text with the getLogger layout ending at n matches up to n. */
  lemma ShapeMatchesGetLogger(w: string, a: nat, b: nat, n: nat)
    requires GetLoggerShape(w, a, b, n)
    ensures GetLoggerPrefix(w) == Some(n)
  {
    var p := GetLoggerPattern;
    SpaceLast(w, b + 9, n);
    TextThen(w, b, "getLogger", p.rest.rest.rest.rest.rest, n);
    SpaceThen(w, a + 1, b, "getLogger", p.rest.rest.rest.rest.rest, n);
    TextThen(w, a, ".", p.rest.rest.rest, n);
    SpaceThen(w, 6, a, ".", p.rest.rest.rest, n);
    TextThen(w, 0, "Logger", p.rest, n);
  }

  /**
    Logger\s*\.\s*getLogger\s* matches the start of `w` up to n exactly when
    `w` has the getLogger layout ending at n.
   */
  lemma GetLoggerPrefixShape(w: string, n: nat)
    ensures GetLoggerPrefix(w) == Some(n) <==> exists a: nat, b: nat :: GetLoggerShape(w, a, b, n)
  {
    if GetLoggerPrefix(w) == Some(n) {
      GetLoggerMatchHasShape(w, n);
    }
    if exists a: nat, b: nat :: GetLoggerShape(w, a, b, n) {
      var a: nat, b: nat :| GetLoggerShape(w, a, b, n);
      ShapeMatchesGetLogger(w, a, b, n);
    }
  }

  /**
    A getLogger match starts with `Logger`, is at least as long as
    `Logger.getLogger`, and takes the whitespace after it.
   */
  lemma GetLoggerPrefixSound(w: string)
    ensures GetLoggerPrefix(w).Some? ==>
              var r := GetLoggerPrefix(w).value;
              && |"Logger.getLogger"| <= r <= |w|
              && StartsAt(w, 0, "Logger")
              && r == SpaceEnd(w, r)
  {
    MatchEndLength(w, 0, GetLoggerPattern);
    MatchEndTrailingSpace(w, 0, GetLoggerPattern);
  }

  /**
    looking_at_get_logger_stmt: the getLogger pattern matched at `i` within
    the text before the next `(`; the new offset is past the match,
    trailing whitespace included, and never past that `(`.
   */
  function GetLoggerAt(s: string, i: nat): (r: Option<nat>)
    requires i <= |s|
    ensures r.Some? ==> i < r.value <= |s|
  {
    match Find(s, '(', i)
    case None => None
    case Some(p) =>
      match GetLoggerPrefix(s[i..p])
      case None => None
      case Some(n) =>
        GetLoggerPrefixSound(s[i..p]);
        Some(i + n)
  }

  /**
    What GetLoggerAt recognizes: `Logger` at `i`, at least as long as
    `Logger.getLogger`, and ending at or before the next `(`.
   */
  lemma GetLoggerSound(s: string, i: nat)
    requires i <= |s|
    ensures GetLoggerAt(s, i).Some? ==>
              && StartsAt(s, i, "Logger") && i + |"Logger.getLogger"| <= GetLoggerAt(s, i).value
              && Find(s, '(', i).Some? && GetLoggerAt(s, i).value <= Find(s, '(', i).value
  {
    if GetLoggerAt(s, i).Some? {
      var p := Find(s, '(', i).value;
      GetLoggerPrefixSound(s[i..p]);
      assert s[i..p][0..6] == s[i..i + 6];
    }
  }
}
