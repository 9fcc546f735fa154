/**
  The argument rewriting of convert_log_args and is_balanced: a log call's
  argument text `"a" + x + "b"` becomes the placeholder form `("a{}b", x)`,
  unless it has no `+` or one of its `+`-parts is unbalanced, in which case
  it is passed through stripped and re-parenthesized.
 */
module ArgConversion {
  import opened Wrappers
  import opened TextOps
  import opened Scanner

  const Opening: set<char> := {'[', '<', '(', '{'}
  const Closing: set<char> := {']', '>', ')', '}'}
  const Quote: set<char> := {'"'}

  /**
    is_balanced: as many opening as closing brackets of any kind, in any
    order, and an even number of double quotes. The source's escape flag is
    never set, so a backslash changes nothing.
   */
  predicate Balanced(t: string) {
    Count(t, Opening) == Count(t, Closing) && Count(t, Quote) % 2 == 0
  }

  /** is_balanced, with its counting loop. */
  method IsBalanced(input: string) returns (balanced: bool)
    ensures balanced == Balanced(input)
  {
    var index := 0;
    var count := 0;
    var countQuotes := 0;
    while index < |input|
      invariant 0 <= index <= |input|
      invariant count == Count(input[..index], Opening) - Count(input[..index], Closing)
      invariant countQuotes == Count(input[..index], Quote)
    {
      assert input[..index + 1][..index] == input[..index];
      if input[index] in Opening {
        count := count + 1;
      } else if input[index] in Closing {
        count := count - 1;
      } else if input[index] == '"' {
        countQuotes := countQuotes + 1;
      }
      index := index + 1;
    }
    assert input[..index] == input;
    balanced := count == 0 && countQuotes % 2 == 0;
  }

  /** Brackets are counted, not matched: the order of two pieces does not matter. */
  lemma BalancedIgnoresOrder(a: string, b: string)
    ensures Balanced(a + b) == Balanced(b + a)
  {
    CountAppend(a, b, Opening);
    CountAppend(b, a, Opening);
    CountAppend(a, b, Closing);
    CountAppend(b, a, Closing);
    CountAppend(a, b, Quote);
    CountAppend(b, a, Quote);
  }

  /** A backslash escapes nothing: inserting one anywhere leaves the verdict unchanged. */
  lemma BalancedIgnoresBackslash(a: string, b: string)
    ensures Balanced(a + "\\" + b) == Balanced(a + b)
  {
    CountAppend(a, "\\", Opening);
    CountAppend(a + "\\", b, Opening);
    CountAppend(a, b, Opening);
    CountAppend(a, "\\", Closing);
    CountAppend(a + "\\", b, Closing);
    CountAppend(a, b, Closing);
    CountAppend(a, "\\", Quote);
    CountAppend(a + "\\", b, Quote);
    CountAppend(a, b, Quote);
  }

  /** A stripped `+`-part that starts with a double quote is a string-literal fragment. */
  predicate IsLiteralPart(x: string) {
    |x| > 0 && x[0] == '"'
  }

  /** What one stripped part adds to the format string. */
  function Fragment(x: string): string {
    if IsLiteralPart(x) then StripChars(x, Quote) else "{}"
  }

  /** The format string built from the parts, in order. */
  function FormatOf(parts: seq<string>): string
  {
    if parts == [] then ""
    else FormatOf(parts[..|parts| - 1]) + Fragment(Strip(parts[|parts| - 1]))
  }

  /**
    The argument list built from the parts, in order: each non-literal
    stripped part, with `, ` before it whenever the list built so far is
    non-empty.
   */
  function ArgsOf(parts: seq<string>): string
  {
    if parts == [] then ""
    else ArgsAppend(ArgsOf(parts[..|parts| - 1]), Strip(parts[|parts| - 1]))
  }

  /** The argument list after one more stripped part. */
  function ArgsAppend(args: string, x: string): string {
    if IsLiteralPart(x) then args
    else if |args| > 0 then args + ", " + x
    else args + x
  }

  predicate AllBalanced(parts: seq<string>) {
    forall k :: 0 <= k < |parts| ==> Balanced(Strip(parts[k]))
  }

  /**
    The text between a log call's parentheses, rewritten: passed through
    (stripped) when it has no `+` or when a part is unbalanced, otherwise
    a quoted format string followed by the arguments.
   */
  function ConvertedArgs(logArgs: string): (r: string)
  {
    var stripped := Strip(logArgs);
    var parts := Split(stripped, '+');
    if |parts| == 1 || !AllBalanced(parts) then "(" + stripped + ")"
    else "(\"" + FormatOf(parts) + "\", " + ArgsOf(parts) + ")"
  }

  /**
    The rewritten argument list is always wrapped in one pair of parentheses,
    and between them is either the stripped text as it was or a rewrite in
    which no `+` concatenation is left.
   */
  lemma ConvertedArgsParenthesized(logArgs: string)
    ensures var r := ConvertedArgs(logArgs);
            && |r| >= 2 && r[0] == '(' && r[|r| - 1] == ')'
            && (r[1..|r| - 1] == Strip(logArgs) || '+' !in r[1..|r| - 1])
  {
    var parts := Split(Strip(logArgs), '+');
    var r := ConvertedArgs(logArgs);
    if |parts| == 1 || !AllBalanced(parts) {
      assert r[1..|r| - 1] == Strip(logArgs);
    } else {
      ConvertedForm(logArgs);
      RewrittenInner(FormatOf(parts), ArgsOf(parts));
      NoPlusInRewrite(parts);
    }
  }

  /** The loop of convert_log_args over the `+`-parts of the argument text. */
  method RewriteArgs(rawArgs: string) returns (r: string)
    ensures r == ConvertedArgs(rawArgs)
  {
    var logArgs := Strip(rawArgs);
    var split := Split(logArgs, '+');
    if |split| == 1 {
      return "(" + logArgs + ")";
    }
    var formatString := "";
    var args := "";
    for k := 0 to |split|
      invariant formatString == FormatOf(split[..k])
      invariant args == ArgsOf(split[..k])
      invariant forall j :: 0 <= j < k ==> Balanced(Strip(split[j]))
    {
      RewriteStep(split, k);
      var x := Strip(split[k]);
      var ok := IsBalanced(x);
      if !ok {
        assert !AllBalanced(split);
        return "(" + logArgs + ")";
      }
      assert Balanced(Strip(split[k]));
      if IsLiteralPart(x) {
        formatString := formatString + StripChars(x, Quote);
      } else {
        formatString := formatString + "{}";
        if |args| > 0 {
          args := args + ", ";
        }
        args := args + x;
      }
    }
    assert split[..|split|] == split;
    assert AllBalanced(split);
    return "(\"" + formatString + "\", " + args + ")";
  }

  /** FormatOf, ArgsOf and AllBalanced extended by one part. */
  lemma RewriteStep(parts: seq<string>, k: nat)
    requires k < |parts|
    ensures FormatOf(parts[..k + 1]) == FormatOf(parts[..k]) + Fragment(Strip(parts[k]))
    ensures ArgsOf(parts[..k + 1]) == ArgsAppend(ArgsOf(parts[..k]), Strip(parts[k]))
  {
    assert parts[..k + 1][..k] == parts[..k];
    assert parts[..k + 1][k] == parts[k];
  }

  /** Argument text without `+` is taken to be in placeholder style already and kept as it is, stripped. */
  lemma PlaceholderStyleKept(logArgs: string)
    requires '+' !in Strip(logArgs)
    ensures ConvertedArgs(logArgs) == "(" + Strip(logArgs) + ")"
  {
    SplitSingle(Strip(logArgs), '+');
  }

  /** One unbalanced part abandons the conversion: the text is kept, stripped, with nothing lost. */
  lemma UnbalancedPartKept(logArgs: string, k: nat)
    requires k < |Split(Strip(logArgs), '+')|
    requires !Balanced(Strip(Split(Strip(logArgs), '+')[k]))
    ensures ConvertedArgs(logArgs) == "(" + Strip(logArgs) + ")"
  {
  }

  /** The expression parts, stripped, in their original order. */
  function Expressions(parts: seq<string>): seq<string>
  {
    if parts == [] then []
    else
      var x := Strip(parts[|parts| - 1]);
      Expressions(parts[..|parts| - 1]) + (if IsLiteralPart(x) then [] else [x])
  }

  /**
    When no expression part is empty, the argument list is exactly the
    expression parts in their original order, separated by `, `.
   */
  lemma {:induction false} ArgsAreExpressionsInOrder(parts: seq<string>)
    requires forall k :: 0 <= k < |parts| ==> Strip(parts[k]) != []
    ensures ArgsOf(parts) == Join(Expressions(parts), ", ")
    ensures ArgsOf(parts) == [] <==> Expressions(parts) == []
  {
    if parts != [] {
      var init := parts[..|parts| - 1];
      ArgsAreExpressionsInOrder(init);
      var es := Expressions(init);
      var x := Strip(parts[|parts| - 1]);
      if IsLiteralPart(x) {
        assert Expressions(parts) == es + [] == es;
      } else {
        assert Expressions(parts) == es + [x];
        assert (es + [x])[..|es|] == es;
      }
    }
  }

  /** No `+` survives into the format string or the argument list. */
  lemma {:induction false} NoPlusInRewrite(parts: seq<string>)
    requires forall k :: 0 <= k < |parts| ==> '+' !in parts[k]
    ensures '+' !in FormatOf(parts) && '+' !in ArgsOf(parts)
  {
    if parts != [] {
      var init := parts[..|parts| - 1];
      NoPlusInRewrite(init);
      var last := parts[|parts| - 1];
      StripCharsKeepsAbsent(last, Whitespace, '+');
      StripCharsKeepsAbsent(Strip(last), Quote, '+');
    }
  }

  /**
    Whether re-running the conversion on its own output reproduces it: true
    unless the text was converted and the argument list is empty or ends in
    whitespace (all parts string literals, or an empty expression part).
   */
  predicate Reconvertible(logArgs: string) {
    var parts := Split(Strip(logArgs), '+');
    var args := ArgsOf(parts);
    |parts| == 1 || !AllBalanced(parts) || (|args| > 0 && !IsSpace(args[|args| - 1]))
  }

  /**
    Converting the text between the parentheses of a converted call again
    changes nothing, whenever the first conversion is Reconvertible.
   */
  lemma {:induction false} ConversionIdempotent(logArgs: string)
    requires Reconvertible(logArgs)
    ensures var r := ConvertedArgs(logArgs); |r| >= 2 && ConvertedArgs(r[1..|r| - 1]) == r
  {
    var stripped := Strip(logArgs);
    var parts := Split(stripped, '+');
    var r := ConvertedArgs(logArgs);
    if |parts| == 1 || !AllBalanced(parts) {
      assert r[1..|r| - 1] == stripped;
      StripCharsIdempotent(logArgs, Whitespace);
    } else {
      var fmt := FormatOf(parts);
      var args := ArgsOf(parts);
      var inner := "\"" + fmt + "\", " + args;
      assert r == "(" + inner + ")";
      assert r[1..|r| - 1] == inner;
      assert inner[0] == '"';
      assert inner[|inner| - 1] == args[|args| - 1];
      StripCharsNoop(inner, Whitespace);
      NoPlusInRewrite(parts);
      assert '+' !in inner;
      SplitSingle(inner, '+');
    }
  }

  /** Text without `+` that ends in whitespace is not its own conversion: the whitespace is stripped. */
  lemma TrailingSpaceStripped(t: string)
    requires t != [] && IsSpace(t[|t| - 1]) && '+' !in t
    ensures ConvertedArgs(t) != "(" + t + ")"
  {
    StripCharsKeepsAbsent(t, Whitespace, '+');
    PlaceholderStyleKept(t);
    var c := ConvertedArgs(t);
    assert c[1..|c| - 1] == Strip(t);
    StripCharsEnds(t, Whitespace);
    SpaceIsWhitespace(t[|t| - 1]);
    assert Strip(t) != t;
  }

  /** When every part is balanced and there are several, the list is rewritten. */
  lemma ConvertedForm(logArgs: string)
    requires var parts := Split(Strip(logArgs), '+'); |parts| > 1 && AllBalanced(parts)
    ensures var parts := Split(Strip(logArgs), '+');
            ConvertedArgs(logArgs) == "(" + ("\"" + FormatOf(parts) + "\", " + ArgsOf(parts)) + ")"
  {
    var parts := Split(Strip(logArgs), '+');
    var inner := "\"" + FormatOf(parts) + "\", " + ArgsOf(parts);
    assert "(\"" + FormatOf(parts) + "\", " + ArgsOf(parts) + ")" == "(" + inner + ")";
  }

  /** The text between the parentheses of a rewritten list, with what its last character is. */
  lemma RewrittenInner(fmt: string, args: string)
    ensures var inner := "\"" + fmt + "\", " + args;
            var r := "(" + inner + ")";
            && r[1..|r| - 1] == inner
            && inner[|inner| - 1] == (if args == [] then ' ' else args[|args| - 1])
            && ('+' !in fmt && '+' !in args ==> '+' !in inner)
  {
    var inner := "\"" + fmt + "\", " + args;
    assert ("(" + inner + ")")[1..|inner| + 1] == inner;
  }

  /**
    The converse: when the text was converted and its argument list is empty
    or ends in whitespace, converting the output again strips that
    whitespace and so changes the output.
   */
  lemma NotReconvertibleChanges(logArgs: string)
    requires !Reconvertible(logArgs)
    ensures var r := ConvertedArgs(logArgs); ConvertedArgs(r[1..|r| - 1]) != r
  {
    var parts := Split(Strip(logArgs), '+');
    var fmt, args := FormatOf(parts), ArgsOf(parts);
    var inner := "\"" + fmt + "\", " + args;
    ConvertedForm(logArgs);
    var r := ConvertedArgs(logArgs);
    assert r == "(" + inner + ")";
    RewrittenInner(fmt, args);
    assert r[1..|r| - 1] == inner;
    NoPlusInRewrite(parts);
    assert '+' !in inner;
    assert IsSpace(inner[|inner| - 1]);
    TrailingSpaceStripped(inner);
  }

  /** The outcome of convert_log_args: the rewritten list and the offset past it, or what it raised and where. */
  datatype ArgsOutcome = ArgsConverted(text: string, end: nat) | ArgsRaised(error: ScanError, at: nat)

  /**
    convert_log_args from offset `i`: skip whitespace, find the matching
    parenthesis, and rewrite the text between the `(` and the character
    before the stopping offset. When the parenthesis is never closed, that
    character is the last one of the text, and it is dropped.
   */
  function LogArgsAt(s: string, i: nat): (r: ArgsOutcome)
    requires i <= |s|
    ensures r.ArgsConverted? ==> i < r.end <= |s|
    ensures r.ArgsRaised? ==> r.at == SpaceEnd(s, i) && (r.at == |s| || s[r.at] != '(')
  {
    var open := SpaceEnd(s, i);
    match MatchingParen(s, open)
    case Failure(e) => ArgsRaised(e, open)
    case Success(end) => ArgsConverted(ConvertedArgs(Slice(s, open + 1, end - 1)), end)
  }
}
