/**
  The Python string built-ins the converter relies on (str.isspace,
  str.isalnum, str.lower, str.strip, str.find, str.split and slicing),
  restricted to ASCII characters and written out as functions.
 */
module TextOps {
  import opened Wrappers

  /** The characters for which Python's str.isspace() holds, among the ASCII ones. */
  const Whitespace: set<char> :=
    {' ', '\t', '\n', '\r', '\U{B}', '\U{C}', '\U{1C}', '\U{1D}', '\U{1E}', '\U{1F}'}

  /** str.isspace() on one ASCII character: tab to carriage return, the four separators, and space. */
  predicate IsSpace(c: char) {
    ('\t' <= c <= '\r') || ('\U{1C}' <= c <= ' ')
  }

  /** IsSpace and the Whitespace set that strip() removes agree. */
  lemma SpaceIsWhitespace(c: char)
    ensures IsSpace(c) <==> c in Whitespace
  {
  }

  /** A character that capture_next_token keeps in a word: alphanumeric or underscore. */
  predicate IsWordChar(c: char) {
    ('a' <= c <= 'z') || ('A' <= c <= 'Z') || ('0' <= c <= '9') || c == '_'
  }

  function LowerChar(c: char): (r: char)
    ensures 'A' <= c <= 'Z' ==> r as int == c as int + 32
    ensures !('A' <= c <= 'Z') ==> r == c
  {
    if 'A' <= c <= 'Z' then (c as int + 32) as char else c
  }

  /** str.lower() on ASCII text. */
  function Lower(s: string): (r: string)
    ensures |r| == |s|
    ensures forall k :: 0 <= k < |s| ==> r[k] == LowerChar(s[k])
  {
    seq(|s|, k requires 0 <= k < |s| => LowerChar(s[k]))
  }

  /** Lower-cased text holds no upper-case letter. */
  lemma LowerHasNoUpper(s: string)
    ensures forall k :: 0 <= k < |Lower(s)| ==> !('A' <= Lower(s)[k] <= 'Z')
  {
  }

  /** Lower-casing twice is lower-casing once. */
  lemma LowerIdempotent(s: string)
    ensures Lower(Lower(s)) == Lower(s)
  {
    LowerHasNoUpper(s);
  }

  /** The two texts spell the same letters, each position possibly in the other ASCII case. */
  predicate SameIgnoringCase(a: string, b: string) {
    && |a| == |b|
    && forall k :: 0 <= k < |a| ==>
         || a[k] == b[k]
         || ('A' <= a[k] <= 'Z' && b[k] as int == a[k] as int + 32)
         || ('A' <= b[k] <= 'Z' && a[k] as int == b[k] as int + 32)
  }

  /** Two texts lower-case to the same text exactly when they differ only in ASCII case. */
  lemma LowerMatchesIgnoringCase(a: string, b: string)
    ensures Lower(a) == Lower(b) <==> SameIgnoringCase(a, b)
  {
    if Lower(a) == Lower(b) {
      forall k | 0 <= k < |a|
        ensures || a[k] == b[k]
                || ('A' <= a[k] <= 'Z' && b[k] as int == a[k] as int + 32)
                || ('A' <= b[k] <= 'Z' && a[k] as int == b[k] as int + 32)
      {
        assert Lower(a)[k] == Lower(b)[k];
      }
    }
    if SameIgnoringCase(a, b) {
      assert forall k :: 0 <= k < |a| ==> Lower(a)[k] == Lower(b)[k];
    }
  }

  /** `w` occurs in `s` starting exactly at index `i`. */
  predicate StartsAt(s: string, i: nat, w: string) {
    i + |w| <= |s| && forall k :: 0 <= k < |w| ==> s[i + k] == w[k]
  }

  /** Python's s[a:b] for in-range bounds: empty when b < a. */
  function Slice(s: string, a: nat, b: nat): (r: string)
    requires a <= |s| && b <= |s|
    ensures a <= b ==> r == s[a..b]
    ensures b < a ==> r == []
  {
    if a <= b then s[a..b] else []
  }

  /** s.find(c, from): the first index at or after `from` that holds `c`. */
  function Find(s: string, c: char, from: nat): (r: Option<nat>)
    ensures r.Some? ==> from <= r.value < |s| && s[r.value] == c
    decreases |s| - from
  {
    if from >= |s| then None
    else if s[from] == c then Some(from)
    else Find(s, c, from + 1)
  }

  /** Find returns the first occurrence: no `c` lies between `from` and what it returns. */
  lemma {:induction false} FindSound(s: string, c: char, from: nat)
    ensures Find(s, c, from).Some? ==> forall k :: from <= k < Find(s, c, from).value ==> s[k] != c
    ensures Find(s, c, from).None? ==> forall k :: from <= k < |s| ==> s[k] != c
    decreases |s| - from
  {
    if from < |s| && s[from] != c {
      FindSound(s, c, from + 1);
    }
  }

  /** The converse of Find's contract: the first `c` at or after `from` is what Find returns. */
  lemma {:induction false} FindFirst(s: string, c: char, from: nat, k: nat)
    requires from <= k < |s| && s[k] == c
    requires c !in s[from..k]
    ensures Find(s, c, from) == Some(k)
    decreases k - from
  {
    if from < k {
      assert s[from] == s[from..k][0];
      assert s[from + 1..k] == s[from..k][1..];
      FindFirst(s, c, from + 1, k);
    }
  }

  /** Copying the character at `i` and then the rest is copying from `i`. */
  lemma CopyOneMore(out: string, s: string, i: nat)
    requires i < |s|
    ensures out + [s[i]] + s[i + 1..] == out + s[i..]
  {
    assert s[i..] == [s[i]] + s[i + 1..];
  }

  /** The input with its leading characters from `cs` removed. */
  function StripLeft(s: string, cs: set<char>): string
  {
    if |s| > 0 && s[0] in cs then StripLeft(s[1..], cs) else s
  }

  /** The input with its trailing characters from `cs` removed. */
  function StripRight(s: string, cs: set<char>): string
  {
    if |s| > 0 && s[|s| - 1] in cs then StripRight(s[..|s| - 1], cs) else s
  }

  /** StripLeft removes a prefix made of characters from `cs`, and no more. */
  lemma {:induction false} StripLeftSpec(s: string, cs: set<char>)
    ensures var r := StripLeft(s, cs);
            && |r| <= |s| && r == s[|s| - |r|..]
            && (r == [] || r[0] !in cs)
            && (forall k :: 0 <= k < |s| - |r| ==> s[k] in cs)
  {
    if |s| > 0 && s[0] in cs {
      StripLeftSpec(s[1..], cs);
    }
  }

  /** StripRight removes a suffix made of characters from `cs`, and no more. */
  lemma {:induction false} StripRightSpec(s: string, cs: set<char>)
    ensures var r := StripRight(s, cs);
            && |r| <= |s| && r == s[..|r|]
            && (r == [] || r[|r| - 1] !in cs)
            && (forall k :: |r| <= k < |s| ==> s[k] in cs)
  {
    if |s| > 0 && s[|s| - 1] in cs {
      StripRightSpec(s[..|s| - 1], cs);
    }
  }

  /** s.strip(chars): both ends stripped of the characters in `cs`. */
  function StripChars(s: string, cs: set<char>): string {
    StripRight(StripLeft(s, cs), cs)
  }

  /** s.strip(): both ends stripped of whitespace. */
  function Strip(s: string): string
  {
    StripChars(s, Whitespace)
  }

  /**
    s.strip() keeps the run s[a..b] and drops only whitespace: all of s
    before a and from b on is whitespace, and the run neither starts nor
    ends with whitespace.
   */
  lemma StripTrims(s: string)
    ensures exists a: nat, b: nat ::
              && a <= b <= |s| && Strip(s) == s[a..b]
              && (forall k :: 0 <= k < a ==> IsSpace(s[k]))
              && (forall k :: b <= k < |s| ==> IsSpace(s[k]))
              && (a < b ==> !IsSpace(s[a]) && !IsSpace(s[b - 1]))
  {
    var l := StripLeft(s, Whitespace);
    StripLeftSpec(s, Whitespace);
    var r := StripRight(l, Whitespace);
    StripRightSpec(l, Whitespace);
    var a := |s| - |l|;
    var b := a + |r|;
    assert r == l[..|r|] == s[a..b];
    forall k | 0 <= k < a || b <= k < |s|
      ensures IsSpace(s[k])
    {
      if b <= k {
        assert s[k] == l[k - a];
      }
      SpaceIsWhitespace(s[k]);
    }
    if a < b {
      assert s[a] == l[0] && s[b - 1] == r[|r| - 1];
      SpaceIsWhitespace(s[a]);
      SpaceIsWhitespace(s[b - 1]);
    }
  }

  /** What StripChars leaves neither starts nor ends with a character from `cs`. */
  lemma StripCharsEnds(s: string, cs: set<char>)
    ensures var r := StripChars(s, cs);
            |r| <= |s| && (r != [] ==> r[0] !in cs && r[|r| - 1] !in cs)
  {
    var l := StripLeft(s, cs);
    StripLeftSpec(s, cs);
    StripRightSpec(l, cs);
    var r := StripRight(l, cs);
    if r != [] {
      assert r[0] == l[0];
    }
  }

  /** Stripping keeps a contiguous run of the input, so it adds no character. */
  lemma StripCharsInfix(s: string, cs: set<char>)
    ensures exists a, b :: 0 <= a <= b <= |s| && StripChars(s, cs) == s[a..b]
  {
    var l := StripLeft(s, cs);
    StripLeftSpec(s, cs);
    var a := |s| - |l|;
    var r := StripRight(l, cs);
    StripRightSpec(l, cs);
    assert r == l[..|r|] == s[a..a + |r|];
  }

  lemma {:induction false} StripCharsKeepsAbsent(s: string, cs: set<char>, c: char)
    requires c !in s
    ensures c !in StripChars(s, cs)
  {
    StripCharsInfix(s, cs);
    var a, b :| 0 <= a <= b <= |s| && StripChars(s, cs) == s[a..b];
  }

  /** Stripping is the identity when neither end holds a character from `cs`. */
  lemma StripCharsNoop(s: string, cs: set<char>)
    requires s == [] || (s[0] !in cs && s[|s| - 1] !in cs)
    ensures StripChars(s, cs) == s
  {
    assert StripLeft(s, cs) == s;
  }

  /** Stripping twice is stripping once. */
  lemma {:induction false} StripCharsIdempotent(s: string, cs: set<char>)
    ensures StripChars(StripChars(s, cs), cs) == StripChars(s, cs)
  {
    var r := StripChars(s, cs);
    if r != [] {
      var l := StripLeft(s, cs);
      StripLeftSpec(s, cs);
      StripRightSpec(l, cs);
      assert r == StripRight(l, cs) == l[..|r|];
      assert r[0] == l[0];
      assert r[0] !in cs;
    }
    StripCharsNoop(r, cs);
  }

  /** Python's sep.join(parts); the empty list joins to the empty string. */
  function Join(parts: seq<string>, sep: string): string
  {
    if parts == [] then ""
    else if |parts| == 1 then parts[0]
    else Join(parts[..|parts| - 1], sep) + sep + parts[|parts| - 1]
  }

  /** Joining from the front: the first part, the separator, then the rest joined. */
  lemma {:induction false} JoinCons(x: string, rest: seq<string>, sep: string)
    requires |rest| >= 1
    ensures Join([x] + rest, sep) == x + sep + Join(rest, sep)
    decreases |rest|
  {
    var all := [x] + rest;
    if |rest| == 1 {
      assert all[..1] == [x];
    } else {
      var init := rest[..|rest| - 1];
      assert all[..|all| - 1] == [x] + init;
      JoinCons(x, init, sep);
    }
  }

  /** s.split(sep): the pieces between the occurrences of `sep`, in order. */
  function Split(s: string, sep: char): (parts: seq<string>)
    ensures |parts| >= 1
    ensures forall k :: 0 <= k < |parts| ==> sep !in parts[k]
    decreases |s|
  {
    FindSound(s, sep, 0);
    match Find(s, sep, 0)
    case None => [s]
    case Some(k) => [s[..k]] + Split(s[k + 1..], sep)
  }

  /** Splitting loses nothing: joining the pieces back with the separator gives the input. */
  lemma {:induction false} SplitJoin(s: string, sep: char)
    ensures Join(Split(s, sep), [sep]) == s
    decreases |s|
  {
    match Find(s, sep, 0)
    case None =>
    case Some(k) =>
      var rest := Split(s[k + 1..], sep);
      SplitJoin(s[k + 1..], sep);
      JoinCons(s[..k], rest, [sep]);
      assert s == s[..k] + [sep] + s[k + 1..];
  }

  /** The split yields a single piece exactly when the separator does not occur. */
  lemma SplitSingle(s: string, sep: char)
    ensures |Split(s, sep)| == 1 <==> sep !in s
  {
    FindSound(s, sep, 0);
    match Find(s, sep, 0)
    case None =>
    case Some(k) =>
      assert |Split(s, sep)| >= 2;
  }

  /** The number of positions of `t` holding a character from `cs`. */
  function Count(t: string, cs: set<char>): nat
  {
    if t == [] then 0
    else Count(t[..|t| - 1], cs) + (if t[|t| - 1] in cs then 1 else 0)
  }

  /** No position holds a character from `cs`, so the count is zero. */
  lemma {:induction false} CountAbsent(t: string, cs: set<char>)
    requires forall k :: 0 <= k < |t| ==> t[k] !in cs
    ensures Count(t, cs) == 0
  {
    if t != [] {
      CountAbsent(t[..|t| - 1], cs);
    }
  }

  lemma {:induction false} CountAppend(a: string, b: string, cs: set<char>)
    ensures Count(a + b, cs) == Count(a, cs) + Count(b, cs)
    decreases |b|
  {
    if b != [] {
      var init := b[..|b| - 1];
      assert (a + b)[..|a + b| - 1] == a + init;
      CountAppend(a, init, cs);
    } else {
      assert a + b == a;
    }
  }
}
