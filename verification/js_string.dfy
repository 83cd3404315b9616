/**
  The JavaScript string built-ins the bot relies on: `trim`, `indexOf`,
  `split` with a one-character separator and `replace` with a string
  pattern. Each is given its ECMAScript meaning, stated independently of how
  it is computed, so that the scanners built on top of them can be reasoned
  about line by line.
 */
module JsString {

  /** The code points `String.prototype.trim` removes: ECMAScript WhiteSpace
      (tab, vertical tab, form feed, space, no-break space, the byte order
      mark and every space separator) and LineTerminator (LF, CR, LS, PS). */
  predicate IsWhiteSpace(c: char) {
    || c == '\t' || c == '\n' || c == '\U{000B}' || c == '\U{000C}' || c == '\r'
    || c == ' ' || c == '\U{00A0}' || c == '\U{1680}'
    || ('\U{2000}' <= c <= '\U{200A}')
    || c == '\U{2028}' || c == '\U{2029}' || c == '\U{202F}' || c == '\U{205F}'
    || c == '\U{3000}' || c == '\U{FEFF}'
  }

  predicate AllWhiteSpace(s: string) {
    forall i :: 0 <= i < |s| ==> IsWhiteSpace(s[i])
  }

  /** True when `s` is empty or begins and ends with a character trim keeps. */
  predicate TrimmedEnds(s: string) {
    s == [] || (!IsWhiteSpace(s[0]) && !IsWhiteSpace(s[|s| - 1]))
  }

  lemma {:induction false} AllWhiteSpaceConcat(a: string, b: string)
    requires AllWhiteSpace(a) && AllWhiteSpace(b)
    ensures AllWhiteSpace(a + b)
  {
    forall i | 0 <= i < |a + b|
      ensures IsWhiteSpace((a + b)[i])
    {
      if i >= |a| {
        assert (a + b)[i] == b[i - |a|];
      }
    }
  }

  /** Drops leading white space: the result is a suffix of `s` that does not
      start with white space, and everything dropped is white. */
  function TrimStart(s: string): (r: string)
    ensures |r| <= |s| && r == s[|s| - |r|..]
    ensures AllWhiteSpace(s[..|s| - |r|])
    ensures r == [] || !IsWhiteSpace(r[0])
    decreases |s|
  {
    if |s| > 0 && IsWhiteSpace(s[0]) then
      var r := TrimStart(s[1..]);
      WhiteHeadDropped(s, r);
      r
    else
      s
  }

  /** Drops trailing white space, symmetric to `TrimStart`. */
  function TrimEnd(s: string): (r: string)
    ensures |r| <= |s| && r == s[..|r|]
    ensures AllWhiteSpace(s[|r|..])
    ensures r == [] || !IsWhiteSpace(r[|r| - 1])
    decreases |s|
  {
    if |s| > 0 && IsWhiteSpace(s[|s| - 1]) then
      var r := TrimEnd(s[..|s| - 1]);
      WhiteLastDropped(s, r);
      r
    else
      s
  }

  /** Dropping a white first character before a white prefix drops a white prefix. */
  lemma {:induction false} WhiteHeadDropped(s: string, r: string)
    requires |s| > 0 && IsWhiteSpace(s[0])
    requires |r| <= |s| - 1 && r == s[1..][|s| - 1 - |r|..]
    requires AllWhiteSpace(s[1..][..|s| - 1 - |r|])
    ensures r == s[|s| - |r|..]
    ensures AllWhiteSpace(s[..|s| - |r|])
  {
    assert s[..|s| - |r|] == [s[0]] + s[1..][..|s| - 1 - |r|];
    AllWhiteSpaceConcat([s[0]], s[1..][..|s| - 1 - |r|]);
  }

  /** Dropping a white last character after a white suffix drops a white suffix. */
  lemma {:induction false} WhiteLastDropped(s: string, r: string)
    requires |s| > 0 && IsWhiteSpace(s[|s| - 1])
    requires |r| <= |s| - 1 && r == s[..|s| - 1][..|r|]
    requires AllWhiteSpace(s[..|s| - 1][|r|..])
    ensures r == s[..|r|]
    ensures AllWhiteSpace(s[|r|..])
  {
    assert s[|r|..] == s[..|s| - 1][|r|..] + [s[|s| - 1]];
    AllWhiteSpaceConcat(s[..|s| - 1][|r|..], [s[|s| - 1]]);
  }

  /** `String.prototype.trim`: what is left once white space is dropped
      from both ends. It is empty exactly when `s` is all white space. */
  function Trim(s: string): (r: string)
    ensures TrimmedEnds(r)
    ensures r == [] <==> AllWhiteSpace(s)
  {
    TrimBothEnds(s);
    TrimEnd(TrimStart(s))
  }

  lemma {:induction false} TrimBothEnds(s: string)
    ensures TrimmedEnds(TrimEnd(TrimStart(s)))
    ensures TrimEnd(TrimStart(s)) == [] <==> AllWhiteSpace(s)
  {
    var t := TrimStart(s);
    var r := TrimEnd(t);
    if r != [] {
      assert r[0] == t[0];
    }
    if AllWhiteSpace(s) {
      TrimStartOfPadded(s, []);
      assert s + [] == s;
    }
    if r == [] {
      assert t[|r|..] == t;
      assert s[..|s| - |t|] + t == s;
      AllWhiteSpaceConcat(s[..|s| - |t|], t);
    }
  }

  /** Leading white space is dropped up to the first non-white character. */
  lemma {:induction false} TrimStartOfPadded(w: string, t: string)
    requires AllWhiteSpace(w)
    requires t == [] || !IsWhiteSpace(t[0])
    ensures TrimStart(w + t) == t
    decreases |w|
  {
    if w != [] {
      assert (w + t)[1..] == w[1..] + t;
      TrimStartOfPadded(w[1..], t);
    } else {
      assert w + t == t;
    }
  }

  /** Trailing white space is dropped back to the last non-white character. */
  lemma {:induction false} TrimEndOfPadded(t: string, w: string)
    requires AllWhiteSpace(w)
    requires t == [] || !IsWhiteSpace(t[|t| - 1])
    ensures TrimEnd(t + w) == t
    decreases |w|
  {
    if w != [] {
      assert (t + w)[..|t + w| - 1] == t + w[..|w| - 1];
      TrimEndOfPadded(t, w[..|w| - 1]);
    } else {
      assert t + w == t;
    }
  }

  /** Trim sees through white-space padding: `w1 + m + w2` trims to `m`. */
  lemma {:induction false} TrimOfPadded(w1: string, m: string, w2: string)
    requires AllWhiteSpace(w1) && AllWhiteSpace(w2)
    requires TrimmedEnds(m)
    ensures Trim(w1 + m + w2) == m
  {
    assert w1 + m + w2 == w1 + (m + w2);
    if m == [] {
      assert w1 + m + w2 == w1 + w2;
      AllWhiteSpaceConcat(w1, w2);
    } else {
      TrimStartOfPadded(w1, m + w2);
      TrimEndOfPadded(m, w2);
    }
  }

  /** Conversely, every string is its trim padded by white space on both sides. */
  lemma {:induction false} TrimSplits(s: string)
    ensures exists w1, w2 :: AllWhiteSpace(w1) && AllWhiteSpace(w2) && s == w1 + Trim(s) + w2
  {
    var t := TrimStart(s);
    var r := TrimEnd(t);
    SuffixThenPrefix(s, t, r);
    assert AllWhiteSpace(s[..|s| - |t|]) && AllWhiteSpace(t[|r|..]);
    assert Trim(s) == r;
  }

  /** A prefix `r` of a suffix `t` of `s` splits `s` in three. */
  lemma {:induction false} SuffixThenPrefix(s: string, t: string, r: string)
    requires |t| <= |s| && t == s[|s| - |t|..]
    requires |r| <= |t| && r == t[..|r|]
    ensures s == s[..|s| - |t|] + r + t[|r|..]
  {
    assert t == r + t[|r|..];
    assert s == s[..|s| - |t|] + t;
  }

  /** `s.indexOf(c, from)` for a one-character search string: the first
      position at or after `from` holding `c`, or -1 when there is none. */
  function IndexOfChar(s: string, c: char, from: nat): (r: int)
    ensures r == -1 || (from <= r < |s| && s[r] == c)
    ensures r == -1 <==> forall k :: from <= k < |s| ==> s[k] != c
    ensures r >= 0 ==> forall k :: from <= k < r ==> s[k] != c
    decreases |s| - from
  {
    if from >= |s| then -1
    else if s[from] == c then from
    else IndexOfChar(s, c, from + 1)
  }

  /** `indexOf` finds a character at the first place it occurs... */
  lemma {:induction false} IndexOfCharFinds(s: string, c: char, k: nat)
    requires k < |s| && s[k] == c && c !in s[..k]
    ensures IndexOfChar(s, c, 0) == k
  {
    forall j | 0 <= j < k
      ensures s[j] != c
    {
      assert s[j] == s[..k][j];
    }
  }

  /** ... and reports -1 for a character that does not occur. */
  lemma {:induction false} IndexOfCharMisses(s: string, c: char)
    requires c !in s
    ensures IndexOfChar(s, c, 0) == -1
  {
    forall j | 0 <= j < |s|
      ensures s[j] != c
    {
      assert s[j] in s;
    }
  }

  /** `pat` occurs in `s` starting at position `k`. */
  predicate OccursAt(s: string, pat: string, k: int) {
    0 <= k && k + |pat| <= |s| && s[k..k + |pat|] == pat
  }

  /** `s.indexOf(pat, from)` for `from <= |s|`: the first occurrence at or
      after `from`, or -1. */
  function IndexOfFrom(s: string, pat: string, from: nat): (r: int)
    requires from <= |s|
    ensures -1 <= r <= |s|
    ensures r == -1 <==> forall k :: from <= k ==> !OccursAt(s, pat, k)
    ensures r >= 0 ==> from <= r && OccursAt(s, pat, r) && forall k :: from <= k < r ==> !OccursAt(s, pat, k)
    decreases |s| - from
  {
    if from + |pat| > |s| then -1
    else if s[from..from + |pat|] == pat then
      assert OccursAt(s, pat, from);
      from
    else IndexOfFrom(s, pat, from + 1)
  }

  /** `k` is the first position where `pat` occurs in `s`. */
  predicate FirstOccurrence(s: string, pat: string, k: int) {
    OccursAt(s, pat, k) && forall j :: 0 <= j < k ==> !OccursAt(s, pat, j)
  }

  /** `s.replace(pat, rep)` with a string pattern: only the first occurrence
      is replaced, and a string without one comes back unchanged. The
      replacement is taken literally (the `$` patterns of ECMAScript's
      GetSubstitution do not occur in the replacement used). */
  function ReplaceFirst(s: string, pat: string, rep: string): (r: string)
    ensures (forall k :: !OccursAt(s, pat, k)) ==> r == s
    ensures forall k :: FirstOccurrence(s, pat, k) ==> r == s[..k] + rep + s[k + |pat|..]
  {
    var k := IndexOfFrom(s, pat, 0);
    if k < 0 then
      s
    else
      assert FirstOccurrence(s, pat, k);
      FirstOccurrenceUnique(s, pat, k);
      s[..k] + rep + s[k + |pat|..]
  }

  lemma {:induction false} FirstOccurrenceUnique(s: string, pat: string, k: int)
    requires FirstOccurrence(s, pat, k)
    ensures forall k' :: FirstOccurrence(s, pat, k') ==> k' == k
  {
  }

  /** Removing a pattern the string starts with leaves the rest of it. */
  lemma {:induction false} ReplaceLeadingOccurrence(s: string, pat: string)
    requires OccursAt(s, pat, 0)
    ensures ReplaceFirst(s, pat, "") == s[|pat|..]
  {
  }

  /** The tokens joined back with the separator between them. */
  function Join(tokens: seq<string>, sep: char): string
    requires |tokens| >= 1
  {
    if |tokens| == 1 then tokens[0] else tokens[0] + [sep] + Join(tokens[1..], sep)
  }

  /** `s.split(sep)` for a one-character separator: at least one token, none
      containing the separator, and joining them gives `s` back. */
  function Split(s: string, sep: char): (r: seq<string>)
    ensures |r| >= 1
    ensures forall i :: 0 <= i < |r| ==> sep !in r[i]
    ensures Join(r, sep) == s
    decreases |s|
  {
    var k := IndexOfChar(s, sep, 0);
    if k < 0 then [s]
    else
      var rest := Split(s[k + 1..], sep);
      assert ([s[..k]] + rest)[1..] == rest;
      assert s == s[..k] + [sep] + s[k + 1..];
      [s[..k]] + rest
  }

  /** Splitting undoes joining, for tokens free of the separator. */
  lemma {:induction false} SplitJoin(tokens: seq<string>, sep: char)
    requires |tokens| >= 1
    requires forall i :: 0 <= i < |tokens| ==> sep !in tokens[i]
    ensures Split(Join(tokens, sep), sep) == tokens
    decreases |tokens|
  {
    var s := Join(tokens, sep);
    if |tokens| == 1 {
      assert IndexOfChar(s, sep, 0) == -1;
    } else {
      var rest := Join(tokens[1..], sep);
      assert s == tokens[0] + [sep] + rest;
      assert s[|tokens[0]|] == sep;
      assert forall k :: 0 <= k < |tokens[0]| ==> s[k] == tokens[0][k];
      assert IndexOfChar(s, sep, 0) == |tokens[0]|;
      assert s[..|tokens[0]|] == tokens[0];
      assert s[|tokens[0]| + 1..] == rest;
      SplitJoin(tokens[1..], sep);
      assert Split(s, sep) == [tokens[0]] + tokens[1..];
    }
  }

  /** The first token is the text before the first separator, or all of it. */
  lemma {:induction false} FirstToken(s: string, sep: char)
    ensures var k := IndexOfChar(s, sep, 0);
      Split(s, sep)[0] == if k < 0 then s else s[..k]
  {
  }
}
