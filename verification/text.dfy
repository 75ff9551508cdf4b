/**
 The string operations the checks apply to captured command output: Python's
 `str.strip()`, the substring test `sub in s`, and `str.splitlines()`.
 Strings are sequences of Unicode scalar values, as Python's `str` is.
 */
module Text {

  /** Python's `str.isspace()` for one character: the characters `str.strip()` removes. */
  predicate IsSpace(c: char) {
    || ('\t' <= c <= '\r')
    || ('\U{1c}' <= c <= ' ')
    || c == '\U{85}' || c == '\U{a0}' || c == '\U{1680}'
    || ('\U{2000}' <= c <= '\U{200a}')
    || c == '\U{2028}' || c == '\U{2029}' || c == '\U{202f}' || c == '\U{205f}' || c == '\U{3000}'
  }

  /** True iff every character of `s` is whitespace (vacuously for ""). */
  predicate AllSpace(s: string) {
    forall k :: 0 <= k < |s| ==> IsSpace(s[k])
  }

  /** Whitespace followed by whitespace is whitespace. */
  lemma AllSpaceAppend(a: string, b: string)
    requires AllSpace(a) && AllSpace(b)
    ensures AllSpace(a + b)
  {
    forall k | 0 <= k < |a + b|
      ensures IsSpace((a + b)[k])
    {
      if k >= |a| {
        assert (a + b)[k] == b[k - |a|];
      }
    }
  }

  /** A suffix of `s[1..]` reached by dropping whitespace is reached from `s`
      by dropping whitespace, when `s[0]` is whitespace. */
  lemma DropSpaceStep(s: string, r: string)
    requires |s| > 0 && IsSpace(s[0])
    requires |r| <= |s[1..]| && r == s[1..][|s[1..]| - |r|..] && AllSpace(s[1..][..|s[1..]| - |r|])
    ensures |r| <= |s| && r == s[|s| - |r|..] && AllSpace(s[..|s| - |r|])
  {
    assert s[|s| - |r|..] == s[1..][|s[1..]| - |r|..];
    assert s[..|s| - |r|] == [s[0]] + s[1..][..|s[1..]| - |r|];
    AllSpaceAppend([s[0]], s[1..][..|s[1..]| - |r|]);
  }

  /** `s` with its leading whitespace removed. */
  function TrimStart(s: string): string {
    if |s| > 0 && IsSpace(s[0]) then TrimStart(s[1..]) else s
  }

  /** `TrimStart` drops a whitespace prefix of `s`, and no more than that. */
  lemma {:induction false} TrimStartSpec(s: string)
    ensures var r := TrimStart(s);
      && |r| <= |s| && r == s[|s| - |r|..]
      && AllSpace(s[..|s| - |r|])
      && (r == [] || !IsSpace(r[0]))
  {
    if |s| > 0 && IsSpace(s[0]) {
      TrimStartSpec(s[1..]);
      DropSpaceStep(s, TrimStart(s[1..]));
    }
  }

  /** The mirror image of `DropSpaceStep`, at the end of `s`. */
  lemma DropSpaceBackStep(s: string, r: string)
    requires |s| > 0 && IsSpace(s[|s| - 1])
    requires |r| <= |s| - 1 && r == s[..|s| - 1][..|r|] && AllSpace(s[..|s| - 1][|r|..])
    ensures |r| <= |s| && r == s[..|r|] && AllSpace(s[|r|..])
  {
    assert s[..|r|] == s[..|s| - 1][..|r|];
    assert s[|r|..] == s[..|s| - 1][|r|..] + [s[|s| - 1]];
    AllSpaceAppend(s[..|s| - 1][|r|..], [s[|s| - 1]]);
  }

  /** `s` with its trailing whitespace removed. */
  function TrimEnd(s: string): string {
    if |s| > 0 && IsSpace(s[|s| - 1]) then TrimEnd(s[..|s| - 1]) else s
  }

  /** `TrimEnd` drops a whitespace suffix of `s`, and no more than that. */
  lemma {:induction false} TrimEndSpec(s: string)
    ensures var r := TrimEnd(s);
      && |r| <= |s| && r == s[..|r|]
      && AllSpace(s[|r|..])
      && (r == [] || !IsSpace(r[|r| - 1]))
  {
    if |s| > 0 && IsSpace(s[|s| - 1]) {
      TrimEndSpec(s[..|s| - 1]);
      DropSpaceBackStep(s, TrimEnd(s[..|s| - 1]));
    }
  }

  /** Python's `s.strip()`: whitespace dropped from both ends of `s`. The
      result neither starts nor ends with whitespace; `StripPadded` shows it
      is the inner slice that whitespace padding surrounds. */
  function Strip(s: string): (r: string)
    ensures r == [] || (!IsSpace(r[0]) && !IsSpace(r[|r| - 1]))
    ensures |r| <= |s|
  {
    TrimStartSpec(s);
    TrimEndSpec(TrimStart(s));
    TrimEnd(TrimStart(s))
  }

  /** `not s.strip()` holds exactly when `s` consists of whitespace only. */
  lemma StripEmptyIff(s: string)
    ensures Strip(s) == [] <==> AllSpace(s)
  {
    var t := TrimStart(s);
    TrimStartSpec(s);
    TrimEndSpec(t);
    if Strip(s) == [] {
      if t != [] {
        assert false;
      }
      assert s == s[..|s| - |t|];
    } else if AllSpace(s) {
      if t != [] {
        assert false;
      }
    }
  }

  /** A string without leading or trailing whitespace is its own strip. */
  lemma StripOfTrimmed(s: string)
    requires s == [] || (!IsSpace(s[0]) && !IsSpace(s[|s| - 1]))
    ensures Strip(s) == s
  {
  }

  /** Leading whitespace in front of a string that starts with a visible
      character is exactly what `TrimStart` drops. */
  lemma {:induction false} TrimStartSpaces(pre: string, rest: string)
    requires AllSpace(pre) && (rest == [] || !IsSpace(rest[0]))
    ensures TrimStart(pre + rest) == rest
  {
    if pre != [] {
      assert (pre + rest)[1..] == pre[1..] + rest;
      TrimStartSpaces(pre[1..], rest);
    }
  }

  /** Trailing whitespace after a string that ends with a visible character
      is exactly what `TrimEnd` drops. */
  lemma {:induction false} TrimEndSpaces(rest: string, post: string)
    requires AllSpace(post) && (rest == [] || !IsSpace(rest[|rest| - 1]))
    ensures TrimEnd(rest + post) == rest
  {
    if post != [] {
      var n := |post| - 1;
      assert (rest + post)[..|rest + post| - 1] == rest + post[..n];
      TrimEndSpaces(rest, post[..n]);
    }
  }

  /** `strip()` undoes any whitespace padding of a string that has no
      surrounding whitespace of its own. */
  lemma StripPadded(pre: string, s: string, post: string)
    requires AllSpace(pre) && AllSpace(post)
    requires s == [] || (!IsSpace(s[0]) && !IsSpace(s[|s| - 1]))
    ensures Strip(pre + s + post) == s
  {
    if s == [] {
      assert pre + s + post == pre + post;
      assert AllSpace(pre + post);
      StripEmptyIff(pre + post);
    } else {
      assert pre + s + post == pre + (s + post);
      TrimStartSpaces(pre, s + post);
      TrimEndSpaces(s, post);
    }
  }

  /** Stripping twice is the same as stripping once. */
  lemma StripIdempotent(s: string)
    ensures Strip(Strip(s)) == Strip(s)
  {
    StripOfTrimmed(Strip(s));
  }

  /** Python's `sub in s`: `sub` occurs as a contiguous piece of `s`. */
  predicate Contains(s: string, sub: string) {
    exists i :: 0 <= i <= |s| && sub <= s[i..]
  }

  /** The empty string is in every string, and nothing else is in the empty string. */
  lemma ContainsEmpty(s: string, sub: string)
    ensures Contains(s, [])
    ensures Contains([], sub) <==> sub == []
  {
    assert [] <= s[0..];
    var e: string := [];
    if Contains(e, sub) {
      var i :| 0 <= i <= |e| && sub <= e[i..];
    }
  }

  /** Occurrence is transitive: a piece of a piece of `s` is a piece of `s`. */
  lemma ContainsTransitive(s: string, mid: string, sub: string)
    requires Contains(s, mid) && Contains(mid, sub)
    ensures Contains(s, sub)
  {
    var i :| 0 <= i <= |s| && mid <= s[i..];
    var j :| 0 <= j <= |mid| && sub <= mid[j..];
    assert sub <= s[i + j..] by {
      forall k | 0 <= k < |sub|
        ensures sub[k] == s[i + j..][k]
      {
        assert sub[k] == mid[j + k];
        assert mid[j + k] == s[i..][j + k];
      }
    }
  }

  /** A slice of `s` occurs in `s`. */
  lemma SliceContained(s: string, a: nat, b: nat)
    requires a <= b <= |s|
    ensures Contains(s, s[a..b])
  {
    assert s[a..b] <= s[a..];
  }

  /** The characters at which `str.splitlines()` ends a line. */
  predicate IsLineBreak(c: char) {
    || ('\n' <= c <= '\r')
    || ('\U{1c}' <= c <= '\U{1e}')
    || c == '\U{85}' || c == '\U{2028}' || c == '\U{2029}'
  }

  /** True iff `s` holds no line-break character. */
  predicate SingleLine(s: string) {
    forall k :: 0 <= k < |s| ==> !IsLineBreak(s[k])
  }

  /** Index of the first line break in `s`, or `|s|` when there is none. */
  function BreakIndex(s: string): (i: nat)
    ensures i <= |s|
    ensures SingleLine(s[..i])
    ensures i < |s| ==> IsLineBreak(s[i])
  {
    if s == [] then 0
    else if IsLineBreak(s[0]) then 0
    else
      var j := BreakIndex(s[1..]);
      assert s[..j + 1] == [s[0]] + s[1..][..j];
      j + 1
  }

  /** Python's `s.splitlines()`: the lines of `s` without their terminators,
      where "\r\n" ends one line and a final terminator opens no empty line. */
  function SplitLines(s: string): (ls: seq<string>)
    ensures forall k :: 0 <= k < |ls| ==> SingleLine(ls[k]) && Contains(s, ls[k])
    ensures s == [] <==> ls == []
    decreases |s|
  {
    if s == [] then []
    else
      var i := BreakIndex(s);
      SliceContained(s, 0, i);
      if i == |s| then [s]
      else
        var w := if s[i] == '\r' && i + 1 < |s| && s[i + 1] == '\n' then 2 else 1;
        var rest := SplitLines(s[i + w..]);
        assert forall k :: 0 <= k < |rest| ==> Contains(s, rest[k]) by {
          forall k | 0 <= k < |rest|
            ensures Contains(s, rest[k])
          {
            SliceContained(s, i + w, |s|);
            ContainsTransitive(s, s[i + w..], rest[k]);
          }
        }
        [s[..i]] + rest
  }

  /** True iff every line of `s` contains `t`; true of the empty string, which has no lines. */
  predicate EveryLineContains(s: string, t: string) {
    forall line | line in SplitLines(s) :: Contains(line, t)
  }

  /** The lines joined with "\n" between them, the inverse of `SplitLines`. */
  function JoinLines(ls: seq<string>): string {
    if ls == [] then []
    else if |ls| == 1 then ls[0]
    else ls[0] + "\n" + JoinLines(ls[1..])
  }

  /** A non-empty string without line breaks is one line. */
  lemma SplitSingleLine(s: string)
    requires s != [] && SingleLine(s)
    ensures SplitLines(s) == [s]
  {
  }

  /** The line terminators of `str.splitlines()`: one line-break character, or "\r\n". */
  predicate Terminator(t: string) {
    (|t| == 1 && IsLineBreak(t[0])) || t == "\r\n"
  }

  /** A break-free line followed by a terminator is the first line of the
      split, and the split goes on after the terminator. A lone "\r" counts as
      one terminator only when no "\n" follows it. With `rest` empty this says
      that a final terminator opens no empty line. */
  lemma SplitLinesStep(line: string, t: string, rest: string)
    requires SingleLine(line) && Terminator(t)
    requires t == "\r" ==> rest == [] || rest[0] != '\n'
    ensures SplitLines(line + t + rest) == [line] + SplitLines(rest)
  {
    var s := line + t + rest;
    var i := |line|;
    assert s[..i] == line && s[i] == t[0];
    BreakIndexAt(s, i);
    var w := if s[i] == '\r' && i + 1 < |s| && s[i + 1] == '\n' then 2 else 1;
    if t == "\r\n" {
      assert s[i + 1] == '\n';
      assert w == |t|;
    } else if t[0] == '\r' {
      assert t == "\r";
      assert i + 1 < |s| ==> s[i + 1] == rest[0];
      assert w == |t|;
    } else {
      assert w == |t|;
    }
    assert s[i + w..] == rest;
  }

  /** Splitting the "\n"-join of break-free lines gives the lines back, as long
      as the last line is not empty (a trailing empty line is not reported). */
  lemma {:induction false} SplitJoinLines(ls: seq<string>)
    requires ls != [] && ls[|ls| - 1] != []
    requires forall k :: 0 <= k < |ls| ==> SingleLine(ls[k])
    ensures SplitLines(JoinLines(ls)) == ls
    decreases |ls|
  {
    if |ls| == 1 {
      SplitSingleLine(ls[0]);
    } else {
      SplitLinesStep(ls[0], "\n", JoinLines(ls[1..]));
      SplitJoinLines(ls[1..]);
      assert ls == [ls[0]] + ls[1..];
    }
  }

  /** `BreakIndex` finds the first break when everything before it is break-free. */
  lemma BreakIndexAt(s: string, i: nat)
    requires i < |s| && SingleLine(s[..i]) && IsLineBreak(s[i])
    ensures BreakIndex(s) == i
  {
    var j := BreakIndex(s);
    if j < i {
      assert false;
    } else if j > i {
      assert false;
    }
  }
}
