/**
 * The Python `str` built-ins the recommendation parser relies on:
 * `str.isspace` (per character), `str.strip()`, `str.splitlines()`,
 * `sub in s` and `s.split(sub, 1)` (the first occurrence of a substring).
 * Characters are code points; whitespace and line boundaries are the fixed
 * sets Python uses for `str`.
 */
module PyStr {
  import opened Wrappers

  /** The code points for which Python's `str.isspace()` holds. */
  predicate IsSpace(c: char) {
    var n := c as int;
    n == 0x20 || 0x09 <= n <= 0x0D || 0x1C <= n <= 0x1F || n == 0x85 || n == 0xA0
    || n == 0x1680 || 0x2000 <= n <= 0x200A || n == 0x2028 || n == 0x2029
    || n == 0x202F || n == 0x205F || n == 0x3000
  }

  /** The code points at which Python's `str.splitlines()` ends a line ("\r\n" counts once). */
  predicate IsLineBreak(c: char) {
    var n := c as int;
    0x0A <= n <= 0x0D || 0x1C <= n <= 0x1E || n == 0x85 || n == 0x2028 || n == 0x2029
  }

  predicate NoLineBreak(s: string) {
    forall k :: 0 <= k < |s| ==> !IsLineBreak(s[k])
  }

  /** A string that `strip()` leaves as it is: empty, or not starting or ending in whitespace. */
  predicate IsStripped(s: string) {
    s == [] || (!IsSpace(s[0]) && !IsSpace(s[|s| - 1]))
  }

  predicate AllSpace(s: string) {
    forall k :: 0 <= k < |s| ==> IsSpace(s[k])
  }

  /** `s.lstrip()`: the longest suffix of `s` that does not start with whitespace. */
  function StripLeft(s: string): (r: string)
    ensures |r| <= |s|
    ensures r == [] || !IsSpace(r[0])
  {
    if s != [] && IsSpace(s[0]) then StripLeft(s[1..]) else s
  }

  /** `lstrip()` removes a prefix, and that prefix is all whitespace. */
  lemma {:induction false} StripLeftSlice(s: string)
    ensures var r := StripLeft(s); r == s[|s| - |r|..] && AllSpace(s[..|s| - |r|])
  {
    if s != [] && IsSpace(s[0]) {
      StripLeftSlice(s[1..]);
      var r := StripLeft(s);
      assert s[1..][|s| - 1 - |r|..] == s[|s| - |r|..];
      assert s[..|s| - |r|] == [s[0]] + s[1..][..|s| - 1 - |r|];
    }
  }

  /** `s.rstrip()`: the longest prefix of `s` that does not end in whitespace. */
  function StripRight(s: string): (r: string)
    ensures |r| <= |s|
    ensures r == [] || !IsSpace(r[|r| - 1])
  {
    if s != [] && IsSpace(s[|s| - 1]) then StripRight(s[..|s| - 1]) else s
  }

  /** `rstrip()` removes a suffix, and that suffix is all whitespace. */
  lemma {:induction false} StripRightSlice(s: string)
    ensures var r := StripRight(s); r == s[..|r|] && AllSpace(s[|r|..])
  {
    if s != [] && IsSpace(s[|s| - 1]) {
      var t := s[..|s| - 1];
      StripRightSlice(t);
      var r := StripRight(t);
      assert StripRight(s) == r;
      assert t[..|r|] == s[..|r|];
      forall k | 0 <= k < |s| - |r| ensures IsSpace(s[|r|..][k]) {
        if |r| + k < |t| {
          assert s[|r|..][k] == t[|r|..][k];
        }
      }
    } else {
      assert s[..|s|] == s;
    }
  }

  /** `s.strip()`: `s` without its leading and trailing whitespace. */
  function Strip(s: string): (r: string)
    ensures IsStripped(r) && |r| <= |s|
  {
    var left := StripLeft(s);
    StripRightSlice(left);
    StripRight(left)
  }

  /** Where `Strip(s)` starts in `s`: the length of the leading whitespace. */
  function StripStart(s: string): (i: nat)
    ensures i <= |s|
  {
    |s| - |StripLeft(s)|
  }

  /**
   * What `strip()` removes is whitespace: `Strip(s)` is the slice of `s`
   * after its leading whitespace, and all of `s` around it is whitespace.
   */
  lemma StripSlice(s: string)
    ensures var r, i := Strip(s), StripStart(s);
      i + |r| <= |s| && r == s[i..i + |r|] && AllSpace(s[..i]) && AllSpace(s[i + |r|..])
  {
    var left := StripLeft(s);
    var r := StripRight(left);
    StripLeftSlice(s);
    StripRightSlice(left);
    assert s[StripStart(s) + |r|..] == left[|r|..];
  }

  /** Stripping a string with no whitespace at its ends changes nothing. */
  lemma StripStripped(s: string)
    requires IsStripped(s)
    ensures Strip(s) == s
  {
  }

  /** Leading whitespace is dropped by `strip()`. */
  lemma StripSpacePrefix(w: string, s: string)
    requires AllSpace(w)
    ensures Strip(w + s) == Strip(s)
  {
    StripLeftSpacePrefix(w, s);
  }

  lemma {:induction false} StripLeftSpacePrefix(w: string, s: string)
    requires AllSpace(w)
    ensures StripLeft(w + s) == StripLeft(s)
  {
    if w != [] {
      assert (w + s)[0] == w[0] && IsSpace(w[0]);
      assert (w + s)[1..] == w[1..] + s;
      assert AllSpace(w[1..]);
      StripLeftSpacePrefix(w[1..], s);
    } else {
      assert w + s == s;
    }
  }

  /** `lstrip()` stops at the first character that is not whitespace. */
  lemma {:induction false} StripLeftBefore(x: string, y: string)
    requires y != [] && !IsSpace(y[0])
    ensures StripLeft(x + y) == StripLeft(x) + y
  {
    if x == [] {
      assert x + y == y;
    } else {
      assert (x + y)[0] == x[0];
      if IsSpace(x[0]) {
        assert (x + y)[1..] == x[1..] + y;
        StripLeftBefore(x[1..], y);
      }
    }
  }

  /** `rstrip()` stops at the last character that is not whitespace. */
  lemma {:induction false} StripRightAfter(x: string, y: string)
    requires x != [] && !IsSpace(x[|x| - 1])
    ensures StripRight(x + y) == x + StripRight(y)
  {
    if y == [] {
      assert x + y == x;
    } else {
      assert (x + y)[|x + y| - 1] == y[|y| - 1];
      if IsSpace(y[|y| - 1]) {
        assert (x + y)[..|x + y| - 1] == x + y[..|y| - 1];
        StripRightAfter(x, y[..|y| - 1]);
      }
    }
  }

  lemma StripLeftAllSpace(w: string)
    requires AllSpace(w)
    ensures StripLeft(w) == []
  {
    StripLeftSlice(w);
  }

  lemma StripRightAllSpace(w: string)
    requires AllSpace(w)
    ensures StripRight(w) == []
  {
    StripRightSlice(w);
  }

  /**
   * `strip()` finds the only cut of a string into whitespace, a stripped
   * middle and whitespace: that middle is the result.
   */
  lemma StripUnique(a: string, r: string, b: string)
    requires AllSpace(a) && IsStripped(r) && AllSpace(b)
    ensures Strip(a + r + b) == r
  {
    if r == [] {
      var w := a + r + b;
      assert forall k | 0 <= k < |w| :: w[k] == if k < |a| then a[k] else b[k - |a|];
      StripLeftAllSpace(w);
    } else {
      assert a + r + b == a + (r + b);
      assert (r + b)[0] == r[0];
      StripLeftBefore(a, r + b);
      StripLeftAllSpace(a);
      assert StripLeft(a + r + b) == r + b;
      StripRightAfter(r, b);
      StripRightAllSpace(b);
    }
  }

  /** Stripping the right end first makes no difference to `strip()`. */
  lemma StripAfterStripRight(s: string)
    ensures Strip(StripRight(s)) == Strip(s)
  {
    var q := StripRight(s);
    StripRightSlice(s);
    var r, i := Strip(q), StripStart(q);
    StripSlice(q);
    assert i + |r| == |q|;
    var a, b := q[..i], s[|q|..];
    assert s == a + r + b;
    StripUnique(a, r, b);
  }

  lemma StripIdempotent(s: string)
    ensures Strip(Strip(s)) == Strip(s)
  {
    StripStripped(Strip(s));
  }

  predicate OccursAt(s: string, pat: string, i: int) {
    0 <= i && i + |pat| <= |s| && s[i..i + |pat|] == pat
  }

  function FindFrom(s: string, pat: string, from: nat): (r: Option<nat>)
    requires from <= |s|
    ensures r.Some? ==> from <= r.value && OccursAt(s, pat, r.value)
    ensures forall j :: from <= j && (r.None? || j < r.value) ==> !OccursAt(s, pat, j)
    decreases |s| - from
  {
    if OccursAt(s, pat, from) then Some(from)
    else if from == |s| then None
    else FindFrom(s, pat, from + 1)
  }

  /**
   * The index of the first occurrence of `pat` in `s`, if any: `pat in s`
   * is `Find(s, pat).Some?`, and `s.split(pat, 1)` cuts `s` at this index.
   */
  function Find(s: string, pat: string): (r: Option<nat>)
    ensures r.Some? ==> OccursAt(s, pat, r.value)
    ensures forall j :: 0 <= j && (r.None? || j < r.value) ==> !OccursAt(s, pat, j)
  {
    FindFrom(s, pat, 0)
  }

  /** The first line break in `s`, or `|s|` when there is none. */
  function FirstBreak(s: string): (i: nat)
    ensures i <= |s| && (i < |s| ==> IsLineBreak(s[i]))
    ensures NoLineBreak(s[..i])
  {
    if s == [] || IsLineBreak(s[0]) then 0 else 1 + FirstBreak(s[1..])
  }

  /**
   * `s.splitlines()`: the lines of `s` without their terminators; "\r\n" is
   * one terminator, and a final terminator does not start an empty line.
   */
  function SplitLines(s: string): (lines: seq<string>)
    ensures lines == [] <==> s == []
    decreases |s|
  {
    if s == [] then []
    else
      var i := FirstBreak(s);
      if i == |s| then [s]
      else
        var width := if s[i] == '\r' && i + 1 < |s| && s[i + 1] == '\n' then 2 else 1;
        [s[..i]] + SplitLines(s[i + width..])
  }

  /** No line of `s.splitlines()` holds a line break. */
  lemma {:induction false} SplitLinesNoBreak(s: string)
    ensures forall k :: 0 <= k < |SplitLines(s)| ==> NoLineBreak(SplitLines(s)[k])
    decreases |s|
  {
    if s != [] {
      var i := FirstBreak(s);
      if i < |s| {
        var width := if s[i] == '\r' && i + 1 < |s| && s[i + 1] == '\n' then 2 else 1;
        SplitLinesNoBreak(s[i + width..]);
      }
    }
  }

  /** `"".join(line + "\n" for line in lines)`: the text whose lines are `lines`. */
  function JoinLines(lines: seq<string>): (text: string) {
    if lines == [] then "" else lines[0] + "\n" + JoinLines(lines[1..])
  }

  /** Splitting joined lines gives the lines back, whenever no line holds a line break. */
  lemma {:induction false} SplitJoinLines(lines: seq<string>)
    requires forall k :: 0 <= k < |lines| ==> NoLineBreak(lines[k])
    ensures SplitLines(JoinLines(lines)) == lines
  {
    if lines != [] {
      SplitFirstLine(lines[0], JoinLines(lines[1..]));
      SplitJoinLines(lines[1..]);
    }
  }

  /** A line ended by "\n" is the first line, and the rest is split on its own. */
  lemma SplitFirstLine(line: string, rest: string)
    requires NoLineBreak(line)
    ensures SplitLines(line + "\n" + rest) == [line] + SplitLines(rest)
  {
    var s := line + "\n" + rest;
    FirstBreakAt(line, "\n" + rest);
    assert s[|line|] == '\n';
    assert s[..|line|] == line;
    assert s[|line| + 1..] == rest;
    SplitAtNewline(s, |line|);
  }

  lemma SplitAtNewline(s: string, i: nat)
    requires FirstBreak(s) == i < |s| && s[i] == '\n'
    ensures SplitLines(s) == [s[..i]] + SplitLines(s[i + 1..])
  {
  }

  lemma {:induction false} FirstBreakAt(line: string, s: string)
    requires NoLineBreak(line) && s != [] && IsLineBreak(s[0])
    ensures FirstBreak(line + s) == |line|
  {
    if line != [] {
      assert (line + s)[1..] == line[1..] + s;
      FirstBreakAt(line[1..], s);
    }
  }
}
