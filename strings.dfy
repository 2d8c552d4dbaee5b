/**
 * The parts of Python's `str` that the report pipeline relies on, as
 * functions over `seq<char>`: whitespace and character classes, `lower`,
 * `capitalize`, `strip`, `split`, `join`, `count`, `replace`, and the
 * code-point ordering that `sorted` uses. Case mapping is ASCII only.
 */
module Strings {

  /** A cell value that may or may not be a Python `str` (a NaN, a number, None). */
  datatype Value = Str(s: string) | NonStr

  // ---------------------------------------------------------------------
  // Character classes
  // ---------------------------------------------------------------------

  /** `str.isspace()`, which is also what `strip()` and the regex class `\s` use. */
  predicate IsSpace(c: char) {
    var n := c as int;
    n == 32 || 9 <= n <= 13 || 28 <= n <= 31 || n == 0x85 || n == 0xA0 || n == 0x1680
    || 0x2000 <= n <= 0x200A || n == 0x2028 || n == 0x2029 || n == 0x202F
    || n == 0x205F || n == 0x3000
  }

  /** The regex class `\d`, restricted to ASCII digits. */
  predicate IsDigit(c: char) {
    '0' <= c <= '9'
  }

  /** The regex class `[a-zA-Z]`. */
  predicate IsLetter(c: char) {
    'a' <= c <= 'z' || 'A' <= c <= 'Z'
  }

  predicate AllSpace(s: string) {
    forall i :: 0 <= i < |s| ==> IsSpace(s[i])
  }

  predicate AllDigits(s: string) {
    forall i :: 0 <= i < |s| ==> IsDigit(s[i])
  }

  predicate AllLetters(s: string) {
    forall i :: 0 <= i < |s| ==> IsLetter(s[i])
  }

  /** No leading and no trailing whitespace: what `strip()` leaves. */
  predicate IsStripped(s: string) {
    s == [] || (!IsSpace(s[0]) && !IsSpace(s[|s| - 1]))
  }

  // ---------------------------------------------------------------------
  // Case mapping
  // ---------------------------------------------------------------------

  function LowerChar(c: char): char {
    if 'A' <= c <= 'Z' then (c as int + 32) as char else c
  }

  function UpperChar(c: char): char {
    if 'a' <= c <= 'z' then (c as int - 32) as char else c
  }

  predicate IsLowerCase(s: string) {
    forall i :: 0 <= i < |s| ==> !('A' <= s[i] <= 'Z')
  }

  /** Python's lower, on ASCII letters. */
  function Lower(s: string): (r: string)
    ensures |r| == |s|
  {
    seq(|s|, i requires 0 <= i < |s| => LowerChar(s[i]))
  }

  /**
   * What `lower()` promises: the result has no upper-case letter, keeps
   * every whitespace character where it was, and leaves a lower-case text
   * as it is.
   */
  lemma LowerSpec(s: string)
    ensures IsLowerCase(Lower(s))
    ensures forall i :: 0 <= i < |s| ==> IsSpace(Lower(s)[i]) == IsSpace(s[i])
    ensures IsLowerCase(s) ==> Lower(s) == s
  {
    forall i | 0 <= i < |s|
      ensures IsSpace(Lower(s)[i]) == IsSpace(s[i])
    {
      assert Lower(s)[i] == LowerChar(s[i]);
    }
  }

  /** Lower-casing works character by character. */
  lemma LowerAppend(a: string, b: string)
    ensures Lower(a + b) == Lower(a) + Lower(b)
  {
    assert forall i :: 0 <= i < |a + b| ==> Lower(a + b)[i] == LowerChar((a + b)[i]);
  }

  /** `str.capitalize()`: first character upper case, the rest lower case. */
  function Capitalize(s: string): (r: string)
    ensures |r| == |s|
    ensures s != [] ==> r[0] == UpperChar(s[0]) && r[1..] == Lower(s[1..])
  {
    if s == [] then [] else [UpperChar(s[0])] + Lower(s[1..])
  }

  /** A word already written with one capital and then lower case is left as it is. */
  lemma CapitalizeTitle(s: string)
    requires s != [] && 'A' <= s[0] <= 'Z' && IsLowerCase(s[1..])
    ensures Capitalize(s) == s
  {
    LowerSpec(s[1..]);
    assert s == [s[0]] + s[1..];
  }

  // ---------------------------------------------------------------------
  // strip
  // ---------------------------------------------------------------------

  /** `str.lstrip()`: the longest suffix that does not start with whitespace. */
  function TrimStart(s: string): (r: string)
    ensures |r| <= |s|
    ensures r == [] || !IsSpace(r[0])
  {
    if s != [] && IsSpace(s[0]) then TrimStart(s[1..]) else s
  }

  /** `lstrip()` removes a prefix, and only whitespace. */
  lemma {:induction false} TrimStartSpec(s: string)
    ensures TrimStart(s) == s[|s| - |TrimStart(s)|..]
    ensures AllSpace(s[..|s| - |TrimStart(s)|])
  {
    if s != [] && IsSpace(s[0]) {
      TrimStartSpec(s[1..]);
      var n := |s| - |TrimStart(s)|;
      assert s[1..][n - 1..] == s[n..];
      assert forall i :: 1 <= i < n ==> s[..n][i] == s[1..][..n - 1][i - 1];
    }
  }

  /** `str.rstrip()`: the longest prefix that does not end with whitespace. */
  function TrimEnd(s: string): (r: string)
    ensures |r| <= |s|
    ensures r == [] || !IsSpace(r[|r| - 1])
    ensures r != [] ==> r[0] == s[0]
  {
    if s != [] && IsSpace(s[|s| - 1]) then TrimEnd(s[..|s| - 1]) else s
  }

  /** `rstrip()` removes a suffix, and only whitespace. */
  lemma {:induction false} TrimEndSpec(s: string)
    ensures TrimEnd(s) == s[..|TrimEnd(s)|]
    ensures AllSpace(s[|TrimEnd(s)|..])
  {
    if s != [] && IsSpace(s[|s| - 1]) {
      TrimEndSpec(s[..|s| - 1]);
      var n := |TrimEnd(s)|;
      assert s[..|s| - 1][..n] == s[..n];
      forall i | 0 <= i < |s| - n
        ensures IsSpace(s[n..][i])
      {
        if i < |s| - 1 - n {
          assert s[n..][i] == s[..|s| - 1][n..][i];
        }
      }
    }
  }

  /** Python's strip: whitespace removed from both ends. */
  function Strip(s: string): (r: string)
    ensures IsStripped(r)
    ensures |r| <= |s|
  {
    var t := TrimStart(s);
    var r := TrimEnd(t);
    if r == [] then r else
      assert !IsSpace(t[0]);
      r
  }

  /** `strip()` leaves nothing exactly when the text is all whitespace. */
  lemma StripEmpty(s: string)
    ensures Strip(s) == [] <==> AllSpace(s)
  {
    var t := TrimStart(s);
    TrimStartSpec(s);
    TrimEndSpec(t);
    var n := |s| - |t|;
    if Strip(s) == [] {
      forall i | 0 <= i < |s|
        ensures IsSpace(s[i])
      {
        if i < n {
          assert s[..n][i] == s[i];
        }
      }
    }
  }

  /** A sequence is its prefix followed by its suffix. */
  lemma SplitAt(s: string, n: nat)
    requires n <= |s|
    ensures s == s[..n] + s[n..]
  {
  }

  lemma StrippedIsFixpoint(s: string)
    requires IsStripped(s)
    ensures Strip(s) == s
  {
  }

  /** Stripping keeps a character only if it was there. */
  lemma StripKeeps(s: string, c: char)
    requires c in Strip(s)
    ensures c in s
  {
    var t := TrimStart(s);
    var r := TrimEnd(t);
    TrimStartSpec(s);
    TrimEndSpec(t);
    var k :| 0 <= k < |r| && r[k] == c;
    assert t[k] == c;
    assert s[|s| - |t| + k] == c;
  }

  /** Padding a stripped text with whitespace on both sides strips back to the text. */
  lemma {:induction false} StripPadded(w1: string, x: string, w2: string)
    requires AllSpace(w1) && AllSpace(w2) && IsStripped(x)
    ensures Strip(w1 + x + w2) == x
  {
    if x == [] {
      assert w1 + x + w2 == w1 + w2;
      TrimStartAllSpace(w1 + w2);
    } else {
      assert w1 + x + w2 == w1 + (x + w2);
      TrimStartPadded(w1, x + w2);
      TrimEndPadded(x, w2);
    }
  }

  /** Whitespace padding on either side does not change what `strip()` leaves. */
  lemma StripIgnoresPadding(w1: string, s: string, w2: string)
    requires AllSpace(w1) && AllSpace(w2)
    ensures Strip(w1 + s + w2) == Strip(s)
  {
    var t := TrimStart(s);
    var y := TrimEnd(t);
    TrimStartSpec(s);
    TrimEndSpec(t);
    var a := |s| - |t|;
    SplitAt(s, a);
    SplitAt(t, |y|);
    var pre := w1 + s[..a];
    var post := t[|y|..] + w2;
    AllSpaceAppend(w1, s[..a]);
    AllSpaceAppend(t[|y|..], w2);
    Regroup(w1, s[..a], y, t[|y|..], w2);
    StripPadded(pre, y, post);
  }

  lemma Regroup(a: string, b: string, c: string, d: string, e: string)
    ensures a + (b + (c + d)) + e == (a + b) + c + (d + e)
  {
  }

  lemma AllSpaceAppend(a: string, b: string)
    requires AllSpace(a) && AllSpace(b)
    ensures AllSpace(a + b)
  {
    forall i | 0 <= i < |a + b|
      ensures IsSpace((a + b)[i])
    {
      if i >= |a| {
        assert (a + b)[i] == b[i - |a|];
      }
    }
  }

  lemma {:induction false} TrimStartAllSpace(s: string)
    requires AllSpace(s)
    ensures TrimStart(s) == []
  {
    if s != [] {
      TrimStartAllSpace(s[1..]);
    }
  }

  lemma {:induction false} TrimStartPadded(w: string, y: string)
    requires AllSpace(w) && (y == [] || !IsSpace(y[0]))
    ensures TrimStart(w + y) == y
  {
    if w != [] {
      assert (w + y)[1..] == w[1..] + y;
      TrimStartPadded(w[1..], y);
    } else {
      assert w + y == y;
    }
  }

  lemma {:induction false} TrimEndPadded(x: string, w: string)
    requires AllSpace(w) && x != [] && !IsSpace(x[|x| - 1])
    ensures TrimEnd(x + w) == x
  {
    if w != [] {
      assert (x + w)[..|x + w| - 1] == x + w[..|w| - 1];
      TrimEndPadded(x, w[..|w| - 1]);
    } else {
      assert x + w == x;
    }
  }

  // ---------------------------------------------------------------------
  // count, split, join
  // ---------------------------------------------------------------------

  /** How many times the character `c` appears in `s`. */
  function Count(s: string, c: char): (n: nat)
    ensures n <= |s|
    ensures n == 0 <==> c !in s
  {
    if s == [] then 0 else (if s[0] == c then 1 else 0) + Count(s[1..], c)
  }

  lemma {:induction false} CountAppend(a: string, b: string, c: char)
    ensures Count(a + b, c) == Count(a, c) + Count(b, c)
  {
    if a != [] {
      assert (a + b)[1..] == a[1..] + b;
      CountAppend(a[1..], b, c);
    } else {
      assert a + b == b;
    }
  }

  /** Python's split at a one-character separator: the pieces between separators, empty ones included. */
  function Split(s: string, sep: char): (parts: seq<string>)
    ensures |parts| == Count(s, sep) + 1
  {
    if s == [] then [[]]
    else
      var rest := Split(s[1..], sep);
      if s[0] == sep then [[]] + rest
      else [[s[0]] + rest[0]] + rest[1..]
  }

  /** No piece contains the separator. */
  lemma {:induction false} SplitPartsFree(s: string, sep: char)
    ensures forall i :: 0 <= i < |Split(s, sep)| ==> sep !in Split(s, sep)[i]
  {
    if s != [] {
      SplitPartsFree(s[1..], sep);
      var rest := Split(s[1..], sep);
      if s[0] != sep {
        assert forall i :: 1 <= i < |Split(s, sep)| ==> Split(s, sep)[i] == rest[i];
      }
    }
  }

  /** Python's join: the parts with `sep` between each two of them. */
  function Join(parts: seq<string>, sep: string): string {
    if parts == [] then []
    else if |parts| == 1 then parts[0]
    else parts[0] + sep + Join(parts[1..], sep)
  }

  /** Splitting and joining back on the same separator gives the original text. */
  lemma {:induction false} JoinSplit(s: string, sep: char)
    ensures Join(Split(s, sep), [sep]) == s
  {
    if s != [] {
      var rest := Split(s[1..], sep);
      JoinSplit(s[1..], sep);
      if s[0] == sep {
        assert Split(s, sep) == [[]] + rest;
      } else {
        var parts := Split(s, sep);
        assert parts == [[s[0]] + rest[0]] + rest[1..];
        if |rest| == 1 {
          assert parts == [[s[0]] + rest[0]];
        } else {
          assert parts[1..] == rest[1..];
          assert Join(rest, [sep]) == rest[0] + [sep] + Join(rest[1..], [sep]);
        }
      }
    }
  }

  /** A text with no separator in it splits into itself alone. */
  lemma {:induction false} SplitNoSeparator(s: string, sep: char)
    requires sep !in s
    ensures Split(s, sep) == [s]
  {
    if s != [] {
      SplitNoSeparator(s[1..], sep);
      assert [s[0]] + s[1..] == s;
    }
  }

  /** The separator that ends the first piece starts a new piece. */
  lemma {:induction false} SplitAtSeparator(a: string, sep: char, b: string)
    requires sep !in a
    ensures Split(a + ([sep] + b), sep) == [a] + Split(b, sep)
  {
    if a == [] {
      assert a + ([sep] + b) == [sep] + b;
      assert ([sep] + b)[1..] == b;
    } else {
      assert (a + ([sep] + b))[1..] == a[1..] + ([sep] + b);
      SplitAtSeparator(a[1..], sep, b);
      assert [a[0]] + a[1..] == a;
    }
  }

  /** Joining pieces that do not contain the separator and splitting again gives the pieces. */
  lemma {:induction false} SplitJoin(parts: seq<string>, sep: char)
    requires parts != []
    requires forall i :: 0 <= i < |parts| ==> sep !in parts[i]
    ensures Split(Join(parts, [sep]), sep) == parts
  {
    if |parts| == 1 {
      SplitNoSeparator(parts[0], sep);
    } else {
      SplitJoin(parts[1..], sep);
      SplitAtSeparator(parts[0], sep, Join(parts[1..], [sep]));
      assert parts[0] + ([sep] + Join(parts[1..], [sep])) == Join(parts, [sep]);
    }
  }

  /** Whitespace holds no occurrence of a character that is not whitespace. */
  lemma AllSpaceCount(w: string, c: char)
    requires AllSpace(w) && !IsSpace(c)
    ensures Count(w, c) == 0
  {
  }

  /** Stripping removes only whitespace, so it keeps every other character's count. */
  lemma StripCount(s: string, c: char)
    requires !IsSpace(c)
    ensures Count(Strip(s), c) == Count(s, c)
  {
    var t := TrimStart(s);
    var y := TrimEnd(t);
    TrimStartSpec(s);
    TrimEndSpec(t);
    var a := |s| - |t|;
    SplitAt(s, a);
    CountAppend(s[..a], t, c);
    AllSpaceCount(s[..a], c);
    SplitAt(t, |y|);
    CountAppend(y, t[|y|..], c);
    AllSpaceCount(t[|y|..], c);
  }

  /** A character in neither the pieces nor the separator is not in their join. */
  lemma {:induction false} JoinFree(parts: seq<string>, sep: string, c: char)
    requires c !in sep
    requires forall i :: 0 <= i < |parts| ==> c !in parts[i]
    ensures c !in Join(parts, sep)
  {
    if |parts| > 1 {
      JoinFree(parts[1..], sep, c);
    }
  }

  /** Joining non-empty stripped pieces, whatever the separator, gives a stripped text. */
  lemma {:induction false} JoinStrippedPieces(parts: seq<string>, sep: string)
    requires forall i :: 0 <= i < |parts| ==> parts[i] != [] && IsStripped(parts[i])
    ensures Join(parts, sep) != [] <==> parts != []
    ensures IsStripped(Join(parts, sep))
  {
    if |parts| > 1 {
      JoinStrippedPieces(parts[1..], sep);
      var j := Join(parts, sep);
      var rest := Join(parts[1..], sep);
      assert j == parts[0] + sep + rest;
      assert j[0] == parts[0][0];
      assert j[|j| - 1] == rest[|rest| - 1];
    }
  }

  /** Joining stripped pieces with a stripped, non-empty separator gives a stripped text. */
  lemma {:induction false} JoinStrippedSeparator(parts: seq<string>, sep: string)
    requires sep != [] && IsStripped(sep)
    requires forall i :: 0 <= i < |parts| ==> IsStripped(parts[i])
    ensures IsStripped(Join(parts, sep))
  {
    if |parts| > 1 {
      JoinStrippedSeparator(parts[1..], sep);
      var j := Join(parts, sep);
      var rest := Join(parts[1..], sep);
      var head := parts[0] + sep;
      assert j == head + rest;
      assert head[0] == if parts[0] != [] then parts[0][0] else sep[0];
      assert head[|head| - 1] == sep[|sep| - 1];
      assert j[0] == head[0];
      assert j[|j| - 1] == if rest != [] then rest[|rest| - 1] else head[|head| - 1];
    }
  }

  // ---------------------------------------------------------------------
  // replace
  // ---------------------------------------------------------------------

  predicate StartsWith(s: string, p: string) {
    |p| <= |s| && s[..|p|] == p
  }

  /** `pat` occurs somewhere in `s`. */
  predicate Occurs(pat: string, s: string) {
    exists i :: 0 <= i <= |s| - |pat| && StartsWith(s[i..], pat)
  }

  /** Python's replace: every non-overlapping occurrence of `pat` replaced by `rep`, scanning left to right. */
  function ReplaceAll(s: string, pat: string, rep: string): string
    requires pat != []
  {
    if |s| < |pat| then s
    else if StartsWith(s, pat) then rep + ReplaceAll(s[|pat|..], pat, rep)
    else [s[0]] + ReplaceAll(s[1..], pat, rep)
  }

  /** Replacing a text that does not occur changes nothing. */
  lemma {:induction false} ReplaceAbsent(s: string, pat: string, rep: string)
    requires pat != [] && !Occurs(pat, s)
    ensures ReplaceAll(s, pat, rep) == s
  {
    if |s| >= |pat| {
      assert !StartsWith(s[0..], pat);
      assert s[0..] == s;
      forall i | 0 <= i <= |s[1..]| - |pat|
        ensures !StartsWith(s[1..][i..], pat)
      {
        assert s[1..][i..] == s[i + 1..];
      }
      ReplaceAbsent(s[1..], pat, rep);
    }
  }

  /** The positions of `a` do not start an occurrence of `pat` in `a + b`. */
  predicate NoMatchBefore(a: string, b: string, pat: string) {
    forall i :: 0 <= i < |a| ==> !StartsWith((a + b)[i..], pat)
  }

  /** A stretch with no occurrence starting in it is copied through unchanged. */
  lemma {:induction false} ReplaceSkip(a: string, b: string, pat: string, rep: string)
    requires pat != [] && NoMatchBefore(a, b, pat)
    ensures ReplaceAll(a + b, pat, rep) == a + ReplaceAll(b, pat, rep)
  {
    if a != [] {
      forall i | 0 <= i < |a[1..]|
        ensures !StartsWith((a[1..] + b)[i..], pat)
      {
        assert (a[1..] + b)[i..] == (a + b)[i + 1..];
      }
      ReplaceSkip(a[1..], b, pat, rep);
      if |a + b| < |pat| {
        ReplaceAbsent(b, pat, rep);
      } else {
        assert !StartsWith(a + b, pat) by {
          assert (a + b)[0..] == a + b;
        }
        calc {
          ReplaceAll(a + b, pat, rep);
          [a[0]] + ReplaceAll((a + b)[1..], pat, rep);
          { assert (a + b)[1..] == a[1..] + b; }
          [a[0]] + (a[1..] + ReplaceAll(b, pat, rep));
          { assert a == [a[0]] + a[1..]; }
          a + ReplaceAll(b, pat, rep);
        }
      }
    } else {
      assert a + b == b;
    }
  }

  /**
   * The first occurrence is replaced: when `pat` does not occur in `a`
   * followed by all but the last character of `pat`, the replacement of
   * `a + pat + b` keeps `a`, puts `rep` in place of `pat` and goes on in `b`.
   */
  lemma ReplaceFirst(a: string, pat: string, b: string, rep: string)
    requires pat != [] && !Occurs(pat, a + pat[..|pat| - 1])
    ensures ReplaceAll(a + pat + b, pat, rep) == a + rep + ReplaceAll(b, pat, rep)
  {
    var s := a + pat + b;
    assert s == a + (pat + b);
    forall i | 0 <= i < |a|
      ensures !StartsWith(s[i..], pat)
    {
      assert !StartsWith((a + pat[..|pat| - 1])[i..], pat);
      assert (a + pat[..|pat| - 1])[i..][..|pat|] == s[i..][..|pat|];
    }
    ReplaceSkip(a, pat + b, pat, rep);
    assert StartsWith(pat + b, pat);
    assert (pat + b)[|pat|..] == b;
  }

  /** A match at the start of `u + v` ends inside `u` when `v` starts with a character foreign to `pat`. */
  lemma MatchInsideFirst(u: string, v: string, pat: string)
    requires StartsWith(u + v, pat) && (v == [] || v[0] !in pat)
    ensures |pat| <= |u|
  {
    if v != [] {
      assert (u + v)[|u|] == v[0];
    }
  }

  /**
   * Replacing splits at a character that does not appear in `pat`: no
   * occurrence can straddle the boundary.
   */
  lemma {:induction false} ReplaceConcat(u: string, v: string, pat: string, rep: string)
    requires pat != [] && (v == [] || v[0] !in pat)
    ensures ReplaceAll(u + v, pat, rep) == ReplaceAll(u, pat, rep) + ReplaceAll(v, pat, rep)
    decreases |u|
  {
    if u == [] {
      assert u + v == v;
    } else if |u + v| < |pat| {
    } else if StartsWith(u + v, pat) {
      MatchInsideFirst(u, v, pat);
      assert (u + v)[..|pat|] == u[..|pat|];
      assert (u + v)[|pat|..] == u[|pat|..] + v;
      ReplaceConcat(u[|pat|..], v, pat, rep);
    } else {
      if |u| >= |pat| {
        assert (u + v)[..|pat|] == u[..|pat|];
      }
      assert (u + v)[1..] == u[1..] + v;
      ReplaceConcat(u[1..], v, pat, rep);
    }
  }

  /** A text in which the first character of `pat` never appears is left as it is. */
  lemma ReplaceNoStart(s: string, pat: string, rep: string)
    requires pat != [] && pat[0] !in s
    ensures ReplaceAll(s, pat, rep) == s
  {
    forall i | 0 <= i <= |s| - |pat|
      ensures !StartsWith(s[i..], pat)
    {
      assert s[i..][..|pat|][0] == s[i];
    }
    ReplaceAbsent(s, pat, rep);
  }

  /** A digit is not whitespace. */
  lemma DigitNotSpace(c: char)
    requires IsDigit(c)
    ensures !IsSpace(c)
  {
  }

  /** A string of digits does not contain a character that is not a digit. */
  lemma DigitsLack(s: string, c: char)
    requires AllDigits(s) && !IsDigit(c)
    ensures c !in s
  {
  }

  /** A space in front of the text is kept when `pat` does not start with a space. */
  lemma ReplaceAfterSpace(s: string, pat: string, rep: string)
    requires pat != [] && pat[0] != ' '
    ensures ReplaceAll(" " + s, pat, rep) == " " + ReplaceAll(s, pat, rep)
  {
    forall i | 0 <= i < 1
      ensures !StartsWith((" " + s)[i..], pat)
    {
      assert (" " + s)[0] == ' ';
    }
    ReplaceSkip(" ", s, pat, rep);
  }

  /** Digits and a space in front of the text are kept. */
  lemma ReplaceAfterDigits(d: string, s: string, pat: string, rep: string)
    requires pat != [] && ' ' !in pat && !IsDigit(pat[0]) && AllDigits(d)
    ensures ReplaceAll(d + (" " + s), pat, rep) == d + (" " + ReplaceAll(s, pat, rep))
  {
    assert pat[0] != ' ';
    DigitsLack(d, pat[0]);
    ReplaceConcat(d, " " + s, pat, rep);
    ReplaceNoStart(d, pat, rep);
    ReplaceAfterSpace(s, pat, rep);
  }

  /** A space and digits after the text are kept. */
  lemma ReplaceBeforeDigits(w: string, y: string, pat: string, rep: string)
    requires pat != [] && ' ' !in pat && !IsDigit(pat[0]) && AllDigits(y)
    ensures ReplaceAll(w + (" " + y), pat, rep) == ReplaceAll(w, pat, rep) + (" " + y)
  {
    assert pat[0] != ' ';
    DigitsLack(y, pat[0]);
    ReplaceConcat(w, " " + y, pat, rep);
    ReplaceAfterSpace(y, pat, rep);
    ReplaceNoStart(y, pat, rep);
  }

  /**
   * In a date written as digits, a space, a word, a space and digits, a
   * pattern without spaces that does not start with a digit can only match
   * inside the word.
   */
  lemma ReplaceInWord(d: string, w: string, y: string, pat: string, rep: string)
    requires pat != [] && ' ' !in pat && !IsDigit(pat[0])
    requires AllDigits(d) && AllDigits(y)
    ensures ReplaceAll(d + " " + w + " " + y, pat, rep) == d + " " + ReplaceAll(w, pat, rep) + " " + y
  {
    calc {
      ReplaceAll(d + " " + w + " " + y, pat, rep);
      { assert d + " " + w + " " + y == d + (" " + (w + (" " + y))); }
      ReplaceAll(d + (" " + (w + (" " + y))), pat, rep);
      { ReplaceAfterDigits(d, w + (" " + y), pat, rep); }
      d + (" " + ReplaceAll(w + (" " + y), pat, rep));
      { ReplaceBeforeDigits(w, y, pat, rep); }
      d + (" " + (ReplaceAll(w, pat, rep) + (" " + y)));
      d + " " + ReplaceAll(w, pat, rep) + " " + y;
    }
  }

  // ---------------------------------------------------------------------
  // Ordering used by `sorted` on strings
  // ---------------------------------------------------------------------

  /** Python's `<` on `str`: lexicographic by code point, a proper prefix first. */
  predicate Less(a: string, b: string) {
    if a == [] then b != []
    else if b == [] then false
    else if a[0] != b[0] then a[0] < b[0]
    else Less(a[1..], b[1..])
  }

  lemma {:induction false} LessIrreflexive(a: string)
    ensures !Less(a, a)
  {
    if a != [] {
      LessIrreflexive(a[1..]);
    }
  }

  lemma {:induction false} LessTransitive(a: string, b: string, c: string)
    requires Less(a, b) && Less(b, c)
    ensures Less(a, c)
  {
    if a != [] && b != [] && c != [] && a[0] == b[0] && b[0] == c[0] {
      LessTransitive(a[1..], b[1..], c[1..]);
    }
  }

  lemma {:induction false} LessTotal(a: string, b: string)
    ensures a == b || Less(a, b) || Less(b, a)
  {
    if a != [] && b != [] && a[0] == b[0] {
      LessTotal(a[1..], b[1..]);
      if a[1..] == b[1..] {
        assert a == [a[0]] + a[1..] && b == [b[0]] + b[1..];
      }
    }
  }
}
