/** Optional values, standing for Python's `None` and for exceptions that a
    caller turns into "no value". */
module Wrappers {
  datatype Option<+T> = None | Some(value: T)
}

/** The few pieces of Python's `str` behaviour that the scripts rely on:
    `str.isspace`, `str.strip`, reading a text file line by line, `str(n)`
    for a natural number and `c * n`. */
module Text {

  /** CPython's whitespace table: what `str.isspace`, `str.strip()`,
      `str.split()` and the regular-expression class `\s` (on `str`
      patterns) all treat as whitespace. */
  predicate IsSpace(c: char) {
    || ('\t' <= c <= '\r')
    || ('\U{1c}' <= c <= '\U{1f}')
    || c == ' '
    || c == '\U{85}'
    || c == '\U{a0}'
    || c == '\U{1680}'
    || ('\U{2000}' <= c <= '\U{200a}')
    || c == '\U{2028}'
    || c == '\U{2029}'
    || c == '\U{202f}'
    || c == '\U{205f}'
    || c == '\U{3000}'
  }

  /** A string that is empty once stripped (Python: `not s.strip()`). */
  predicate IsBlank(s: string) {
    forall i :: 0 <= i < |s| ==> IsSpace(s[i])
  }

  /** `s.lstrip()`: the suffix left after the leading whitespace run. */
  function StripLeft(s: string): (r: string)
    ensures |r| <= |s|
    ensures s != [] && IsSpace(s[0]) ==> |r| < |s|
  {
    if s != [] && IsSpace(s[0]) then StripLeft(s[1..]) else s
  }

  /** `lstrip` keeps a suffix, drops only whitespace and leaves none in
      front. */
  lemma {:induction false} StripLeftSpec(s: string)
    ensures StripLeft(s) == s[|s| - |StripLeft(s)|..]
    ensures forall i :: 0 <= i < |s| - |StripLeft(s)| ==> IsSpace(s[i])
    ensures StripLeft(s) != [] ==> !IsSpace(StripLeft(s)[0])
  {
    if s != [] && IsSpace(s[0]) {
      var t := s[1..];
      StripLeftSpec(t);
      assert StripLeft(s) == StripLeft(t);
      assert t[|t| - |StripLeft(t)|..] == s[|s| - |StripLeft(s)|..];
      forall i | 0 <= i < |s| - |StripLeft(s)| ensures IsSpace(s[i]) {
        if i > 0 { assert s[i] == t[i - 1]; }
      }
    }
  }

  /** `s.rstrip()`: the prefix left before the trailing whitespace run. */
  function StripRight(s: string): (r: string)
    ensures |r| <= |s|
  {
    if s != [] && IsSpace(s[|s| - 1]) then StripRight(s[..|s| - 1]) else s
  }

  /** `rstrip` keeps a prefix, drops only whitespace and leaves none at the
      end. */
  lemma {:induction false} StripRightSpec(s: string)
    ensures StripRight(s) == s[..|StripRight(s)|]
    ensures forall i :: |StripRight(s)| <= i < |s| ==> IsSpace(s[i])
    ensures StripRight(s) != [] ==> !IsSpace(StripRight(s)[|StripRight(s)| - 1])
  {
    if s != [] && IsSpace(s[|s| - 1]) {
      var t := s[..|s| - 1];
      StripRightSpec(t);
      assert StripRight(s) == StripRight(t);
      assert t[..|StripRight(t)|] == s[..|StripRight(s)|];
      forall i | |StripRight(s)| <= i < |s| ensures IsSpace(s[i]) {
        if i < |t| { assert s[i] == t[i]; }
      }
    }
  }

  /** `s.strip()`: `s` without its leading and trailing whitespace. */
  function Strip(s: string): string {
    StripRight(StripLeft(s))
  }

  /** What `Strip` keeps is a contiguous slice of the input, and everything
      it drops is whitespace. */
  lemma StripSlice(s: string)
    ensures exists i, j :: 0 <= i <= j <= |s| && Strip(s) == s[i..j]
                        && (forall k :: 0 <= k < i ==> IsSpace(s[k]))
                        && (forall k :: j <= k < |s| ==> IsSpace(s[k]))
  {
    var i, j := StripCut(s);
  }

  /** Where `Strip` cuts `s`: before `i` and from `j` on. */
  lemma StripCut(s: string) returns (i: nat, j: nat)
    ensures i <= j <= |s| && Strip(s) == s[i..j]
    ensures forall k :: 0 <= k < i ==> IsSpace(s[k])
    ensures forall k :: j <= k < |s| ==> IsSpace(s[k])
  {
    var l := StripLeft(s);
    StripLeftSpec(s);
    StripRightSpec(l);
    i, j := CutBounds(s, l, StripRight(l));
  }

  /** `Strip` keeps no whitespace at either end, and it is empty exactly for
      a blank string. */
  lemma StripSpec(s: string)
    ensures Strip(s) != [] ==> !IsSpace(Strip(s)[0]) && !IsSpace(Strip(s)[|Strip(s)| - 1])
    ensures Strip(s) == [] <==> IsBlank(s)
  {
    var l := StripLeft(s);
    var r := StripRight(l);
    StripLeftSpec(s);
    StripRightSpec(l);
    var i, j := CutBounds(s, l, r);
    assert r != [] ==> r[0] == l[0];
    assert l != [] ==> l[0] == s[i];
  }

  /** Cutting a whitespace prefix off `s`, giving `l`, and then a whitespace
      suffix off `l`, giving `r`, leaves a slice `s[i..j]` with whitespace
      only outside it. */
  lemma CutBounds(s: string, l: string, r: string) returns (i: nat, j: nat)
    requires |l| <= |s| && l == s[|s| - |l|..]
    requires forall k :: 0 <= k < |s| - |l| ==> IsSpace(s[k])
    requires |r| <= |l| && r == l[..|r|]
    requires forall k :: |r| <= k < |l| ==> IsSpace(l[k])
    ensures i <= j <= |s| && r == s[i..j]
    ensures forall k :: 0 <= k < i ==> IsSpace(s[k])
    ensures forall k :: j <= k < |s| ==> IsSpace(s[k])
  {
    i := |s| - |l|;
    j := i + |r|;
    forall k | j <= k < |s| ensures IsSpace(s[k]) {
      assert s[k] == l[k - i];
    }
  }

  /** Every character `Strip` keeps is a character of the input. */
  lemma StripKeepsCharacters(s: string)
    ensures forall i :: 0 <= i < |Strip(s)| ==> Strip(s)[i] in s
  {
    var i, j := StripCut(s);
    SliceCharacters(s, i, j);
  }

  /** Every character of a slice occurs in the sequence it is cut from. */
  lemma SliceCharacters(s: string, i: nat, j: nat)
    requires i <= j <= |s|
    ensures forall k :: 0 <= k < j - i ==> s[i..j][k] in s
  {
    forall k | 0 <= k < j - i ensures s[i..j][k] in s {
      assert s[i..j][k] == s[i + k];
    }
  }

  /** A non-empty string with no whitespace at either end is its own
      strip. */
  lemma NoEndSpaceIsStripped(s: string)
    requires s != [] && !IsSpace(s[0]) && !IsSpace(s[|s| - 1])
    ensures Strip(s) == s
  {
    assert StripLeft(s) == s;
    assert StripRight(s) == s;
  }

  /** Stripping a stripped string changes nothing. */
  lemma StripIdempotent(s: string)
    ensures Strip(Strip(s)) == Strip(s)
  {
    var t := Strip(s);
    StripSpec(s);
    if t != [] {
      NoEndSpaceIsStripped(t);
    }
  }

  /** A line terminator as seen by a file opened in Python's text mode
      (universal newlines: `\n`, `\r` and `\r\n`). */
  predicate IsLineBreak(c: char) {
    c == '\n' || c == '\r'
  }

  predicate HasNoLineBreak(s: string) {
    forall i :: 0 <= i < |s| ==> !IsLineBreak(s[i])
  }

  /** The pieces of a file's content between line terminators. Iterating
      over a Python text file yields each of these with its terminator
      attached; the model drops the terminator, so `\r\n` yields an extra
      empty piece and the file's end yields one more. Every consumer in
      this model strips each piece and skips the blank ones, so the
      difference is invisible to it. */
  function SplitLines(s: string): (r: seq<string>)
    ensures |r| >= 1
    ensures forall k :: 0 <= k < |r| ==> HasNoLineBreak(r[k])
  {
    if s == [] then [[]]
    else if IsLineBreak(s[0]) then [[]] + SplitLines(s[1..])
    else
      var rest := SplitLines(s[1..]);
      [[s[0]] + rest[0]] + rest[1..]
  }

  /** A piece without terminators followed by a terminator splits off as
      one line, whatever follows. */
  lemma {:induction false} SplitLinesLine(t: string, c: char, rest: string)
    requires HasNoLineBreak(t) && IsLineBreak(c)
    ensures SplitLines(t + [c] + rest) == [t] + SplitLines(rest)
  {
    if t == [] {
      assert [] + [c] + rest == [c] + rest;
      assert ([c] + rest)[1..] == rest;
    } else {
      assert (t + [c] + rest)[0] == t[0];
      assert (t + [c] + rest)[1..] == t[1..] + [c] + rest;
      SplitLinesLine(t[1..], c, rest);
      assert [t[0]] + t[1..] == t;
    }
  }

  /** Text without terminators is one line. With `SplitLinesLine` this
      fixes the pieces of every input: the first terminator ends the first
      piece, and so on. */
  lemma {:induction false} SplitLinesPiece(t: string)
    requires HasNoLineBreak(t)
    ensures SplitLines(t) == [t]
  {
    if t != [] {
      SplitLinesPiece(t[1..]);
      assert [t[0]] + t[1..] == t;
    }
  }

  /** The decimal digit for `d`. */
  function DigitChar(d: nat): (c: char)
    requires d < 10
    ensures '0' <= c <= '9'
  {
    (48 + d) as char
  }

  /** `str(n)` for a natural number: its decimal representation. */
  function NatToString(n: nat): (r: string)
    ensures |r| >= 1
    ensures forall i :: 0 <= i < |r| ==> '0' <= r[i] <= '9'
    ensures r[0] == '0' ==> n == 0
  {
    if n < 10 then [DigitChar(n)] else NatToString(n / 10) + [DigitChar(n % 10)]
  }

  /** The value of a string of decimal digits (Python: `int(s)` on digits). */
  function DigitsValue(s: string): nat
    requires forall i :: 0 <= i < |s| ==> '0' <= s[i] <= '9'
  {
    if s == [] then 0
    else DigitsValue(s[..|s| - 1]) * 10 + ((s[|s| - 1] as int) - 48)
  }

  /** Reading back the decimal representation gives the number: distinct
      numbers get distinct representations. */
  lemma {:induction false} NatToStringRoundTrip(n: nat)
    ensures DigitsValue(NatToString(n)) == n
  {
    if n >= 10 {
      var r := NatToString(n);
      assert r[..|r| - 1] == NatToString(n / 10);
      NatToStringRoundTrip(n / 10);
    }
  }

  /** Slicing a whole sequence gives it back. */
  lemma WholeSeq<T>(xs: seq<T>)
    ensures xs[..|xs|] == xs
  {
  }

  /** `c * n` for a one-character string `c`. */
  function Repeat(c: char, n: nat): (r: string)
    ensures |r| == n && forall i :: 0 <= i < n ==> r[i] == c
  {
    seq(n, _ => c)
  }

  /** `c * (m + n) == c * m + c * n`. */
  lemma RepeatAppend(c: char, m: nat, n: nat)
    ensures Repeat(c, m + n) == Repeat(c, m) + Repeat(c, n)
  {
    var r, a, b := Repeat(c, m + n), Repeat(c, m), Repeat(c, n);
    forall i | 0 <= i < m + n ensures r[i] == (a + b)[i] {
      if i < m { assert (a + b)[i] == a[i]; } else { assert (a + b)[i] == b[i - m]; }
    }
  }
}
