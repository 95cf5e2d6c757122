/**
 * The handful of Python 2 `str` operations that the reconciliation code relies on
 * (`find`, slicing from an index, `strip`, `split`, `join`, `startswith`, `lower`,
 * `str(int)`), written out with the semantics CPython gives them.
 */
module PyStr {

  /** `s.find(c)`: index of the first `c`, or -1 when there is none. */
  function Find(s: string, c: char): (r: int)
    ensures -1 <= r < |s|
    ensures r == -1 <==> c !in s
    ensures r >= 0 ==> s[r] == c && c !in s[..r]
  {
    if |s| == 0 then -1
    else if s[0] == c then 0
    else
      var k := Find(s[1..], c);
      assert s[1..][..if k < 0 then 0 else k] == s[1..if k < 0 then 1 else k + 1];
      if k < 0 then -1 else k + 1
  }

  lemma {:induction false} FindAfterPrefix(p: string, c: char, t: string)
    requires c !in p
    ensures Find(p + [c] + t, c) == |p|
  {
    var s := p + [c] + t;
    assert s[|p|] == c;
    assert s[..|p|] == p;
  }

  /** `s[i:]` for an int index, negative indices counting from the end. */
  function SliceFrom(s: string, i: int): (r: string)
    ensures i >= 0 ==> r == s[if i <= |s| then i else |s|..]
  {
    if i < 0 then (if |s| + i < 0 then s else s[|s| + i..])
    else if i <= |s| then s[i..] else ""
  }

  /**
   * A negative start counts from the end: it is the start `|s| + i` when that is a
   * position, and the whole string when it lies before the first character; either
   * way the slice is the last `min(-i, |s|)` characters.
   */
  lemma SliceFromNegative(s: string, i: int)
    requires i < 0
    ensures |s| + i >= 0 ==> SliceFrom(s, i) == SliceFrom(s, |s| + i)
    ensures |s| + i < 0 ==> SliceFrom(s, i) == s
    ensures var r := SliceFrom(s, i); |r| == (if -i <= |s| then -i else |s|) && r == s[|s| - |r|..]
  {
  }

  /** The characters `str.strip()` removes when called without an argument. */
  predicate IsSpace(ch: char)
  {
    ch == ' ' || ch == '\t' || ch == '\n' || ch == '\r' || ch == '\U{000B}' || ch == '\U{000C}'
  }

  function LStrip(s: string, cs: set<char>): (r: string)
    ensures |r| > 0 ==> r[0] !in cs
  {
    if |s| > 0 && s[0] in cs then LStrip(s[1..], cs) else s
  }

  function RStrip(s: string, cs: set<char>): (r: string)
    ensures |r| > 0 ==> r[|r| - 1] !in cs
  {
    if |s| > 0 && s[|s| - 1] in cs then RStrip(s[..|s| - 1], cs) else s
  }

  /** `s.strip(chars)`. */
  function StripChars(s: string, cs: set<char>): string
  {
    RStrip(LStrip(s, cs), cs)
  }

  const Whitespace: set<char> := {' ', '\t', '\n', '\r', '\U{000B}', '\U{000C}'}

  /** `s.strip()`. */
  function Strip(s: string): string
  {
    StripChars(s, Whitespace)
  }

  lemma StripUntouched(s: string, cs: set<char>)
    requires |s| > 0 && s[0] !in cs && s[|s| - 1] !in cs
    ensures StripChars(s, cs) == s
  {
  }

  lemma StripOneLeading(c: char, s: string, cs: set<char>)
    requires c in cs && |s| > 0 && s[0] !in cs && s[|s| - 1] !in cs
    ensures StripChars([c] + s, cs) == s
  {
    assert ([c] + s)[1..] == s;
    assert LStrip([c] + s, cs) == LStrip(s, cs) == s;
  }

  /** `s.startswith(p)`. */
  predicate StartsWith(s: string, p: string)
  {
    |p| <= |s| && s[..|p|] == p
  }

  /** `s.endswith(p)`. */
  predicate EndsWith(s: string, p: string)
  {
    |p| <= |s| && s[|s| - |p|..] == p
  }

  /** `s.split(c)` for a one-character separator: always at least one piece. */
  function Split(s: string, c: char): (r: seq<string>)
    ensures |r| >= 1
    ensures forall k :: 0 <= k < |r| ==> c !in r[k]
    decreases |s|
  {
    var i := Find(s, c);
    if i < 0 then [s] else [s[..i]] + Split(s[i + 1..], c)
  }

  /** `sep.join(parts)`. */
  function Join(sep: string, parts: seq<string>): string
  {
    if |parts| == 0 then ""
    else if |parts| == 1 then parts[0]
    else parts[0] + sep + Join(sep, parts[1..])
  }

  /** Splitting on the separator undoes joining with it, when no piece holds the separator. */
  lemma {:induction false} SplitJoin(parts: seq<string>, c: char)
    requires |parts| >= 1
    requires forall k :: 0 <= k < |parts| ==> c !in parts[k]
    ensures Split(Join([c], parts), c) == parts
  {
    if |parts| > 1 {
      var rest := Join([c], parts[1..]);
      FindAfterPrefix(parts[0], c, rest);
      var s := parts[0] + [c] + rest;
      assert s[..|parts[0]|] == parts[0];
      assert s[|parts[0]| + 1..] == rest;
      SplitJoin(parts[1..], c);
    }
  }

  /** The first piece of `s.split(c)`: everything before the first `c`. */
  lemma SplitHead(s: string, c: char, t: string)
    requires c !in s
    ensures Split(s + [c] + t, c)[0] == s
  {
    FindAfterPrefix(s, c, t);
    assert (s + [c] + t)[..|s|] == s;
  }

  /** `s.lower()` on a Python 2 byte string: only ASCII capitals change. */
  function Lower(s: string): (r: string)
    ensures |r| == |s|
  {
    if |s| == 0 then ""
    else [if 'A' <= s[0] <= 'Z' then (s[0] as int + 32) as char else s[0]] + Lower(s[1..])
  }

  /** Whether every character of `s` is a decimal digit. */
  predicate AllDigits(s: string)
  {
    forall k :: 0 <= k < |s| ==> '0' <= s[k] <= '9'
  }

  /** The number a string of decimal digits denotes, most significant digit first. */
  function DigitsValue(s: string): nat
    requires AllDigits(s)
  {
    if |s| == 0 then 0
    else 10 * DigitsValue(s[..|s| - 1]) + (s[|s| - 1] as int - '0' as int)
  }

  /** `str(n)` for a non-negative int: decimal digits that denote `n`, without a leading zero. */
  function NatToString(n: nat): (r: string)
    ensures |r| >= 1 && AllDigits(r)
    ensures DigitsValue(r) == n
    ensures |r| > 1 ==> r[0] != '0'
  {
    if n < 10 then [Digit(n)]
    else
      var init := NatToString(n / 10);
      var r := init + [Digit(n % 10)];
      assert r[..|r| - 1] == init;
      r
  }

  /** The character of a decimal digit. */
  function Digit(d: nat): (r: char)
    requires d < 10
    ensures '0' <= r <= '9' && r as int - '0' as int == d
  {
    ('0' as int + d) as char
  }
}
