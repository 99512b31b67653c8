/** The few pieces of Python's `str` behaviour the generator relies on:
    repetition, `join`, `split` on one character, ASCII `lower`, `isnumeric`,
    `int()`/`str()` on integers and `repr` of strings and lists of strings. */
module Strings {

  import opened Wrappers

  /** Python `s * n`. */
  function Repeat(s: string, n: nat): (r: string)
    ensures |r| == |s| * n
  {
    if n == 0 then "" else s + Repeat(s, n - 1)
  }

  /** Python `' ' * n`. */
  function Spaces(n: nat): (r: string)
    ensures |r| == n
    ensures forall i :: 0 <= i < n ==> r[i] == ' '
  {
    if n == 0 then "" else " " + Spaces(n - 1)
  }

  /** `sub` sits in `s` starting at index `pos`. */
  predicate OccursAt(s: string, sub: string, pos: int) {
    0 <= pos && pos + |sub| <= |s| && s[pos .. pos + |sub|] == sub
  }

  predicate EndsWith(s: string, suffix: string) {
    |suffix| <= |s| && s[|s| - |suffix| ..] == suffix
  }

  predicate StartsWith(s: string, prefix: string) {
    |prefix| <= |s| && s[..|prefix|] == prefix
  }

  /** An occurrence survives text added before it, shifted by its length. */
  lemma {:induction false} OccursAtAfter(before: string, s: string, sub: string, pos: int)
    requires OccursAt(s, sub, pos)
    ensures OccursAt(before + s, sub, |before| + pos)
  {
    assert (before + s)[|before| + pos .. |before| + pos + |sub|] == s[pos .. pos + |sub|];
  }

  /** Text framed by an opening and a closing starts with the one and ends with the other. */
  lemma {:induction false} Framed(open: string, s: string, close: string)
    ensures StartsWith(open + s + close, open)
    ensures EndsWith(open + s + close, close)
  {
    var t := open + s + close;
    assert t[..|open|] == open;
    assert t[|t| - |close|..] == close;
  }

  /** An occurrence survives text added on either side, shifted by what was added before. */
  lemma {:induction false} OccursAtWithin(before: string, s: string, after: string, sub: string, pos: int)
    requires OccursAt(s, sub, pos)
    ensures OccursAt(before + s + after, sub, |before| + pos)
  {
    var t := before + s + after;
    assert t[|before| + pos .. |before| + pos + |sub|] == s[pos .. pos + |sub|];
  }

  // ---------------------------------------------------------------------------
  // sep.join(xs)
  // ---------------------------------------------------------------------------

  /** Python `sep.join(xs)`. */
  function Join(sep: string, xs: seq<string>): string
    decreases |xs|
  {
    if |xs| == 0 then ""
    else if |xs| == 1 then xs[0]
    else xs[0] + sep + Join(sep, xs[1..])
  }

  /** Index in `Join(sep, xs)` at which element `xs[i]` starts. */
  function JoinOffset(sep: string, xs: seq<string>, i: nat): nat
    requires i <= |xs|
  {
    if i == 0 then 0 else JoinOffset(sep, xs, i - 1) + |xs[i - 1]| + |sep|
  }

  lemma {:induction false} JoinOffsetShift(sep: string, xs: seq<string>, i: nat)
    requires 1 <= i <= |xs|
    ensures JoinOffset(sep, xs, i) == |xs[0]| + |sep| + JoinOffset(sep, xs[1..], i - 1)
    decreases i
  {
    if i > 1 {
      JoinOffsetShift(sep, xs, i - 1);
    }
  }

  /** Every element of the list occurs, unchanged, at its offset in the joined text. */
  lemma {:induction false} JoinPlaces(sep: string, xs: seq<string>, i: nat)
    requires i < |xs|
    ensures OccursAt(Join(sep, xs), xs[i], JoinOffset(sep, xs, i))
    decreases |xs|
  {
    if |xs| == 1 {
    } else if i == 0 {
      assert Join(sep, xs) == xs[0] + (sep + Join(sep, xs[1..]));
    } else {
      JoinPlaces(sep, xs[1..], i - 1);
      JoinOffsetShift(sep, xs, i);
      var p := |xs[0]| + |sep|;
      var j := JoinOffset(sep, xs[1..], i - 1);
      var tail := Join(sep, xs[1..]);
      assert Join(sep, xs) == (xs[0] + sep) + tail;
      assert Join(sep, xs)[p + j .. p + j + |xs[i]|] == tail[j .. j + |xs[i]|];
    }
  }

  /** The same, for a joined list that follows a fixed prefix. */
  lemma {:induction false} JoinPlacesAfter(s: string, prefix: string, sep: string, xs: seq<string>, i: nat)
    requires s == prefix + Join(sep, xs)
    requires i < |xs|
    ensures OccursAt(s, xs[i], |prefix| + JoinOffset(sep, xs, i))
  {
    JoinPlaces(sep, xs, i);
    OccursAtAfter(prefix, Join(sep, xs), xs[i], JoinOffset(sep, xs, i));
  }

  /** A joined list keeps its elements at their offsets when framed by an
      opening and a closing text. */
  lemma {:induction false} JoinPlacesWithin(s: string, open: string, sep: string, xs: seq<string>, close: string, i: nat)
    requires s == open + Join(sep, xs) + close
    requires i < |xs|
    ensures OccursAt(s, xs[i], |open| + JoinOffset(sep, xs, i))
  {
    JoinPlaces(sep, xs, i);
    OccursAtWithin(open, Join(sep, xs), close, xs[i], JoinOffset(sep, xs, i));
  }

  /** Elements are laid out left to right, separated by at least `sep`. */
  lemma {:induction false} JoinOffsetsIncrease(sep: string, xs: seq<string>, i: nat, j: nat)
    requires i < j <= |xs|
    ensures JoinOffset(sep, xs, i) + |xs[i]| + |sep| <= JoinOffset(sep, xs, j)
    decreases j
  {
    if j > i + 1 {
      JoinOffsetsIncrease(sep, xs, i, j - 1);
    }
  }

  /** The joined text of a non-empty list ends with its last element. */
  lemma {:induction false} JoinLength(sep: string, xs: seq<string>)
    requires |xs| > 0
    ensures |Join(sep, xs)| == JoinOffset(sep, xs, |xs| - 1) + |xs[|xs| - 1]|
    decreases |xs|
  {
    if |xs| > 1 {
      JoinLength(sep, xs[1..]);
      JoinOffsetShift(sep, xs, |xs| - 1);
    }
  }

  // ---------------------------------------------------------------------------
  // s.split(c)
  // ---------------------------------------------------------------------------

  /** Python `s.split(c)` for a one-character separator: never empty. */
  function Split(s: string, c: char): (r: seq<string>)
    ensures |r| >= 1
    decreases |s|
  {
    if |s| == 0 then [""]
    else
      var rest := Split(s[1..], c);
      if s[0] == c then [""] + rest else [[s[0]] + rest[0]] + rest[1..]
  }

  /** Joining the pieces with the separator gives back the original text. */
  lemma {:induction false} JoinSplit(s: string, c: char)
    ensures Join([c], Split(s, c)) == s
    decreases |s|
  {
    if |s| > 0 {
      var rest := Split(s[1..], c);
      JoinSplit(s[1..], c);
      if s[0] == c {
        assert ([""] + rest)[1..] == rest;
      } else if |rest| > 1 {
        var r := [[s[0]] + rest[0]] + rest[1..];
        assert r[1..] == rest[1..];
        assert Join([c], rest) == rest[0] + [c] + Join([c], rest[1..]);
        assert s == [s[0]] + s[1..];
      } else {
        assert s == [s[0]] + s[1..];
      }
    }
  }

  lemma {:induction false} SplitNoSeparator(s: string, c: char)
    requires c !in s
    ensures Split(s, c) == [s]
    decreases |s|
  {
    if |s| > 0 {
      SplitNoSeparator(s[1..], c);
      assert s == [s[0]] + s[1..];
    }
  }

  /** Splitting at a separator occurrence splits the pieces of both sides. */
  lemma {:induction false} SplitAround(a: string, c: char, b: string)
    ensures Split(a + [c] + b, c) == Split(a, c) + Split(b, c)
    decreases |a|
  {
    var s := a + [c] + b;
    if |a| == 0 {
      assert s[1..] == b;
    } else {
      assert s[1..] == a[1..] + [c] + b;
      SplitAround(a[1..], c, b);
    }
  }

  /** Splitting a joined list whose items hold no separator gives the list back. */
  lemma {:induction false} SplitJoin(xs: seq<string>, c: char)
    requires |xs| >= 1
    requires forall i :: 0 <= i < |xs| ==> c !in xs[i]
    ensures Split(Join([c], xs), c) == xs
    decreases |xs|
  {
    SplitNoSeparator(xs[0], c);
    if |xs| > 1 {
      SplitJoin(xs[1..], c);
      SplitAround(xs[0], c, Join([c], xs[1..]));
      assert xs == [xs[0]] + xs[1..];
    }
  }

  /** `s.lstrip(" ")`: the text without its leading spaces. */
  function StripLeading(s: string): (r: string)
    ensures |r| == 0 || r[0] != ' '
    decreases |s|
  {
    if |s| > 0 && s[0] == ' ' then StripLeading(s[1..]) else s
  }

  // ---------------------------------------------------------------------------
  // str.lower() on ASCII
  // ---------------------------------------------------------------------------

  predicate IsUpper(c: char) {
    'A' <= c <= 'Z'
  }

  function LowerChar(c: char): char {
    if IsUpper(c) then (c as int + 32) as char else c
  }

  /** Python `s.lower()`, restricted to ASCII letters. */
  function Lower(s: string): (r: string)
    ensures |r| == |s|
    ensures forall i :: 0 <= i < |r| ==> !IsUpper(r[i])
    ensures forall i :: 0 <= i < |r| ==> (IsUpper(s[i]) || r[i] == s[i])
  {
    seq(|s|, i requires 0 <= i < |s| => LowerChar(s[i]))
  }

  // ---------------------------------------------------------------------------
  // Integers as text: str(n), int(s), s.isnumeric()
  // ---------------------------------------------------------------------------

  predicate IsDigit(c: char) {
    '0' <= c <= '9'
  }

  /** Python `s.isnumeric()` on ASCII text: non-empty and all digits. */
  predicate IsNumeric(s: string) {
    |s| > 0 && forall i :: 0 <= i < |s| ==> IsDigit(s[i])
  }

  function DigitChar(d: nat): (c: char)
    requires d < 10
    ensures IsDigit(c)
  {
    ('0' as int + d) as char
  }

  function DigitValue(c: char): (d: nat)
    requires IsDigit(c)
    ensures d < 10
  {
    c as int - '0' as int
  }

  /** Decimal value of a string of digits (leading zeros allowed, as `int()` allows them). */
  function DigitsValue(s: string): nat
    requires forall i :: 0 <= i < |s| ==> IsDigit(s[i])
    decreases |s|
  {
    if |s| == 0 then 0
    else DigitsValue(s[..|s| - 1]) * 10 + DigitValue(s[|s| - 1])
  }

  /** Python `str(n)` for `n >= 0`: shortest decimal form, reading back as `n`. */
  function NatToString(n: nat): (r: string)
    ensures IsNumeric(r)
    ensures DigitsValue(r) == n
    ensures r[0] == '0' ==> r == "0"
    decreases n
  {
    if n < 10 then [DigitChar(n)]
    else
      var prefix := NatToString(n / 10);
      var r := prefix + [DigitChar(n % 10)];
      assert r[..|r| - 1] == prefix;
      r
  }

  /** Python `str(i)`. */
  function IntToString(i: int): string {
    if i < 0 then "-" + NatToString(-i) else NatToString(i)
  }

  /** Python `int(s)` for an optional sign followed by ASCII digits; anything else
      raises `ValueError`, modelled as `None`. */
  function ParseInt(s: string): Option<int> {
    if |s| > 0 && (s[0] == '-' || s[0] == '+') then
      if IsNumeric(s[1..]) then
        Some(if s[0] == '-' then 0 - DigitsValue(s[1..]) else DigitsValue(s[1..]))
      else None
    else if IsNumeric(s) then Some(DigitsValue(s))
    else None
  }

  /** `int(str(i)) == i`. */
  lemma {:induction false} ParseIntToString(i: int)
    ensures ParseInt(IntToString(i)) == Some(i)
  {
    if i < 0 {
      assert IntToString(i)[1..] == NatToString(-i);
    } else {
      var s := NatToString(i);
      assert s[0] != '-' && s[0] != '+';
    }
  }

  // ---------------------------------------------------------------------------
  // repr()
  // ---------------------------------------------------------------------------

  function EscapeChar(c: char, quote: char): string {
    if c == '\\' then "\\\\"
    else if c == quote then ['\\', quote]
    else if c == '\n' then "\\n"
    else if c == '\r' then "\\r"
    else if c == '\t' then "\\t"
    else [c]
  }

  function Escape(s: string, quote: char): string
    decreases |s|
  {
    if |s| == 0 then "" else EscapeChar(s[0], quote) + Escape(s[1..], quote)
  }

  /** Python `repr(s)` of a string: single quotes unless the text holds a single
      quote and no double quote. */
  function ReprStr(s: string): string {
    var quote := if '\'' in s && '"' !in s then '"' else '\'';
    [quote] + Escape(s, quote) + [quote]
  }

  /** Python `repr(xs)` of a list of strings. */
  function ReprList(xs: seq<string>): string {
    "[" + Join(", ", seq(|xs|, i requires 0 <= i < |xs| => ReprStr(xs[i]))) + "]"
  }

  // ---------------------------------------------------------------------------
  // Counting characters
  // ---------------------------------------------------------------------------

  function CountChar(s: string, c: char): nat
    decreases |s|
  {
    if |s| == 0 then 0 else (if s[0] == c then 1 else 0) + CountChar(s[1..], c)
  }

  lemma {:induction false} CountCharAppend(a: string, b: string, c: char)
    ensures CountChar(a + b, c) == CountChar(a, c) + CountChar(b, c)
    decreases |a|
  {
    if |a| > 0 {
      var ab := a + b;
      assert ab[0] == a[0];
      assert ab[1..] == a[1..] + b;
      CountCharAppend(a[1..], b, c);
      assert CountChar(ab, c) == (if a[0] == c then 1 else 0) + CountChar(a[1..] + b, c);
    } else {
      assert a + b == b;
    }
  }

  lemma {:induction false} CountCharAbsent(s: string, c: char)
    requires c !in s
    ensures CountChar(s, c) == 0
    decreases |s|
  {
    if |s| > 0 {
      CountCharAbsent(s[1..], c);
    }
  }

  /** A character absent from every item and from the separator is absent from the join. */
  lemma {:induction false} JoinAvoids(sep: string, xs: seq<string>, c: char)
    requires c !in sep
    requires forall i :: 0 <= i < |xs| ==> c !in xs[i]
    ensures c !in Join(sep, xs)
    decreases |xs|
  {
    if |xs| > 1 {
      JoinAvoids(sep, xs[1..], c);
    }
  }
}
