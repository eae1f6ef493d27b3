/** Character classes and string helpers shared by the line classifier.

    Whitespace is what `\s` and `str.isspace()` accept on Python 2 byte
    strings: space, tab, line feed, carriage return, vertical tab and form
    feed. */
module Text {
  import opened Wrappers

  predicate IsSpace(c: char) {
    c == ' ' || c == '\t' || c == '\n' || c == '\r' || c == '\U{B}' || c == '\U{C}'
  }

  /** `[a-zA-Z0-9]` */
  predicate IsAlnum(c: char) {
    ('a' <= c <= 'z') || ('A' <= c <= 'Z') || ('0' <= c <= '9')
  }

  predicate IsDigit(c: char) {
    '0' <= c <= '9'
  }

  predicate AllAlnum(s: string) {
    forall i :: 0 <= i < |s| ==> IsAlnum(s[i])
  }

  predicate AllDigits(s: string) {
    forall i :: 0 <= i < |s| ==> IsDigit(s[i])
  }

  predicate AllSpace(s: string) {
    forall i :: 0 <= i < |s| ==> IsSpace(s[i])
  }

  /** Only whitespace lies between indices `i` and `j` of `s`. */
  predicate SpacesBetween(s: string, i: int, j: int) {
    0 <= i <= j <= |s| && AllSpace(s[i..j])
  }

  /** `t` occurs in `s` starting at index `i`. */
  predicate Occurs(s: string, t: string, i: int) {
    0 <= i && i + |t| <= |s| && s[i..i + |t|] == t
  }

  /** Python's `t in s`. */
  predicate IsSubstring(t: string, s: string) {
    exists i :: 0 <= i <= |s| - |t| && Occurs(s, t, i)
  }

  /** The end of the longest run of whitespace that starts at `i`: what a
      greedy `(\s)*` consumes. */
  function SkipSpaces(s: string, i: nat): (j: nat)
    requires i <= |s|
    ensures i <= j <= |s|
    ensures forall k :: i <= k < j ==> IsSpace(s[k])
    ensures j == |s| || !IsSpace(s[j])
    decreases |s| - i
  {
    if i < |s| && IsSpace(s[i]) then SkipSpaces(s, i + 1) else i
  }

  /** A whitespace run from `i` that stops at a non-whitespace character or
      at the end is the longest one. */
  lemma MaximalSpacesUnique(s: string, i: nat, x: int)
    requires i <= |s| && SpacesBetween(s, i, x) && (x == |s| || !IsSpace(s[x]))
    ensures x == SkipSpaces(s, i)
  {
    var j := SkipSpaces(s, i);
    forall k | i <= k < x
      ensures IsSpace(s[k])
    {
      assert s[i..x][k - i] == s[k];
    }
  }

  /** The longest whitespace run from `i` is a whitespace run. */
  lemma SkipSpacesBetween(s: string, i: nat)
    requires i <= |s|
    ensures SpacesBetween(s, i, SkipSpaces(s, i))
  {
    var j := SkipSpaces(s, i);
    assert forall k :: i <= k < j ==> s[i..j][k - i] == s[k];
  }

  /** The end of the longest run of characters from `[a-zA-Z0-9/]` that
      starts at `i`. */
  function PathRunEnd(s: string, i: nat): (j: nat)
    requires i <= |s|
    ensures i <= j <= |s|
    ensures forall k :: i <= k < j ==> IsAlnum(s[k]) || s[k] == '/'
    ensures j == |s| || !(IsAlnum(s[j]) || s[j] == '/')
    decreases |s| - i
  {
    if i < |s| && (IsAlnum(s[i]) || s[i] == '/') then PathRunEnd(s, i + 1) else i
  }

  /** Python's `s.rstrip()`. */
  function TrimRight(s: string): (t: string)
    ensures t <= s
    ensures |t| == 0 || !IsSpace(t[|t| - 1])
    ensures forall k :: |t| <= k < |s| ==> IsSpace(s[k])
    decreases |s|
  {
    if |s| > 0 && IsSpace(s[|s| - 1]) then TrimRight(s[..|s| - 1]) else s
  }

  /** Python's `s.strip()`. */
  function Strip(s: string): string {
    TrimRight(s[SkipSpaces(s, 0)..])
  }

  /** The first occurrence of `t` in `s` at or after `from`. */
  function IndexOf(s: string, t: string, from: nat): (r: Option<nat>)
    requires from <= |s|
    ensures r.Some? ==> from <= r.value && Occurs(s, t, r.value)
    ensures r.Some? ==> forall k :: from <= k < r.value ==> !Occurs(s, t, k)
    ensures r.None? ==> forall k :: from <= k ==> !Occurs(s, t, k)
    decreases |s| - from
  {
    if Occurs(s, t, from) then Some(from)
    else if from == |s| then None
    else IndexOf(s, t, from + 1)
  }

  /** The last index of `c` in `s`, as a greedy `(.*)c` finds it. */
  function LastIndexOf(s: string, c: char): (r: Option<nat>)
    ensures r.Some? ==> r.value < |s| && s[r.value] == c
    ensures r.Some? ==> forall k :: r.value < k < |s| ==> s[k] != c
    ensures r.None? ==> forall k :: 0 <= k < |s| ==> s[k] != c
    decreases |s|
  {
    if |s| == 0 then None
    else if s[|s| - 1] == c then Some(|s| - 1)
    else LastIndexOf(s[..|s| - 1], c)
  }

  /** A `c` after which only other characters follow is the last one. */
  lemma LastIndexOfUnique(s: string, c: char, x: nat)
    requires x < |s| && s[x] == c && c !in s[x + 1..]
    ensures LastIndexOf(s, c) == Some(x)
  {
    forall k | x < k < |s| ensures s[k] != c {
      assert s[k] == s[x + 1..][k - x - 1];
    }
  }

  /** Python's `sep.join(parts)` for a one-character separator. */
  function Join(parts: seq<string>, sep: char): string
    requires |parts| > 0
    decreases |parts|
  {
    if |parts| == 1 then parts[0] else parts[0] + [sep] + Join(parts[1..], sep)
  }

  /** Python's `s.split(sep)` for a one-character separator: the pieces
      between separators, empty pieces kept, never an empty list. Together
      with `SplitUnique` this says the pieces are exactly the separator-free
      strings that join back to `s`. */
  function Split(s: string, sep: char): (parts: seq<string>)
    ensures |parts| > 0
    ensures forall i :: 0 <= i < |parts| ==> sep !in parts[i]
    ensures Join(parts, sep) == s
    decreases |s|
  {
    match IndexOf(s, [sep], 0)
    case None =>
      assert forall k :: 0 <= k < |s| ==> s[k] != sep by {
        forall k | 0 <= k < |s| ensures s[k] != sep {
          assert !Occurs(s, [sep], k);
        }
      }
      [s]
    case Some(i) =>
      var rest := Split(s[i + 1..], sep);
      assert forall k :: 0 <= k < i ==> s[k] != sep by {
        forall k | 0 <= k < i ensures s[k] != sep {
          assert !Occurs(s, [sep], k);
        }
      }
      assert s == s[..i] + [sep] + s[i + 1..];
      [s[..i]] + rest
  }

  /** Splitting is the inverse of joining separator-free pieces. */
  lemma {:induction false} SplitUnique(parts: seq<string>, sep: char)
    requires |parts| > 0
    requires forall i :: 0 <= i < |parts| ==> sep !in parts[i]
    ensures Split(Join(parts, sep), sep) == parts
    decreases |parts|
  {
    var s := Join(parts, sep);
    if |parts| == 1 {
      forall k | 0 <= k <= |s| ensures !Occurs(s, [sep], k) {
        if k < |s| {
          assert s[k] != sep;
          assert s[k..k + 1] != [sep];
        }
      }
    } else {
      var p0 := parts[0];
      var rest := Join(parts[1..], sep);
      assert s == p0 + [sep] + rest;
      assert Occurs(s, [sep], |p0|);
      forall k | 0 <= k < |p0| ensures !Occurs(s, [sep], k) {
        assert s[k] == p0[k];
      }
      assert IndexOf(s, [sep], 0) == Some(|p0|);
      assert s[|p0| + 1..] == rest;
      SplitUnique(parts[1..], sep);
    }
  }

  function Digit(n: nat): (c: char)
    requires n < 10
    ensures IsDigit(c)
  {
    ('0' as int + n) as char
  }

  function DigitValue(c: char): nat
    requires IsDigit(c)
  {
    c as int - '0' as int
  }

  /** The value of a string of decimal digits. */
  function DigitsValue(s: string): nat
    requires AllDigits(s)
    decreases |s|
  {
    if |s| == 0 then 0 else 10 * DigitsValue(s[..|s| - 1]) + DigitValue(s[|s| - 1])
  }

  /** The decimal spelling of `n`, as Python's `str(n)` writes it. Its value
      read back is `n`. */
  function Decimal(n: nat): (s: string)
    ensures |s| > 0 && AllDigits(s)
    ensures DigitsValue(s) == n
    decreases n
  {
    if n < 10 then [Digit(n)]
    else
      var s := Decimal(n / 10) + [Digit(n % 10)];
      assert s[..|s| - 1] == Decimal(n / 10);
      s
  }

  /** Python's `int(s)` in base 10: optional surrounding whitespace, an
      optional sign and one or more ASCII digits; `None` where Python raises
      `ValueError`. */
  function PyInt(s: string): Option<int> {
    var t := Strip(s);
    if |t| > 0 && (t[0] == '+' || t[0] == '-') then
      var d := t[1..];
      if |d| > 0 && AllDigits(d) then
        var v: int := DigitsValue(d);
        Some(if t[0] == '-' then -v else v)
      else None
    else if |t| > 0 && AllDigits(t) then Some(DigitsValue(t))
    else None
  }

  /** `int()` of a string of digits is its decimal value. */
  lemma PyIntOfDigits(s: string)
    requires |s| > 0 && AllDigits(s)
    ensures PyInt(s) == Some(DigitsValue(s))
  {
    assert SkipSpaces(s, 0) == 0 by {
      assert !IsSpace(s[0]);
    }
    assert s[0..] == s;
    assert TrimRight(s) == s by {
      assert !IsSpace(s[|s| - 1]);
    }
  }

  /** `int(str(n)) == n`. */
  lemma PyIntDecimal(n: nat)
    ensures PyInt(Decimal(n)) == Some(n)
  {
    PyIntOfDigits(Decimal(n));
  }
}
