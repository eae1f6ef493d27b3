/** The line number a hunk header announces for the old file, as the
    pattern `@@(\s)+\-(.*),(.*)(\s)+\+(.*),(.*)(\s)+@@` finds it: the
    leftmost `@@` from which the pattern matches, and as group 2 the
    longest text after the `-` that still leaves a match for the rest. */
module HunkHeader {
  import opened Wrappers
  import opened Text

  /** `int()` rejected the text of group 2. */
  datatype LineNumberError = ValueError(group: string)

  /** The three single-position marks the tail of the pattern needs. */
  datatype Mark = Plus | Comma | Close

  /** `Plus`: a `+` after whitespace; `Comma`: a comma; `Close`: `@@` after
      whitespace. */
  predicate MarkAt(l: string, m: Mark, j: int) {
    match m
    case Plus => 1 <= j < |l| && IsSpace(l[j - 1]) && l[j] == '+'
    case Comma => 0 <= j < |l| && l[j] == ','
    case Close => 1 <= j && j + 2 <= |l| && IsSpace(l[j - 1]) && l[j] == '@' && l[j + 1] == '@'
  }

  /** The tail `(.*)(\s)+\+(.*),(.*)(\s)+@@` matched from `q`, with its `+`
      at `j`, its comma at `k` and its closing `@@` at `n`; the free groups
      take what lies between. */
  predicate TailAt(l: string, q: int, j: int, k: int, n: int) {
    0 <= q < j < k && k + 1 < n && MarkAt(l, Plus, j) && MarkAt(l, Comma, k) && MarkAt(l, Close, n)
  }

  ghost predicate HunkTail(l: string, q: int) {
    exists j, k, n :: TailAt(l, q, j, k, n)
  }

  /** A match of the whole pattern starting at `p`, with the `-` at `d` and
      the comma that ends group 2 at `c`. */
  ghost predicate HunkMatch(l: string, p: int, d: int, c: int) {
    && 0 <= p && p + 2 <= |l| && l[p] == '@' && l[p + 1] == '@'
    && p + 2 < d && SpacesBetween(l, p + 2, d) && d < c
    && MarkAt(l, Comma, c) && l[d] == '-' && HunkTail(l, c + 1)
  }

  /** The match the regex engine reports: the leftmost start, and for that
      start the longest group 2. */
  ghost predicate ChosenMatch(l: string, p: int, d: int, c: int) {
    && HunkMatch(l, p, d, c)
    && forall p', d', c' :: HunkMatch(l, p', d', c') ==> p <= p' && (p' == p ==> c' <= c)
  }

  /** The last position at or before `hi` holding mark `m`, or -1. */
  function Last(l: string, m: Mark, hi: int): (r: int)
    requires hi < |l|
    ensures -1 <= r
    ensures r >= 0 ==> r <= hi && MarkAt(l, m, r)
    decreases hi + 1
  {
    if hi < 0 then -1
    else if MarkAt(l, m, hi) then hi
    else Last(l, m, hi - 1)
  }

  /** No position between Last's answer and `hi` holds the mark. */
  lemma {:induction false} LastIsLargest(l: string, m: Mark, hi: int, j: int)
    requires 0 <= j <= hi < |l| && MarkAt(l, m, j)
    ensures j <= Last(l, m, hi)
    decreases hi + 1
  {
    if j < hi && !MarkAt(l, m, hi) {
      LastIsLargest(l, m, hi - 1, j);
    }
  }

  /** The tail matches from `q` exactly when `q` lies below this bound:
      the last `+` before the last comma before the last closing `@@`. */
  function TailBound(l: string): (b: int)
    ensures -1 <= b < |l|
  {
    var n := Last(l, Close, |l| - 1);
    var k := Last(l, Comma, n - 2);
    Last(l, Plus, k - 1)
  }

  /** The tail matches from every `q` below the bound and from no other. */
  lemma HunkTailIff(l: string, q: int)
    ensures HunkTail(l, q) <==> 0 <= q < TailBound(l)
  {
    var n := Last(l, Close, |l| - 1);
    var k := Last(l, Comma, n - 2);
    var j := Last(l, Plus, k - 1);
    if 0 <= q < j {
      assert TailAt(l, q, j, k, n);
    }
    if HunkTail(l, q) {
      var j', k', n' :| TailAt(l, q, j', k', n');
      LastIsLargest(l, Close, |l| - 1, n');
      LastIsLargest(l, Comma, n - 2, k');
      LastIsLargest(l, Plus, k - 1, j');
    }
  }

  /** The `-` and group-2 comma of the match starting at `p`, if any: the
      comma is the last one after which the tail still matches. */
  function MatchFrom(l: string, p: nat): (r: Option<(nat, nat)>)
    ensures r.Some? ==> HunkMatch(l, p, r.value.0, r.value.1)
  {
    if p + 2 > |l| || l[p] != '@' || l[p + 1] != '@' then None
    else
      var d := SkipSpaces(l, p + 2);
      var c := Last(l, Comma, TailBound(l) - 2);
      if d == p + 2 || d >= |l| || l[d] != '-' || c <= d then None
      else
        SkipSpacesBetween(l, p + 2);
        HunkTailIff(l, c + 1);
        Some((d, c))
  }

  /** MatchFrom finds a match at `p` whenever there is one, and its group 2
      is the longest. */
  lemma MatchFromIsLongest(l: string, p: nat, d: int, c: int)
    requires HunkMatch(l, p, d, c)
    ensures MatchFrom(l, p).Some? && MatchFrom(l, p).value.0 == d && c <= MatchFrom(l, p).value.1
  {
    MaximalSpacesUnique(l, p + 2, d);
    HunkTailIff(l, c + 1);
    LastIsLargest(l, Comma, TailBound(l) - 2, c);
  }

  /** The leftmost start at or after `from` with a match, with that
      match's `-` and comma. */
  function Search(l: string, from: nat): (r: Option<(nat, nat, nat)>)
    ensures r.Some? ==> from <= r.value.0 && MatchFrom(l, r.value.0) == Some((r.value.1, r.value.2))
    decreases |l| - from
  {
    if from + 2 > |l| then None
    else
      match MatchFrom(l, from)
      case Some(dc) => Some((from, dc.0, dc.1))
      case None => Search(l, from + 1)
  }

  /** Search reports the leftmost match, or none when there is no match at
      or after `from`. */
  lemma {:induction false} SearchIsLeftmost(l: string, from: nat, p: nat, d: int, c: int)
    requires from <= p && HunkMatch(l, p, d, c)
    ensures Search(l, from).Some? && Search(l, from).value.0 <= p
    decreases |l| - from
  {
    if from < p && MatchFrom(l, from).None? {
      SearchIsLeftmost(l, from + 1, p, d, c);
    } else if from == p {
      MatchFromIsLongest(l, p, d, c);
    }
  }

  /** What Search reports is the match the regex engine picks. */
  lemma SearchIsChosen(l: string)
    requires Search(l, 0).Some?
    ensures var r := Search(l, 0).value; ChosenMatch(l, r.0, r.1, r.2)
  {
    var r := Search(l, 0).value;
    forall p', d', c' | HunkMatch(l, p', d', c')
      ensures r.0 <= p' && (p' == r.0 ==> c' <= r.2)
    {
      SearchIsLeftmost(l, 0, p', d', c');
      if p' == r.0 {
        MatchFromIsLongest(l, p', d', c');
      }
    }
  }

  /** Python's `int(g) - 1`, with the `ValueError` of a malformed group. */
  function GroupLineNumber(g: string): Result<int, LineNumberError> {
    match PyInt(g)
    case Some(v) => Ok(v - 1)
    case None => Err(ValueError(g))
  }

  /** Group 2 of the chosen match, if the pattern matches. */
  function LineNumberGroup(l: string): (g: Option<string>)
    ensures (forall p, d, c :: !HunkMatch(l, p, d, c)) ==> g.None?
    ensures forall p, d, c :: ChosenMatch(l, p, d, c) ==> g == Some(l[d + 1..c])
  {
    SearchFindsChosen(l);
    match Search(l, 0)
    case None => None
    case Some(pdc) => Some(l[pdc.1 + 1..pdc.2])
  }

  /** extractLineNumberFromContext: group 2 of the chosen match, minus one;
      0 when the pattern does not match the line. */
  function ExtractLineNumberFromContext(l: string): (r: Result<int, LineNumberError>)
    ensures r.Err? ==> PyInt(r.error.group).None?
  {
    match LineNumberGroup(l)
    case None => Ok(0)
    case Some(g) => GroupLineNumber(g)
  }

  /** The line number is 0 when the pattern does not match, and otherwise
      comes from group 2 of the match the regex engine reports. */
  lemma ExtractLineNumberOfChosenMatch(l: string)
    ensures (forall p, d, c :: !HunkMatch(l, p, d, c)) ==> ExtractLineNumberFromContext(l) == Ok(0)
    ensures forall p, d, c :: ChosenMatch(l, p, d, c) ==>
              ExtractLineNumberFromContext(l) == GroupLineNumber(l[d + 1..c])
  {
  }

  /** Search finds nothing exactly when the pattern does not match, and
      otherwise finds the one chosen match. */
  lemma SearchFindsChosen(l: string)
    ensures Search(l, 0).None? ==> forall p, d, c :: !HunkMatch(l, p, d, c)
    ensures Search(l, 0).Some? ==> forall p, d, c :: ChosenMatch(l, p, d, c) ==> Search(l, 0).value == (p, d, c)
  {
    if Search(l, 0).None? {
      forall p, d, c | HunkMatch(l, p, d, c)
        ensures false
      {
        SearchIsLeftmost(l, 0, p, d, c);
      }
    } else {
      var r := Search(l, 0).value;
      SearchIsChosen(l);
      forall p, d, c | ChosenMatch(l, p, d, c)
        ensures r == (p, d, c)
      {
        MaximalSpacesUnique(l, p + 2, d);
        MaximalSpacesUnique(l, p + 2, r.1);
      }
    }
  }

  /** A unified-diff hunk header `@@ -a,b +c,d @@`, its numbers written
      in decimal digits and followed by any context text free of `+`,
      announces line `a` of the old file; the model answers `a - 1`. */
  lemma LineNumberOfHunkHeader(a: string, b: string, c: string, d: string, ctx: string)
    requires |a| > 0 && |b| > 0 && |c| > 0 && |d| > 0
    requires AllDigits(a) && AllDigits(b) && AllDigits(c) && AllDigits(d) && '+' !in ctx
    ensures ExtractLineNumberFromContext("@@ -" + a + "," + b + " +" + c + "," + d + " @@" + ctx)
            == Ok(DigitsValue(a) - 1)
  {
    GroupOfHeader(a, b, c, d, ctx);
    GroupOfDigits(a);
  }

  lemma GroupOfDigits(a: string)
    requires |a| > 0 && AllDigits(a)
    ensures GroupLineNumber(a) == Ok(DigitsValue(a) - 1)
  {
    PyIntOfDigits(a);
  }

  /** Group 2 of such a header is the old start line as written. */
  lemma GroupOfHeader(a: string, b: string, c: string, d: string, ctx: string)
    requires |a| > 0 && |b| > 0 && |c| > 0 && |d| > 0
    requires AllDigits(a) && AllDigits(b) && AllDigits(c) && AllDigits(d) && '+' !in ctx
    ensures LineNumberGroup("@@ -" + a + "," + b + " +" + c + "," + d + " @@" + ctx) == Some(a)
  {
    HeaderLayout(a, b, c, d, ctx);
    var jp := 6 + |a| + |b|;
    GroupOfShape("@@ -" + a + "," + b + " +" + c + "," + d + " @@" + ctx, 4 + |a|, jp, jp + 1 + |c|, jp + 3 + |c| + |d|);
  }

  /** The positions that make a line a hunk header: the opening `@@`, the
      `-`, the comma after the old start at `c1`, the digits of the old
      count, the `+` at `jp` (the only one of the line), the comma at `c2`
      and the closing `@@` at `n0`. */
  predicate HeaderShape(l: string, c1: int, jp: int, c2: int, n0: int) {
    && 4 < c1 && c1 + 1 < jp - 1 && jp < c2 && c2 + 1 < n0 - 1 && n0 + 2 <= |l|
    && l[0] == '@' && l[1] == '@' && l[2] == ' ' && l[3] == '-'
    && l[c1] == ',' && l[jp - 1] == ' ' && l[jp] == '+' && l[c2] == ','
    && l[n0 - 1] == ' ' && l[n0] == '@' && l[n0 + 1] == '@'
    && (forall x :: c1 < x < jp - 1 ==> IsDigit(l[x]))
    && (forall x :: 0 <= x < |l| && x != jp ==> l[x] != '+')
  }

  /** In a line of hunk-header shape, group 2 runs from the `-` to the
      first comma. */
  lemma GroupOfShape(l: string, c1: int, jp: int, c2: int, n0: int)
    requires HeaderShape(l, c1, jp, c2, n0)
    ensures LineNumberGroup(l) == Some(l[4..c1])
  {
    assert TailBound(l) == jp by {
      var n := Last(l, Close, |l| - 1);
      LastIsLargest(l, Close, |l| - 1, n0);
      var k := Last(l, Comma, n - 2);
      LastIsLargest(l, Comma, n - 2, c2);
      LastIsLargest(l, Plus, k - 1, jp);
    }
    assert Last(l, Comma, jp - 2) == c1 by {
      LastIsLargest(l, Comma, jp - 2, c1);
    }
    assert SkipSpaces(l, 2) == 3;
    assert MatchFrom(l, 0) == Some((3, c1));
  }

  /** Where the pieces of a hunk header sit. */
  lemma HeaderLayout(A: string, B: string, C: string, D: string, ctx: string)
    requires |A| > 0 && |B| > 0 && |C| > 0 && |D| > 0
    requires AllDigits(A) && AllDigits(B) && AllDigits(C) && AllDigits(D) && '+' !in ctx
    ensures var l := "@@ -" + A + "," + B + " +" + C + "," + D + " @@" + ctx;
            var c1 := 4 + |A|;
            var jp := c1 + 2 + |B|;
            HeaderShape(l, c1, jp, jp + 1 + |C|, jp + 3 + |C| + |D|) && l[4..c1] == A
  {
  }

  /** A header that leaves out the counts, as `@@ -1 +1 @@` does for a
      one-line hunk, has no comma, so the pattern fails and the line number
      is 0 whatever the header says. */
  lemma HeaderWithoutCountsGivesZero(l: string)
    requires ',' !in l
    ensures ExtractLineNumberFromContext(l) == Ok(0)
  {
    forall p, d, c
      ensures !HunkMatch(l, p, d, c)
    {
      assert !MarkAt(l, Comma, c);
    }
    ExtractLineNumberOfChosenMatch(l);
  }
}
