/** Special blocks (block comments and `%{C++ ... %}` escape blocks) and the
    block-range indexer, which scans one file's lines with a stack and emits
    the inclusive line ranges of the blocks it closes. */
module Blocks {
  import opened Wrappers
  import opened Text

  /** The two SpecialBlockType instances the indexer builds. */
  datatype BlockKind = CommentBlock | CppBlock

  /** The start pattern each kind is constructed with, as regex source. */
  function StartToken(k: BlockKind): string {
    match k
    case CommentBlock => "\\/\\*"
    case CppBlock => "\\%{\\s*C\\+\\+"
  }

  /** The end pattern each kind is constructed with, as regex source. */
  function EndToken(k: BlockKind): string {
    match k
    case CommentBlock => "\\*\\/"
    case CppBlock => "\\%\\}"
  }

  /** SpecialBlockType.__equals__: both tokens are equal. */
  predicate SameBlockType(a: BlockKind, b: BlockKind) {
    StartToken(a) == StartToken(b) && EndToken(a) == EndToken(b)
  }

  /** Token equality tells the two kinds apart. */
  lemma SameBlockTypeIsKindEquality(a: BlockKind, b: BlockKind)
    ensures SameBlockType(a, b) <==> a == b
  {
    assert StartToken(CommentBlock)[1] != StartToken(CppBlock)[1];
  }

  /** The text the end pattern matches. */
  function EndText(k: BlockKind): string {
    match k
    case CommentBlock => "*/"
    case CppBlock => "%}"
  }

  /** Where a match of the start pattern of `k` that begins at `i` ends:
      a slash and a star, or `%{`, whitespace, `C++`. */
  function StartMatchEnd(k: BlockKind, l: string, i: nat): (r: Option<nat>)
    requires i <= |l|
    ensures r.Some? ==> i + 2 <= r.value <= |l|
  {
    match k
    case CommentBlock => if Occurs(l, "/*", i) then Some(i + 2) else None
    case CppBlock =>
      if Occurs(l, "%{", i) then
        var j := SkipSpaces(l, i + 2);
        if Occurs(l, "C++", j) then Some(j + 3) else None
      else None
  }

  predicate StartsAt(k: BlockKind, l: string, i: int) {
    0 <= i <= |l| && StartMatchEnd(k, l, i).Some?
  }

  /** Start matches of one kind do not overlap, so a later one ends later. */
  lemma StartMatchesOrdered(k: BlockKind, l: string, i: nat, i': nat)
    requires StartsAt(k, l, i) && StartsAt(k, l, i') && i < i'
    ensures StartMatchEnd(k, l, i).value <= i'
    ensures StartMatchEnd(k, l, i).value <= StartMatchEnd(k, l, i').value
  {
    match k
    case CommentBlock =>
      assert l[i'] == '/';
    case CppBlock =>
      var j := SkipSpaces(l, i + 2);
      assert Occurs(l, "%{", i) && Occurs(l, "%{", i') && Occurs(l, "C++", j);
      assert l[i'] == '%' by {
        assert l[i'..i' + 2][0] == l[i'];
      }
      assert l[i + 1] == '{' by {
        assert l[i..i + 2][1] == l[i + 1];
      }
      assert l[j] == 'C' && l[j + 1] == '+' && l[j + 2] == '+' by {
        assert l[j..j + 3][0] == l[j] && l[j..j + 3][1] == l[j + 1] && l[j..j + 3][2] == l[j + 2];
      }
      assert forall x :: i + 2 <= x < j ==> l[x] != '%';
  }

  /** A match of the start pattern of `k` preceded only by whitespace, as
      `^(\s)*` followed by the start pattern reads. */
  ghost predicate StartAfterOnlySpaces(k: BlockKind, l: string) {
    exists i :: 0 <= i <= |l| && AllSpace(l[..i]) && StartsAt(k, l, i)
  }

  /** isStartOfSpecialBlock, found by skipping the leading whitespace. */
  function IsStartOfSpecialBlock(k: BlockKind, l: string): (r: bool)
    ensures r <==> StartAfterOnlySpaces(k, l)
  {
    var j := SkipSpaces(l, 0);
    StartAfterSpacesIsFirst(k, l);
    StartsAt(k, l, j)
  }

  lemma StartAfterSpacesIsFirst(k: BlockKind, l: string)
    ensures AllSpace(l[..SkipSpaces(l, 0)])
    ensures forall i :: 0 <= i <= |l| && AllSpace(l[..i]) && StartsAt(k, l, i) ==> i == SkipSpaces(l, 0)
  {
    var j := SkipSpaces(l, 0);
    assert forall x :: 0 <= x < j ==> l[..j][x] == l[x];
    forall i | 0 <= i <= |l| && AllSpace(l[..i]) && StartsAt(k, l, i)
      ensures i == j
    {
      StartIsNotSpace(k, l, i);
      assert l[0..i] == l[..i];
      MaximalSpacesUnique(l, 0, i);
    }
  }

  /** A start match begins with `/` or `%`, never with whitespace. */
  lemma StartIsNotSpace(k: BlockKind, l: string, i: nat)
    requires StartsAt(k, l, i)
    ensures i < |l| && !IsSpace(l[i])
  {
    var t := match k case CommentBlock => "/*" case CppBlock => "%{";
    assert Occurs(l, t, i);
    assert l[i] == l[i..i + 2][0] == t[0];
  }

  /** The end token of `k` followed only by whitespace up to the end of the
      line, as the end pattern followed by `(\s)*$` reads. */
  ghost predicate EndBeforeOnlySpaces(k: BlockKind, l: string) {
    exists i :: Occurs(l, EndText(k), i) && AllSpace(l[i + 2..])
  }

  /** isEndOfSpecialBlock, found at the end of the right-trimmed line. */
  function IsEndOfSpecialBlock(k: BlockKind, l: string): (r: bool)
    ensures r <==> EndBeforeOnlySpaces(k, l)
  {
    var t := TrimRight(l);
    EndTokenAtTrimmedEnd(k, l);
    |t| >= 2 && t[|t| - 2..] == EndText(k)
  }

  lemma EndTokenAtTrimmedEnd(k: BlockKind, l: string)
    ensures var t := TrimRight(l);
            (|t| >= 2 && t[|t| - 2..] == EndText(k)) <==> EndBeforeOnlySpaces(k, l)
  {
    var t := TrimRight(l);
    var e := EndText(k);
    assert |e| == 2 && !IsSpace(e[1]);
    if |t| >= 2 && t[|t| - 2..] == e {
      var i := |t| - 2;
      assert l[i..i + 2] == t[i..i + 2];
      assert Occurs(l, e, i);
      assert forall x :: i + 2 <= x < |l| ==> l[i + 2..][x - (i + 2)] == l[x];
      assert AllSpace(l[i + 2..]);
    }
    forall i | Occurs(l, e, i) && AllSpace(l[i + 2..])
      ensures |t| == i + 2
    {
      assert l[i + 1] == e[1];
    }
    forall i | Occurs(l, e, i) && AllSpace(l[i + 2..])
      ensures |t| >= 2 && t[|t| - 2..] == e
    {
      assert l[i..i + 2] == t[i..i + 2];
    }
  }

  /** The first start match of `k` at or after `i`. */
  function FirstStart(k: BlockKind, l: string, i: nat): (r: Option<nat>)
    requires i <= |l|
    ensures r.Some? ==> i <= r.value && StartsAt(k, l, r.value)
    ensures r.Some? ==> forall x :: i <= x < r.value ==> !StartsAt(k, l, x)
    ensures r.None? ==> forall x :: i <= x ==> !StartsAt(k, l, x)
    decreases |l| - i
  {
    if StartsAt(k, l, i) then Some(i)
    else if i == |l| then None
    else FirstStart(k, l, i + 1)
  }

  /** Some start match of `k` is followed by an end token that does not
      overlap it, as `start(.*)end` reads with `re.search`. */
  ghost predicate StartThenEnd(k: BlockKind, l: string) {
    exists i, j :: StartsAt(k, l, i) && StartMatchEnd(k, l, i).value <= j && Occurs(l, EndText(k), j)
  }

  /** containsSpecialBlock, found from the first start match. */
  function ContainsSpecialBlock(k: BlockKind, l: string): (r: bool)
    ensures r <==> StartThenEnd(k, l)
  {
    match FirstStart(k, l, 0)
    case None => false
    case Some(i0) =>
      FirstStartSuffices(k, l, i0);
      IndexOf(l, EndText(k), StartMatchEnd(k, l, i0).value).Some?
  }

  lemma FirstStartSuffices(k: BlockKind, l: string, i0: nat)
    requires FirstStart(k, l, 0) == Some(i0)
    ensures forall i, j :: StartsAt(k, l, i) && StartMatchEnd(k, l, i).value <= j && Occurs(l, EndText(k), j)
              ==> IndexOf(l, EndText(k), StartMatchEnd(k, l, i0).value).Some?
  {
    var e0 := StartMatchEnd(k, l, i0).value;
    forall i, j | StartsAt(k, l, i) && StartMatchEnd(k, l, i).value <= j && Occurs(l, EndText(k), j)
      ensures IndexOf(l, EndText(k), e0).Some?
    {
      if i0 < i {
        StartMatchesOrdered(k, l, i0, i);
      }
      assert e0 <= j;
    }
  }

  /** A SpecialBlockRange: the inclusive lines a closed block spans. */
  datatype Range = Range(startLine: int, endLine: int)

  /** SpecialBlockRange.__contains__ */
  predicate InRange(r: Range, n: int) {
    r.startLine <= n && n <= r.endLine
  }

  /** Whether line `n` lies in one of the ranges, as the comment test loops
      over them. */
  function IsInAnyRange(rs: seq<Range>, n: int): (b: bool)
    ensures b <==> exists i :: 0 <= i < |rs| && InRange(rs[i], n)
    decreases |rs|
  {
    if |rs| == 0 then false
    else if InRange(rs[0], n) then true
    else
      var b := IsInAnyRange(rs[1..], n);
      assert forall i :: 1 <= i < |rs| ==> rs[i] == rs[1..][i - 1];
      b
  }

  /** The indexer's stack of open blocks and the ranges emitted so far. */
  datatype ScanState = ScanState(stack: seq<(BlockKind, nat)>, ranges: seq<Range>)

  /** The two ways the indexer raises: a mismatched block is put back with
      `blockStack.push`, which Python lists lack, and a `%}` pops an empty
      stack. */
  datatype ScanError = ListHasNoPush | PopFromEmptyStack

  /** The result of scanning one line. `Stop` is the `continue` taken when a
      comment end finds the stack empty, which skips the escape-block checks of that
      line. A `Crash` keeps the ranges emitted before it. */
  datatype LineOutcome = Next(st: ScanState) | Stop(st: ScanState) | Crash(err: ScanError, ranges: seq<Range>)

  /** A start line of `k` pushes `k` with its line number. */
  function Opened(k: BlockKind, line: string, n: nat, st: ScanState): ScanState {
    if IsStartOfSpecialBlock(k, line) then st.(stack := st.stack + [(k, n)]) else st
  }

  /** An end line of `k` pops the stack and emits a range when the popped
      kind is `k`. */
  function Closed(k: BlockKind, line: string, n: nat, st: ScanState): LineOutcome {
    if !IsEndOfSpecialBlock(k, line) then Next(st)
    else if |st.stack| == 0 then
      (match k
       case CommentBlock => Stop(st)
       case CppBlock => Crash(PopFromEmptyStack, st.ranges))
    else
      var top := st.stack[|st.stack| - 1];
      var popped := st.(stack := st.stack[..|st.stack| - 1]);
      if top.0 == k then Next(popped.(ranges := popped.ranges + [Range(top.1, n)]))
      else Crash(ListHasNoPush, popped.ranges)
  }

  /** The checks of one block kind on line number `n`: the start check, then
      the end check. */
  function ScanKind(k: BlockKind, line: string, n: nat, st: ScanState): LineOutcome {
    Closed(k, line, n, Opened(k, line, n, st))
  }

  /** One iteration of the indexer's loop for line number `n`. */
  function ScanLine(line: string, n: nat, st: ScanState): LineOutcome {
    if ContainsSpecialBlock(CommentBlock, line) then Next(st)
    else
      match ScanKind(CommentBlock, line, n, st)
      case Crash(e, rs) => Crash(e, rs)
      case Stop(st1) => Next(st1)
      case Next(st1) =>
        match ScanKind(CppBlock, line, n, st1)
        case Crash(e, rs) => Crash(e, rs)
        case Stop(st2) => Next(st2)
        case Next(st2) => Next(st2)
  }

  /** A line with a whole block comment on it changes nothing. */
  lemma OneLineCommentIsSkipped(line: string, n: nat, st: ScanState)
    requires ContainsSpecialBlock(CommentBlock, line)
    ensures ScanLine(line, n, st) == Next(st)
  {
  }

  /** Range `r` was opened by a start line and closed by an end line of the
      same kind. */
  predicate Delimits(lines: seq<string>, k: BlockKind, r: Range)
    requires 1 <= r.startLine <= r.endLine <= |lines|
  {
    IsStartOfSpecialBlock(k, lines[r.startLine - 1]) && IsEndOfSpecialBlock(k, lines[r.endLine - 1])
  }

  /** What every emitted range satisfies. */
  predicate ValidRange(lines: seq<string>, r: Range) {
    && 1 <= r.startLine <= r.endLine <= |lines|
    && (Delimits(lines, CommentBlock, r) || Delimits(lines, CppBlock, r))
  }

  /** The indexer's state after the first `i` lines: every open entry
      names a start line of its kind, every range is valid and closes at or
      before line `i`, and ranges appear in the order they were closed. */
  predicate ScanInv(lines: seq<string>, i: nat, st: ScanState) {
    && i <= |lines|
    && (forall x :: 0 <= x < |st.stack| ==>
          1 <= st.stack[x].1 <= i && IsStartOfSpecialBlock(st.stack[x].0, lines[st.stack[x].1 - 1]))
    && (forall x :: 0 <= x < |st.ranges| ==> ValidRange(lines, st.ranges[x]) && st.ranges[x].endLine <= i)
    && (forall x, y :: 0 <= x < y < |st.ranges| ==> st.ranges[x].endLine <= st.ranges[y].endLine)
  }

  predicate RangesValid(lines: seq<string>, i: nat, rs: seq<Range>) {
    && (forall x :: 0 <= x < |rs| ==> ValidRange(lines, rs[x]) && rs[x].endLine <= i)
    && (forall x, y :: 0 <= x < y < |rs| ==> rs[x].endLine <= rs[y].endLine)
  }

  lemma PushKeepsInv(lines: seq<string>, k: BlockKind, n: nat, st: ScanState)
    requires 1 <= n <= |lines| && ScanInv(lines, n, st)
    requires IsStartOfSpecialBlock(k, lines[n - 1])
    ensures ScanInv(lines, n, st.(stack := st.stack + [(k, n)]))
  {
    var s := st.stack + [(k, n)];
    forall x | 0 <= x < |s|
      ensures 1 <= s[x].1 <= n && IsStartOfSpecialBlock(s[x].0, lines[s[x].1 - 1])
    {
      if x < |st.stack| {
        assert s[x] == st.stack[x];
      } else {
        assert s[x] == (k, n);
      }
    }
  }

  lemma PopKeepsInv(lines: seq<string>, n: nat, st: ScanState)
    requires ScanInv(lines, n, st) && |st.stack| > 0
    ensures ScanInv(lines, n, st.(stack := st.stack[..|st.stack| - 1]))
  {
  }

  lemma EmitKeepsInv(lines: seq<string>, k: BlockKind, n: nat, start: nat, st: ScanState)
    requires 1 <= start <= n <= |lines| && ScanInv(lines, n, st)
    requires Delimits(lines, k, Range(start, n))
    ensures ScanInv(lines, n, st.(ranges := st.ranges + [Range(start, n)]))
  {
    var rs := st.ranges + [Range(start, n)];
    assert forall x :: 0 <= x < |st.ranges| ==> rs[x] == st.ranges[x];
  }

  lemma ClosedKeepsInv(lines: seq<string>, k: BlockKind, i: nat, st: ScanState)
    requires i < |lines|
    requires ScanInv(lines, i + 1, st)
    ensures match Closed(k, lines[i], i + 1, st)
            case Next(st1) => ScanInv(lines, i + 1, st1)
            case Stop(st1) => ScanInv(lines, i + 1, st1)
            case Crash(_, rs) => RangesValid(lines, i + 1, rs)
  {
    var n := i + 1;
    if IsEndOfSpecialBlock(k, lines[i]) && |st.stack| > 0 {
      var top := st.stack[|st.stack| - 1];
      PopKeepsInv(lines, n, st);
      if top.0 == k {
        EmitKeepsInv(lines, k, n, top.1, st.(stack := st.stack[..|st.stack| - 1]));
      }
    }
  }

  lemma ScanKindKeepsInv(lines: seq<string>, k: BlockKind, i: nat, st: ScanState)
    requires i < |lines|
    requires ScanInv(lines, i + 1, st)
    ensures match ScanKind(k, lines[i], i + 1, st)
            case Next(st1) => ScanInv(lines, i + 1, st1)
            case Stop(st1) => ScanInv(lines, i + 1, st1)
            case Crash(_, rs) => RangesValid(lines, i + 1, rs)
  {
    if IsStartOfSpecialBlock(k, lines[i]) {
      PushKeepsInv(lines, k, i + 1, st);
    }
    ClosedKeepsInv(lines, k, i, Opened(k, lines[i], i + 1, st));
  }

  lemma ScanLineKeepsInv(lines: seq<string>, i: nat, st: ScanState)
    requires i < |lines|
    requires ScanInv(lines, i, st)
    ensures match ScanLine(lines[i], i + 1, st)
            case Next(st1) => ScanInv(lines, i + 1, st1)
            case Stop(st1) => ScanInv(lines, i + 1, st1)
            case Crash(_, rs) => RangesValid(lines, i + 1, rs)
  {
    assert ScanInv(lines, i + 1, st);
    if !ContainsSpecialBlock(CommentBlock, lines[i]) {
      ScanKindKeepsInv(lines, CommentBlock, i, st);
      match ScanKind(CommentBlock, lines[i], i + 1, st)
      case Crash(_, _) =>
      case Stop(_) =>
      case Next(st1) =>
        ScanKindKeepsInv(lines, CppBlock, i, st1);
    }
  }

  /** Where the indexer stopped: the line that raised, and how. */
  datatype ScanFailure = ScanFailure(err: ScanError, line: nat)

  /** The ranges the indexer recorded for a file, and the failure, if any,
      that cut the scan short; the ranges recorded before a failure stay in
      the per-file cache. */
  datatype ScanOutcome = ScanOutcome(ranges: seq<Range>, failure: Option<ScanFailure>)

  /** The indexer's loop from line `i + 1` on, from state `st`. */
  function ScanFrom(lines: seq<string>, i: nat, st: ScanState): (out: ScanOutcome)
    requires ScanInv(lines, i, st)
    ensures RangesValid(lines, |lines|, out.ranges)
    ensures out.failure.Some? ==> i < out.failure.value.line <= |lines|
    decreases |lines| - i
  {
    if i == |lines| then ScanOutcome(st.ranges, None)
    else
      ScanLineKeepsInv(lines, i, st);
      match ScanLine(lines[i], i + 1, st)
      case Crash(e, rs) => ScanOutcome(rs, Some(ScanFailure(e, i + 1)))
      case Stop(st1) => ScanFrom(lines, i + 1, st1)
      case Next(st1) => ScanFrom(lines, i + 1, st1)
  }

  /** findAllSpecialBlocksForFile over a file's lines, numbered from 1.
      Every range lies within the file, starts on a start line and ends on an
      end line of one and the same kind, and ranges come in closing order. */
  function FindAllSpecialBlocks(lines: seq<string>): (out: ScanOutcome)
    ensures forall x :: 0 <= x < |out.ranges| ==> ValidRange(lines, out.ranges[x])
    ensures forall x, y :: 0 <= x < y < |out.ranges| ==> out.ranges[x].endLine <= out.ranges[y].endLine
    ensures out.failure.Some? ==> 1 <= out.failure.value.line <= |lines|
  {
    ScanFrom(lines, 0, ScanState([], []))
  }

  /** The state after scanning line `i + 1`, or None when it raised; the
      scan from there goes on as the scan from before it. */
  function Advance(lines: seq<string>, i: nat, st: ScanState): (r: Option<ScanState>)
    requires i < |lines| && ScanInv(lines, i, st)
    ensures r.None? <==> ScanLine(lines[i], i + 1, st).Crash?
    ensures r.Some? ==> ScanInv(lines, i + 1, r.value)
    ensures r.Some? ==> ScanFrom(lines, i, st) == ScanFrom(lines, i + 1, r.value)
  {
    ScanLineKeepsInv(lines, i, st);
    match ScanLine(lines[i], i + 1, st)
    case Crash(_, _) => None
    case Stop(st1) => Some(st1)
    case Next(st1) => Some(st1)
  }

  /** A line that does not raise hands its state to the rest of the scan. */
  lemma ScanFromStep(lines: seq<string>, i: nat, st: ScanState, st1: ScanState)
    requires i < |lines| && ScanInv(lines, i, st) && ScanLine(lines[i], i + 1, st) == Next(st1)
    ensures ScanInv(lines, i + 1, st1)
    ensures ScanFrom(lines, i, st) == ScanFrom(lines, i + 1, st1)
  {
    assert Advance(lines, i, st) == Some(st1);
  }

  /** The state after scanning the first `i` lines, or None when one of
      them raised. */
  function ScanPrefix(lines: seq<string>, i: nat): (r: Option<ScanState>)
    requires i <= |lines|
    ensures r.Some? ==> ScanInv(lines, i, r.value)
    ensures i > 0 && r.Some? ==> ScanPrefix(lines, i - 1).Some?
    ensures i > 0 && r.Some? ==> ScanFrom(lines, i - 1, ScanPrefix(lines, i - 1).value) == ScanFrom(lines, i, r.value)
  {
    if i == 0 then Some(ScanState([], []))
    else
      match ScanPrefix(lines, i - 1)
      case None => None
      case Some(st) => Advance(lines, i - 1, st)
  }

  /** A scan that got past the first `i` lines goes on from the state it
      reached there. */
  lemma {:induction false} ScanPrefixResumes(lines: seq<string>, i: nat, st: ScanState)
    requires i <= |lines| && ScanPrefix(lines, i) == Some(st)
    ensures ScanInv(lines, i, st)
    ensures FindAllSpecialBlocks(lines) == ScanFrom(lines, i, st)
  {
    if i > 0 {
      var p := ScanPrefix(lines, i - 1).value;
      ScanPrefixResumes(lines, i - 1, p);
    }
  }

  /** One check of kind `k` never drops a range already recorded. */
  lemma ScanKindKeepsRanges(k: BlockKind, line: string, n: nat, st: ScanState)
    ensures match ScanKind(k, line, n, st)
            case Next(st1) => st.ranges <= st1.ranges
            case Stop(st1) => st.ranges <= st1.ranges
            case Crash(_, rs) => st.ranges <= rs
  {
    assert Opened(k, line, n, st).ranges == st.ranges;
  }

  /** One line never drops a range already recorded, not even when it
      raises. */
  lemma ScanLineKeepsRanges(line: string, n: nat, st: ScanState)
    ensures match ScanLine(line, n, st)
            case Next(st1) => st.ranges <= st1.ranges
            case Stop(st1) => st.ranges <= st1.ranges
            case Crash(_, rs) => st.ranges <= rs
  {
    if !ContainsSpecialBlock(CommentBlock, line) {
      ScanKindKeepsRanges(CommentBlock, line, n, st);
      match ScanKind(CommentBlock, line, n, st)
      case Crash(_, _) =>
      case Stop(_) =>
      case Next(st1) => ScanKindKeepsRanges(CppBlock, line, n, st1);
    }
  }

  /** The ranges of the rest of a scan extend the ranges recorded so far. */
  lemma {:induction false} ScanFromKeepsRanges(lines: seq<string>, i: nat, st: ScanState)
    requires ScanInv(lines, i, st)
    ensures st.ranges <= ScanFrom(lines, i, st).ranges
    decreases |lines| - i
  {
    if i < |lines| {
      ScanLineKeepsInv(lines, i, st);
      ScanLineKeepsRanges(lines[i], i + 1, st);
      match ScanLine(lines[i], i + 1, st)
      case Crash(_, _) =>
      case Stop(st1) => ScanFromKeepsRanges(lines, i + 1, st1);
      case Next(st1) => ScanFromKeepsRanges(lines, i + 1, st1);
    }
  }

  /** A line that leaves the indexer alone: it holds a whole block comment,
      or it neither opens nor closes a block of either kind. */
  predicate Neutral(l: string) {
    || ContainsSpecialBlock(CommentBlock, l)
    || (&& !IsStartOfSpecialBlock(CommentBlock, l) && !IsEndOfSpecialBlock(CommentBlock, l)
        && !IsStartOfSpecialBlock(CppBlock, l) && !IsEndOfSpecialBlock(CppBlock, l))
  }

  /** A line that only opens a block comment. */
  predicate OpensComment(l: string) {
    && !ContainsSpecialBlock(CommentBlock, l)
    && IsStartOfSpecialBlock(CommentBlock, l) && !IsEndOfSpecialBlock(CommentBlock, l)
    && !IsStartOfSpecialBlock(CppBlock, l) && !IsEndOfSpecialBlock(CppBlock, l)
  }

  /** A line that only closes a block comment. */
  predicate ClosesComment(l: string) {
    && !ContainsSpecialBlock(CommentBlock, l)
    && !IsStartOfSpecialBlock(CommentBlock, l) && IsEndOfSpecialBlock(CommentBlock, l)
    && !IsStartOfSpecialBlock(CppBlock, l) && !IsEndOfSpecialBlock(CppBlock, l)
  }

  /** A neutral line passes the state through. */
  lemma NeutralLineSkips(line: string, n: nat, st: ScanState)
    requires Neutral(line)
    ensures ScanLine(line, n, st) == Next(st)
  {
  }

  /** A line that only opens a block comment pushes it. */
  lemma OpenerPushes(line: string, n: nat, st: ScanState)
    requires OpensComment(line)
    ensures ScanLine(line, n, st) == Next(st.(stack := st.stack + [(CommentBlock, n)]))
  {
  }

  /** A line that only closes a block comment, with a comment on top of the
      stack, pops it and records its range. */
  lemma CloserEmits(line: string, n: nat, st: ScanState)
    requires ClosesComment(line) && |st.stack| > 0 && st.stack[|st.stack| - 1].0 == CommentBlock
    ensures ScanLine(line, n, st)
            == Next(ScanState(st.stack[..|st.stack| - 1], st.ranges + [Range(st.stack[|st.stack| - 1].1, n)]))
  {
  }

  /** Neutral lines pass the state through unchanged. */
  lemma {:induction false} NeutralLinesPass(lines: seq<string>, i: nat, j: nat, st: ScanState)
    requires i <= j <= |lines| && ScanInv(lines, i, st)
    requires forall x {:trigger Neutral(lines[x])} :: i <= x < j ==> Neutral(lines[x])
    ensures ScanInv(lines, j, st)
    ensures ScanFrom(lines, i, st) == ScanFrom(lines, j, st)
    decreases j - i
  {
    if i < j {
      NeutralLineSkips(lines[i], i + 1, st);
      ScanFromStep(lines, i, st, st);
      NeutralLinesPass(lines, i + 1, j, st);
    }
  }

  /** The scan over line `i + 1` when it only opens a block comment. */
  lemma OpenerStep(lines: seq<string>, i: nat, stack: seq<(BlockKind, nat)>, ranges: seq<Range>)
    requires i < |lines| && ScanInv(lines, i, ScanState(stack, ranges)) && OpensComment(lines[i])
    ensures ScanInv(lines, i + 1, ScanState(stack + [(CommentBlock, i + 1)], ranges))
    ensures ScanFrom(lines, i, ScanState(stack, ranges))
            == ScanFrom(lines, i + 1, ScanState(stack + [(CommentBlock, i + 1)], ranges))
  {
    var st := ScanState(stack, ranges);
    OpenerPushes(lines[i], i + 1, st);
    ScanFromStep(lines, i, st, ScanState(stack + [(CommentBlock, i + 1)], ranges));
  }

  /** The scan over line `i + 1` when it only closes a block comment opened
      on line `s`, the last entry on the stack. */
  lemma CloserStep(lines: seq<string>, i: nat, s: nat, stack: seq<(BlockKind, nat)>, ranges: seq<Range>)
    requires i < |lines| && ScanInv(lines, i, ScanState(stack + [(CommentBlock, s)], ranges))
    requires ClosesComment(lines[i])
    ensures ScanInv(lines, i + 1, ScanState(stack, ranges + [Range(s, i + 1)]))
    ensures ScanFrom(lines, i, ScanState(stack + [(CommentBlock, s)], ranges))
            == ScanFrom(lines, i + 1, ScanState(stack, ranges + [Range(s, i + 1)]))
  {
    var st1 := ScanState(stack + [(CommentBlock, s)], ranges);
    assert st1.stack[..|st1.stack| - 1] == stack;
    CloserEmits(lines[i], i + 1, st1);
    ScanFromStep(lines, i, st1, ScanState(stack, ranges + [Range(s, i + 1)]));
  }

  /** Inside a block comment opened on line `s`, neutral lines from line
      `i + 1` up to line `e` that closes it lead to the range from `s` to
      `e` being recorded, whatever happens after it. */
  lemma {:induction false} CommentBodyIsRecorded(lines: seq<string>, i: nat, e: nat, s: nat,
                                                 stack: seq<(BlockKind, nat)>, ranges: seq<Range>)
    requires i < e <= |lines| && ScanInv(lines, i, ScanState(stack + [(CommentBlock, s)], ranges))
    requires forall x {:trigger Neutral(lines[x])} :: i <= x < e - 1 ==> Neutral(lines[x])
    requires ClosesComment(lines[e - 1])
    ensures Range(s, e) in ScanFrom(lines, i, ScanState(stack + [(CommentBlock, s)], ranges)).ranges
    decreases e - i
  {
    var st := ScanState(stack + [(CommentBlock, s)], ranges);
    if i + 1 == e {
      var st2 := ScanState(stack, ranges + [Range(s, i + 1)]);
      CloserStep(lines, i, s, stack, ranges);
      ScanFromKeepsRanges(lines, i + 1, st2);
      assert st2.ranges[|ranges|] == Range(s, i + 1);
    } else {
      NeutralLineSkips(lines[i], i + 1, st);
      ScanFromStep(lines, i, st, st);
      CommentBodyIsRecorded(lines, i + 1, e, s, stack, ranges);
    }
  }

  /** From any state after line `i` that keeps the indexer's invariant, a
      comment opened on line `i + 1`, with only neutral lines up to line `e`
      that closes it, is recorded as the range from `i + 1` to `e`. */
  lemma CommentBlockIsRecordedFrom(lines: seq<string>, i: nat, e: nat, stack: seq<(BlockKind, nat)>, ranges: seq<Range>)
    requires i + 1 < e <= |lines| && ScanInv(lines, i, ScanState(stack, ranges))
    requires OpensComment(lines[i]) && ClosesComment(lines[e - 1])
    requires forall x {:trigger Neutral(lines[x])} :: i + 1 <= x < e - 1 ==> Neutral(lines[x])
    ensures Range(i + 1, e) in ScanFrom(lines, i, ScanState(stack, ranges)).ranges
  {
    OpenerStep(lines, i, stack, ranges);
    CommentBodyIsRecorded(lines, i + 1, e, i + 1, stack, ranges);
  }

  /** Completeness for a block comment: when the scan gets past the lines
      before line `s`, reaching `stack` and `ranges`, a comment opened on
      line `s`, with only neutral lines up to line `e` that closes it, is
      recorded as the range from `s` to `e`, whatever happens after it. */
  lemma CommentBlockIsRecorded(lines: seq<string>, s: nat, e: nat, stack: seq<(BlockKind, nat)>, ranges: seq<Range>)
    requires 1 <= s < e <= |lines| && ScanPrefix(lines, s - 1) == Some(ScanState(stack, ranges))
    requires OpensComment(lines[s - 1]) && ClosesComment(lines[e - 1])
    requires forall x {:trigger Neutral(lines[x])} :: s <= x < e - 1 ==> Neutral(lines[x])
    ensures Range(s, e) in FindAllSpecialBlocks(lines).ranges
  {
    ScanPrefixResumes(lines, s - 1, ScanState(stack, ranges));
    CommentBlockIsRecordedFrom(lines, s - 1, e, stack, ranges);
  }
}
