/** parsePatch: one pass over the lines of a patch that collects the
    interfaces whose definitions changed without an IID change being
    excused, the interfaces whose IID line was added, and the IDL file each
    interface name was last seen in.

    The repository the patch applies to is a map from full paths to file
    lines; a path missing from the map is a file that cannot be opened. The
    per-file cache of comment ranges is part of the parser state, because a
    scan that raises leaves the ranges it found so far in the cache. */
module PatchParser {
  import opened Wrappers
  import opened Text
  import opened Descriptors
  import opened Blocks
  import opened DiffLines
  import opened InterfaceLines
  import opened HunkHeader

  /** No entry occurs twice. */
  predicate NoDup(xs: seq<string>) {
    forall i, j :: 0 <= i < j < |xs| ==> xs[i] != xs[j]
  }

  /** What the pass reads besides the patch: the repository root the IDL
      paths are joined to, the descriptor registry, and the repository's
      files by full path. */
  datatype Env = Env(root: string, registry: seq<Descriptor>, files: map<string, seq<string>>)

  /** The exceptions the pass lets escape, each with the number (from 1) of
      the patch line that raised it. */
  datatype ParseError =
    | DeletedFlagUnbound(lineNo: nat)
      // reading the deleted-file flag before any IDL header or deletion line bound it
    | RenameScanFromNone(lineNo: nat)
      // the rename scan indexes the file's lines with `None`
    | RenameScanOutOfRange(lineNo: nat, index: int)
      // the rename scan indexes past either end of the file's lines
    | RequirementMessageOfNone(lineNo: nat)
      // the requirement's debug message concatenates a missing interface name
    | BadHunkLineNumber(lineNo: nat, group: string)
      // `int()` rejects the line-number group of a hunk header

  /** The local variables of the loop, and the comment-range cache. */
  datatype ParseState = ParseState(
    idlFile: Option<string>,
    idlPath: Option<string>,
    current: Option<string>,
    previous: Option<string>,
    needName: bool,
    foundIIDChange: bool,
    mayBeRemoved: bool,
    renamed: bool,
    lastUUIDLine: Option<int>,
    cursor: int,
    lastWasRemoval: bool,
    deleted: Option<bool>,
    cache: map<string, seq<Range>>,
    required: seq<string>,
    revved: seq<string>,
    nameToFile: map<string, Option<string>>)

  /** The state before the first line. `deleted` is `None` because the flag
      is not bound until an IDL header or a deletion line is seen. */
  const Initial: ParseState :=
    ParseState(None, None, None, None, false, false, false, false, None, -1, false, None, map[], [], [], map[])

  /** The result of the pass: the interfaces requiring a new IID, the
      interfaces whose IID changed, and the file of each interface name. */
  datatype PatchSummary = PatchSummary(required: seq<string>, revved: seq<string>, nameToFile: map<string, Option<string>>)

  // ---------------------------------------------------------------------
  // Comment ranges and the per-file cache

  /** The ranges a complete scan of `p` records: none when the file cannot
      be opened, and those found before the failure when the scan raises. */
  function FileRanges(files: map<string, seq<string>>, p: string): seq<Range> {
    if p in files then FindAllSpecialBlocks(files[p]).ranges else []
  }

  /** Every cached entry holds what a scan of its file records. */
  predicate CacheInv(files: map<string, seq<string>>, cache: map<string, seq<Range>>) {
    forall p :: p in cache ==> cache[p] == FileRanges(files, p)
  }

  /** The lookup of `p` raises: it is the first one, and the file is missing
      or its scan raises. */
  predicate FirstLookupRaises(files: map<string, seq<string>>, cache: map<string, seq<Range>>, p: string) {
    p !in cache && (p !in files || FindAllSpecialBlocks(files[p]).failure.Some?)
  }

  /** getRangesForFilePath: the ranges of `p` (`None` when the lookup
      raises) and the cache afterwards. The entry is created before the
      file is opened, so a failed lookup still caches what it found. */
  function RangesFor(files: map<string, seq<string>>, cache: map<string, seq<Range>>, p: string): (r: (Option<seq<Range>>, map<string, seq<Range>>))
    requires CacheInv(files, cache)
    ensures CacheInv(files, r.1) && p in r.1
    ensures r.1.Keys == cache.Keys + {p}
    ensures r.0.None? <==> FirstLookupRaises(files, cache, p)
    ensures r.0.Some? ==> r.0.value == FileRanges(files, p)
  {
    if p in cache then (Some(cache[p]), cache)
    else if p !in files then (None, cache[p := []])
    else
      var out := FindAllSpecialBlocks(files[p]);
      (if out.failure.Some? then None else Some(out.ranges), cache[p := out.ranges])
  }

  /** The reference meaning of the comment test: a change line that is a
      `//` comment, or that lies in a recorded block of its file when the
      lookup does not raise. */
  predicate IsCommentLine(files: map<string, seq<string>>, cache: map<string, seq<Range>>, line: string, n: int, p: string) {
    IsLineChange(line) &&
    (IsSlashComment(line) ||
     (!FirstLookupRaises(files, cache, p) && exists i :: 0 <= i < |FileRanges(files, p)| && InRange(FileRanges(files, p)[i], n)))
  }

  /** isLineComment for line number `n` of file `p`, with the handler around
      its call folded in: a raising lookup counts as "not a comment". Only a
      change line that is not a `//` comment consults the cache. */
  function IsLineComment(files: map<string, seq<string>>, cache: map<string, seq<Range>>, line: string, n: int, p: string): (r: (bool, map<string, seq<Range>>))
    requires CacheInv(files, cache)
    ensures CacheInv(files, r.1)
    ensures r.0 <==> IsCommentLine(files, cache, line, n, p)
    ensures !IsLineChange(line) || IsSlashComment(line) ==> r.1 == cache
  {
    if !IsLineChange(line) then (false, cache)
    else if IsSlashComment(line) then (true, cache)
    else
      var (ranges, cache') := RangesFor(files, cache, p);
      match ranges
      case None => (false, cache')
      case Some(rs) => (IsInAnyRange(rs, n), cache')
  }

  /** A block-comment verdict points at a block of the file that opens at or
      before the line and closes at or after it. */
  lemma CommentLineIsInsideBlock(files: map<string, seq<string>>, cache: map<string, seq<Range>>, line: string, n: int, p: string)
    requires IsCommentLine(files, cache, line, n, p) && !IsSlashComment(line)
    ensures p in files
    ensures exists r :: ValidRange(files[p], r) && r.startLine <= n <= r.endLine
  {
    var i :| 0 <= i < |FileRanges(files, p)| && InRange(FileRanges(files, p)[i], n);
    assert ValidRange(files[p], FileRanges(files, p)[i]);
  }

  // ---------------------------------------------------------------------
  // The rename test

  /** Python's `lines[k]` does not raise: `-len <= k < len`. */
  predicate InBounds(lines: seq<string>, k: int) {
    -|lines| <= k < |lines|
  }

  /** Python's `lines[k]`, counting from the end for a negative `k`. */
  function PyIndex(lines: seq<string>, k: int): string
    requires InBounds(lines, k)
  {
    if k < 0 then lines[|lines| + k] else lines[k]
  }

  /** Line `k` of `lines` exists and mentions `name`. */
  predicate MentionsAt(lines: seq<string>, name: string, k: int) {
    InBounds(lines, k) && IsSubstring(name, PyIndex(lines, k))
  }

  /** Every index from `lo` to `hi` inclusive exists and does not mention
      `name`. */
  predicate NameAbsent(lines: seq<string>, name: string, lo: int, hi: int) {
    forall k :: lo <= k <= hi ==> InBounds(lines, k) && !MentionsAt(lines, name, k)
  }

  /** The loop of isLineInterfaceRename from `counter` to `end` inclusive:
      `Ok(false)` at the first line mentioning the name, `Err(k)` at the
      first index that does not exist, `Ok(true)` when the loop runs out. */
  function ScanForName(lines: seq<string>, name: string, counter: int, end: int): (r: Result<bool, int>)
    ensures r == Ok(true) <==> NameAbsent(lines, name, counter, end)
    ensures r.Err? ==> counter <= r.error <= end && !InBounds(lines, r.error) && NameAbsent(lines, name, counter, r.error - 1)
    ensures r == Ok(false) ==> exists k :: counter <= k <= end && MentionsAt(lines, name, k) && NameAbsent(lines, name, counter, k - 1)
    decreases if counter <= end then end - counter + 1 else 0
  {
    if counter > end then Ok(true)
    else if !InBounds(lines, counter) then Err(counter)
    else if IsSubstring(name, PyIndex(lines, counter)) then
      assert MentionsAt(lines, name, counter) && NameAbsent(lines, name, counter, counter - 1);
      Ok(false)
    else ScanForName(lines, name, counter + 1, end)
  }

  /** How the rename test raises. */
  datatype RenameError = ScanFromNone | ScanOutOfRange(index: int)

  /** isLineInterfaceRename(line, name, path, (start, end)): whether the
      previous interface `name` has disappeared from lines `start` to `end`
      of the file, which means the definition on `line` renamed it. It
      answers false without scanning for an unset path or name, a line that
      is not a definition, or a file that cannot be opened. */
  function IsLineInterfaceRename(files: map<string, seq<string>>, line: string, name: Option<string>, path: Option<string>, start: Option<int>, end: int): (r: Result<bool, RenameError>)
    ensures r == Ok(true) <==>
              && Truthy(path).Some? && Truthy(name).Some? && IsInterfaceDefinitionLine(line)
              && path.value in files && start.Some? && NameAbsent(files[path.value], name.value, start.value, end)
    ensures r == Err(ScanFromNone) <==>
              && Truthy(path).Some? && Truthy(name).Some? && IsInterfaceDefinitionLine(line)
              && path.value in files && start.None?
    ensures r.Err? && r.error.ScanOutOfRange? ==> start.Some? && start.value <= r.error.index <= end
  {
    if Truthy(path).None? || Truthy(name).None? || !IsInterfaceDefinitionLine(line) || path.value !in files then Ok(false)
    else
      match start
      case None => Err(ScanFromNone)
      case Some(s) =>
        match ScanForName(files[path.value], name.value, s, end)
        case Ok(b) => Ok(b)
        case Err(k) => Err(ScanOutOfRange(k))
  }

  // ---------------------------------------------------------------------
  // Required-list updates

  /** list.remove: drop the first occurrence of `x`. */
  function RemoveFirst(xs: seq<string>, x: string): (r: seq<string>)
    ensures x !in xs ==> r == xs
    ensures x in xs ==> |r| == |xs| - 1
    decreases |xs|
  {
    if |xs| == 0 then xs
    else if xs[0] == x then xs[1..]
    else [xs[0]] + RemoveFirst(xs[1..], x)
  }

  /** On a list without duplicates, removing `x` leaves exactly the other
      entries, still without duplicates. */
  lemma {:induction false} RemoveFirstNoDup(xs: seq<string>, x: string)
    ensures NoDup(xs) ==> NoDup(RemoveFirst(xs, x))
    ensures NoDup(xs) ==> forall y :: y in RemoveFirst(xs, x) <==> y in xs && y != x
    decreases |xs|
  {
    if NoDup(xs) && |xs| > 0 {
      var t := xs[1..];
      assert xs == [xs[0]] + t;
      assert NoDup(t) by {
        forall i, j | 0 <= i < j < |t| ensures t[i] != t[j] {
          assert t[i] == xs[i + 1] && t[j] == xs[j + 1];
        }
      }
      assert xs[0] !in t by {
        forall j | 0 <= j < |t| ensures t[j] != xs[0] {
          assert t[j] == xs[j + 1];
        }
      }
      if xs[0] != x {
        RemoveFirstNoDup(t, x);
        var rt := RemoveFirst(t, x);
        assert RemoveFirst(xs, x) == [xs[0]] + rt;
        forall i, j | 0 <= i < j < |[xs[0]] + rt| ensures ([xs[0]] + rt)[i] != ([xs[0]] + rt)[j] {
          if i == 0 {
            assert ([xs[0]] + rt)[j] == rt[j - 1];
            assert rt[j - 1] in rt;
          } else {
            assert ([xs[0]] + rt)[i] == rt[i - 1] && ([xs[0]] + rt)[j] == rt[j - 1];
          }
        }
      }
    }
  }

  /** Add `n` to the required list unless it is listed already: the list
      gains exactly `n`, at its end, and stays free of duplicates. */
  function Require(xs: seq<string>, n: string): (r: seq<string>)
    ensures forall x :: x in r <==> x in xs || x == n
    ensures r == xs || (n !in xs && r == xs + [n])
    ensures NoDup(xs) ==> NoDup(r)
  {
    if n in xs then xs else xs + [n]
  }

  // ---------------------------------------------------------------------
  // The invariant of the pass

  /** Every name the pass holds is a key of the name-to-file map, and every
      key maps to a file; the current name is never empty. */
  predicate NamesMapped(s: ParseState) {
    && (s.current.Some? ==> s.current.value != "" && s.current.value in s.nameToFile)
    && (forall x :: x in s.required ==> x in s.nameToFile)
    && (forall x :: x in s.revved ==> x in s.nameToFile)
    && (forall x :: x in s.nameToFile ==> s.nameToFile[x].Some?)
  }

  /** What holds after every line: inside an IDL file its name and path are
      known, the names are mapped, the required list has no duplicates, and
      the cache agrees with the files. */
  predicate Inv(files: map<string, seq<string>>, s: ParseState) {
    && (s.deleted == Some(false) ==> s.idlFile.Some? && s.idlPath.Some?)
    && NamesMapped(s)
    && NoDup(s.required)
    && CacheInv(files, s.cache)
  }

  /** The state while a line of a live IDL file is processed. */
  predicate InFile(files: map<string, seq<string>>, s: ParseState) {
    Inv(files, s) && s.deleted == Some(false)
  }

  /** The rename test may only name the current interface when it has one:
      a definition line that finds no current interface is one the pass
      still needs a name for. */
  predicate NameKnownOrNeeded(s: ParseState, line: string) {
    s.current.None? ==> s.needName || !IsInterfaceDefinitionLine(line)
  }

  /** Two states read the same file. */
  predicate SameFile(a: ParseState, b: ParseState) {
    a.idlFile == b.idlFile && a.idlPath == b.idlPath && a.deleted == b.deleted
  }

  /** Two states hold the same lists, map and cache. */
  predicate SameRecords(a: ParseState, b: ParseState) {
    a.required == b.required && a.revved == b.revved && a.nameToFile == b.nameToFile && a.cache == b.cache
  }

  lemma InitialInv(files: map<string, seq<string>>)
    ensures Inv(files, Initial)
  {
  }

  // ---------------------------------------------------------------------
  // The phases of one line

  /** The start of every iteration, before the deleted-file test: the
      line-number bookkeeping; an IDL header binds the flag to "not deleted"
      and clears the removal and rename flags; an addition clears the
      removal flag; a missing name is needed; a deletion line marks the file
      deleted. */
  function Prologue(st: ParseState, line: string): (r: ParseState)
    ensures r.deleted == (if SignifiesDeletion(line) then Some(true) else if IsStartOfIDLFile(line) then Some(false) else st.deleted)
    ensures (r.cursor, r.lastWasRemoval) == UpdateFileMetadata(line, st.cursor, st.lastWasRemoval)
    ensures r.needName <==> st.needName || Truthy(st.current).None?
    ensures r.mayBeRemoved <==> st.mayBeRemoved && !IsStartOfIDLFile(line) && !IsAdditionLine(line)
    ensures r.renamed <==> st.renamed && !IsStartOfIDLFile(line)
    ensures r.idlFile == st.idlFile && r.idlPath == st.idlPath && r.current == st.current && r.previous == st.previous
    ensures r.lastUUIDLine == st.lastUUIDLine && r.foundIIDChange == st.foundIIDChange && SameRecords(r, st)
  {
    var (cursor, lastRemoval) := UpdateFileMetadata(line, st.cursor, st.lastWasRemoval);
    var s0 := st.(cursor := cursor, lastWasRemoval := lastRemoval);
    var s1 := if IsStartOfIDLFile(line) then s0.(deleted := Some(false), mayBeRemoved := false, renamed := false) else s0;
    var s2 := if IsAdditionLine(line) then s1.(mayBeRemoved := false) else s1;
    var s3 := if Truthy(s2.current).None? then s2.(needName := true) else s2;
    if SignifiesDeletion(line) then s3.(deleted := Some(true)) else s3
  }

  /** File headers. A header of a file that is not IDL forgets the current
      interface and the last IID line; an IDL header also switches to the
      new file and asks for a new interface name. */
  function FileHeaders(env: Env, s: ParseState, line: string): (r: ParseState)
    ensures IsLineStartOfNewFile(line) || IsStartOfIDLFile(line) ==>
              r.current.None? && r.lastUUIDLine.None? && r.previous == s.current
    ensures IsStartOfIDLFile(line) ==>
              && r.idlFile == ExtractIDLFileName(line) && r.idlPath == ExtractIDLFilePath(line, env.root)
              && r.needName && !r.foundIIDChange
    ensures !IsStartOfIDLFile(line) ==> r.idlFile == s.idlFile && r.idlPath == s.idlPath && r.needName == s.needName
    ensures !IsLineStartOfNewFile(line) && !IsStartOfIDLFile(line) ==> r == s
    ensures r.deleted == s.deleted && r.cursor == s.cursor && r.mayBeRemoved == s.mayBeRemoved && SameRecords(r, s)
  {
    var idlStart := IsStartOfIDLFile(line);
    var s1 :=
      if IsLineStartOfNewFile(line) && !idlStart then
        s.(lastUUIDLine := None, renamed := false, previous := s.current, current := None)
      else s;
    if idlStart then
      s1.(lastUUIDLine := None, idlFile := ExtractIDLFileName(line), idlPath := ExtractIDLFilePath(line, env.root),
          needName := true, previous := s1.current, current := None, foundIIDChange := false)
    else s1
  }

  /** After the header phase the file is known, and a definition line finds
      a current interface unless it needs one: a header that drops the
      current interface without asking for a new one is never a definition
      line. */
  lemma FileHeadersKeepInv(env: Env, s: ParseState, line: string)
    requires s.deleted == Some(false) && (IsStartOfIDLFile(line) || (s.idlFile.Some? && s.idlPath.Some?))
    requires NamesMapped(s) && NoDup(s.required) && CacheInv(env.files, s.cache)
    requires s.current.None? ==> s.needName
    ensures InFile(env.files, FileHeaders(env, s, line))
    ensures NameKnownOrNeeded(FileHeaders(env, s, line), line)
  {
    if IsLineStartOfNewFile(line) && !IsStartOfIDLFile(line) {
      var e :| NewFileHeaderAt(line, e);
      FileHeaderIsNotDefinition(line);
    }
  }

  /** IID lines. An added IID line expects the interface it belongs to on a
      later definition line and remembers the change; any other IID line
      also expects a new name, and a removed one marks the interface as
      possibly being removed. */
  function IIDLines(s: ParseState, line: string): (r: ParseState)
    ensures NameKnownOrNeeded(s, line) ==> NameKnownOrNeeded(r, line)
    ensures r.current.None? || r.current == s.current
    ensures IsIIDAddition(line) ==> r.foundIIDChange && r.needName && r.current.None?
    ensures IsIIDDefinition(line) && !IsIIDAddition(line) ==> !r.foundIIDChange && r.needName && r.current.None?
    ensures r.mayBeRemoved <==> s.mayBeRemoved || (IsIIDDefinition(line) && !IsIIDAddition(line) && IsRemovalLine(line))
    ensures SameFile(r, s) && SameRecords(r, s) && r.renamed == s.renamed && r.cursor == s.cursor && r.lastUUIDLine == s.lastUUIDLine
  {
    if IsIIDAddition(line) then
      s.(needName := true, previous := s.current, current := None, foundIIDChange := true)
    else if IsIIDDefinition(line) then
      s.(mayBeRemoved := s.mayBeRemoved || IsRemovalLine(line), needName := true,
         previous := s.current, current := None, foundIIDChange := false)
    else s
  }

  /** IID lines only drop the current interface and set flags. */
  lemma IIDLinesKeepInv(files: map<string, seq<string>>, s: ParseState, line: string)
    requires InFile(files, s)
    ensures InFile(files, IIDLines(s, line))
  {
    var r := IIDLines(s, line);
    assert r.current.None? || r.current == s.current;
  }

  /** The definition line of an interface whose name the pass needs: the
      name becomes current and is mapped to the current file, and it is
      recorded as revved when an added IID line came before it. */
  function NameCapture(s: ParseState, line: string): (r: ParseState)
    ensures NameKnownOrNeeded(s, line) ==> NameKnownOrNeeded(r, line)
    ensures s.needName && IsInterfaceDefinitionLine(line) ==>
              && r.current == DefinitionName(line) && !r.needName && !r.foundIIDChange
              && r.nameToFile == s.nameToFile[r.current.value := s.idlFile]
              && r.revved == (if s.foundIIDChange then s.revved + [r.current.value] else s.revved)
    ensures !(s.needName && IsInterfaceDefinitionLine(line)) ==> r == s
    ensures SameFile(r, s) && r.required == s.required && r.cache == s.cache && r.mayBeRemoved == s.mayBeRemoved
    ensures r.renamed == s.renamed && r.cursor == s.cursor && r.lastUUIDLine == s.lastUUIDLine && r.previous == s.previous
  {
    if s.needName && IsInterfaceDefinitionLine(line) then
      var n := DefinitionName(line).value;
      s.(current := Some(n),
         revved := if s.foundIIDChange then s.revved + [n] else s.revved,
         foundIIDChange := false,
         needName := false,
         nameToFile := s.nameToFile[n := s.idlFile])
    else s
  }

  /** A captured name is mapped to the current file, which is known. */
  lemma NameCaptureKeepsInv(files: map<string, seq<string>>, s: ParseState, line: string)
    requires InFile(files, s)
    ensures InFile(files, NameCapture(s, line))
  {
    var r := NameCapture(s, line);
    if s.needName && IsInterfaceDefinitionLine(line) {
      var n := r.current.value;
      assert n != "" && s.idlFile.Some?;
      assert r.nameToFile == s.nameToFile[n := s.idlFile];
      assert r.revved == s.revved || r.revved == s.revved + [n];
    }
  }

  /** A definition line met while no name is needed may rename the previous
      interface: the rename test runs from the last removed IID line to the
      line after the cursor. Its debug message names the current interface,
      which the precondition guarantees is set. */
  function RenameCheck(env: Env, s: ParseState, line: string, lineNo: nat): (r: Result<ParseState, ParseError>)
    requires NameKnownOrNeeded(s, line)
    ensures r.Ok? ==> SameFile(r.value, s) && SameRecords(r.value, s) && r.value.current == s.current && r.value.needName == s.needName
    ensures r.Ok? ==> r.value.cursor == s.cursor && r.value.mayBeRemoved == s.mayBeRemoved && r.value.lastUUIDLine == s.lastUUIDLine
    ensures r.Ok? ==> (r.value.renamed <==>
                         s.renamed || (!s.needName && IsLineInterfaceRename(env.files, line, s.previous, s.idlPath, s.lastUUIDLine, s.cursor + 1) == Ok(true)))
    ensures r.Err? ==> !s.needName && IsLineInterfaceRename(env.files, line, s.previous, s.idlPath, s.lastUUIDLine, s.cursor + 1).Err?
  {
    if !s.needName && IsInterfaceDefinitionLine(line) then
      match IsLineInterfaceRename(env.files, line, s.previous, s.idlPath, s.lastUUIDLine, s.cursor + 1)
      case Err(ScanFromNone) => Err(RenameScanFromNone(lineNo))
      case Err(ScanOutOfRange(k)) => Err(RenameScanOutOfRange(lineNo, k))
      case Ok(b) =>
        if b then
          assert s.current.Some?;
          Ok(s.(renamed := true))
        else Ok(s)
    else Ok(s)
  }

  /** A hunk header moves the cursor to its line number and, when it names
      an interface, makes that interface current and maps it to the current
      file. */
  function ContextUpdate(s: ParseState, line: string, lineNo: nat): (r: Result<ParseState, ParseError>)
    ensures !IsContextLine(line) ==> r == Ok(s)
    ensures IsContextLine(line) ==>
              match ExtractLineNumberFromContext(line)
              case Err(e) => r == Err(BadHunkLineNumber(lineNo, e.group))
              case Ok(n) => r.Ok? && r.value.cursor == n
    ensures r.Ok? && IsInterfaceContextLine(line) ==>
              r.value.current == ContextName(line) && r.value.nameToFile == s.nameToFile[ContextName(line).value := s.idlFile]
    ensures r.Ok? && !IsInterfaceContextLine(line) ==> r.value.current == s.current && r.value.nameToFile == s.nameToFile
    ensures r.Ok? ==> SameFile(r.value, s) && r.value.required == s.required && r.value.revved == s.revved && r.value.cache == s.cache
    ensures r.Ok? ==> r.value.renamed == s.renamed && r.value.mayBeRemoved == s.mayBeRemoved && r.value.lastUUIDLine == s.lastUUIDLine
  {
    if !IsContextLine(line) then Ok(s)
    else
      match ExtractLineNumberFromContext(line)
      case Err(e) => Err(BadHunkLineNumber(lineNo, e.group))
      case Ok(n) =>
        match ContextName(line)
        case None => Ok(s.(cursor := n))
        case Some(name) => Ok(s.(cursor := n, current := Some(name), nameToFile := s.nameToFile[name := s.idlFile]))
  }

  /** The rule a line must meet to require a new IID for the current
      interface, given the comment verdict `cmt`: it carries a descriptor
      that affects binary compatibility, or it is a change of a named,
      unrenamed interface that has no descriptor, is not an IID removal, not
      a comment and not a constant. */
  predicate Rule(reg: seq<Descriptor>, renamed: bool, current: Option<string>, line: string, cmt: bool) {
    || AreDescriptorsInLineAffectingBinaryCompat(reg, line)
    || (&& !renamed && !HasDescriptorsInLine(reg, line) && !IsIIDRemoval(line) && !cmt
        && !IsLineConstantExpression(line) && IsLineChange(line) && Truthy(current).Some?)
  }

  /** The rule with the comment verdict the cache and the files give. */
  predicate RequiresNewIID(env: Env, s: ParseState, line: string)
    requires s.idlPath.Some?
  {
    Rule(env.registry, s.renamed, s.current, line, IsCommentLine(env.files, s.cache, line, s.cursor, s.idlPath.value))
  }

  /** The verdict on one line: an IID removal records the cursor, the
      comment test consults the cache, and a line meeting the rule adds the
      current interface to the required list unless it is listed already.
      `VerdictFollowsRule` states when it adds and when it raises. */
  function Verdict(env: Env, s: ParseState, line: string, lineNo: nat): (r: Result<ParseState, ParseError>)
    requires CacheInv(env.files, s.cache) && s.idlPath.Some?
    ensures r.Ok? ==> CacheInv(env.files, r.value.cache)
    ensures r.Ok? ==> VerdictShape(s, r.value)
  {
    var (cmt, cache) := IsLineComment(env.files, s.cache, line, s.cursor, s.idlPath.value);
    Decide(NoteRemoval(s, line).(cache := cache), Rule(env.registry, s.renamed, s.current, line, cmt), lineNo)
  }

  /** An IID removal line records the cursor as the last IID line. */
  function NoteRemoval(s: ParseState, line: string): (r: ParseState)
    ensures r.lastUUIDLine == (if IsIIDRemoval(line) then Some(s.cursor) else s.lastUUIDLine)
    ensures VerdictShape(s, r) && r.required == s.required
  {
    if IsIIDRemoval(line) then s.(lastUUIDLine := Some(s.cursor)) else s
  }

  /** The verdict changes only the last IID line, the cache, and the
      required list, which at most gains the current interface. */
  predicate VerdictShape(s: ParseState, r: ParseState) {
    && r.idlFile == s.idlFile && r.idlPath == s.idlPath && r.current == s.current && r.deleted == s.deleted
    && r.nameToFile == s.nameToFile && r.revved == s.revved && r.mayBeRemoved == s.mayBeRemoved
    && (r.required == s.required || (s.current.Some? && r.required == Require(s.required, s.current.value)))
  }

  /** A line raises at the verdict exactly when it meets the rule while no
      interface is current; otherwise it adds the current interface exactly
      when it meets the rule, and an IID removal records the cursor. */
  lemma VerdictFollowsRule(env: Env, s: ParseState, line: string, lineNo: nat)
    requires CacheInv(env.files, s.cache) && s.idlPath.Some?
    ensures var r := Verdict(env, s, line, lineNo);
            && (r.Err? <==> RequiresNewIID(env, s, line) && s.current.None?)
            && (r.Err? ==> r.error == RequirementMessageOfNone(lineNo))
            && (r.Ok? && !RequiresNewIID(env, s, line) ==> r.value.required == s.required)
            && (r.Ok? && RequiresNewIID(env, s, line) ==> s.current.Some? && r.value.required == Require(s.required, s.current.value))
            && (r.Ok? ==> r.value.lastUUIDLine == (if IsIIDRemoval(line) then Some(s.cursor) else s.lastUUIDLine))
  {
    var (cmt, cache) := IsLineComment(env.files, s.cache, line, s.cursor, s.idlPath.value);
    assert cmt == IsCommentLine(env.files, s.cache, line, s.cursor, s.idlPath.value);
  }

  /** The requirement decision once the rule's outcome `need` is known.
      The debug message before the append names the current interface, and
      raises when there is none. */
  function Decide(s: ParseState, need: bool, lineNo: nat): (r: Result<ParseState, ParseError>)
    ensures r.Err? ==> need && s.current.None? && r.error == RequirementMessageOfNone(lineNo)
    ensures r.Ok? ==> VerdictShape(s, r.value)
  {
    if need then
      if s.current.None? then Err(RequirementMessageOfNone(lineNo))
      else Ok(s.(required := Require(s.required, s.current.value)))
    else Ok(s)
  }

  /** The end of an interface removed without additions: a `}` removal line
      while the interface may be removed drops it from the required list. */
  function RemovalRule(s: ParseState, line: string): (r: ParseState)
    ensures var fires := IsEndOfInterfaceRemoval(line) && s.mayBeRemoved && s.current.Some? && s.current.value in s.required;
            && (fires ==> r.required == RemoveFirst(s.required, s.current.value) && !r.mayBeRemoved)
            && (!fires ==> r == s)
    ensures NoDup(s.required) ==> NoDup(r.required)
    ensures NoDup(s.required) ==> forall y :: y in r.required <==> y in s.required && !(IsEndOfInterfaceRemoval(line) && s.mayBeRemoved && s.current == Some(y))
    ensures SameFile(r, s) && r.current == s.current && r.revved == s.revved && r.nameToFile == s.nameToFile && r.cache == s.cache
  {
    if IsEndOfInterfaceRemoval(line) && s.mayBeRemoved && s.current.Some? && s.current.value in s.required then
      RemoveFirstNoDup(s.required, s.current.value);
      s.(required := RemoveFirst(s.required, s.current.value), mayBeRemoved := false)
    else s
  }

  // ---------------------------------------------------------------------
  // One line, and the whole pass

  /** The body of the loop for patch line number `lineNo`. Lines of a
      deleted file and blank change lines end the iteration after the
      prologue. */
  function Step(env: Env, st: ParseState, line: string, lineNo: nat): (r: Result<ParseState, ParseError>)
    requires Inv(env.files, st)
    ensures r.Ok? ==> Inv(env.files, r.value)
  {
    var s := Prologue(st, line);
    match s.deleted
    case None => Err(DeletedFlagUnbound(lineNo))
    case Some(true) => Ok(s)
    case Some(false) => if IsBlankChange(line) then Ok(s) else LineOfFile(env, s, line, lineNo)
  }

  /** The headers, IID lines and name capture of a line of a live IDL
      file. */
  function LineOfFile(env: Env, s: ParseState, line: string, lineNo: nat): (r: Result<ParseState, ParseError>)
    requires s.deleted == Some(false) && (IsStartOfIDLFile(line) || (s.idlFile.Some? && s.idlPath.Some?))
    requires NamesMapped(s) && NoDup(s.required) && CacheInv(env.files, s.cache)
    requires s.current.None? ==> s.needName
    ensures r.Ok? ==> InFile(env.files, r.value)
  {
    FileHeadersKeepInv(env, s, line);
    var s1 := FileHeaders(env, s, line);
    IIDLinesKeepInv(env.files, s1, line);
    var s2 := IIDLines(s1, line);
    NameCaptureKeepsInv(env.files, s2, line);
    var s3 := NameCapture(s2, line);
    LineVerdict(env, s3, line, lineNo)
  }

  /** The rename test, the hunk header, the verdict and the removal rule. */
  function LineVerdict(env: Env, s: ParseState, line: string, lineNo: nat): (r: Result<ParseState, ParseError>)
    requires InFile(env.files, s) && NameKnownOrNeeded(s, line)
    ensures r.Ok? ==> InFile(env.files, r.value)
  {
    match RenameCheck(env, s, line, lineNo)
    case Err(e) => Err(e)
    case Ok(s1) =>
      match ContextUpdate(s1, line, lineNo)
      case Err(e) => Err(e)
      case Ok(s2) =>
        assert InFile(env.files, s2);
        match Verdict(env, s2, line, lineNo)
        case Err(e) => Err(e)
        case Ok(s3) =>
          assert InFile(env.files, s3);
          Ok(RemovalRule(s3, line))
  }

  /** The loop from line index `i` on. */
  function Run(env: Env, lines: seq<string>, i: nat, st: ParseState): (r: Result<ParseState, ParseError>)
    requires i <= |lines| && Inv(env.files, st)
    ensures r.Ok? ==> Inv(env.files, r.value)
    decreases |lines| - i
  {
    if i == |lines| then Ok(st)
    else
      match Step(env, st, lines[i], i + 1)
      case Err(e) => Err(e)
      case Ok(s) => Run(env, lines, i + 1, s)
  }

  /** parsePatch. Every interface the result lists is a key of its map with
      a file, and no interface requires a new IID twice. */
  function ParsePatch(env: Env, lines: seq<string>): (r: Result<PatchSummary, ParseError>)
    ensures r.Ok? ==> NoDup(r.value.required)
    ensures r.Ok? ==> forall x :: x in r.value.required ==> x in r.value.nameToFile && r.value.nameToFile[x].Some?
    ensures r.Ok? ==> forall x :: x in r.value.revved ==> x in r.value.nameToFile && r.value.nameToFile[x].Some?
  {
    InitialInv(env.files);
    match Run(env, lines, 0, Initial)
    case Err(e) => Err(e)
    case Ok(s) => Ok(PatchSummary(s.required, s.revved, s.nameToFile))
  }

  // ---------------------------------------------------------------------
  // Properties of the pass

  /** A line before any IDL header or deletion line reads the unbound
      deleted-file flag: a patch whose first line is neither raises at
      line 1. */
  lemma UnboundFlagRaisesAtFirstLine(env: Env, lines: seq<string>)
    requires |lines| > 0 && !IsStartOfIDLFile(lines[0]) && !SignifiesDeletion(lines[0])
    ensures ParsePatch(env, lines) == Err(DeletedFlagUnbound(1))
  {
    InitialInv(env.files);
    assert Prologue(Initial, lines[0]).deleted.None?;
    assert Step(env, Initial, lines[0], 1) == Err(DeletedFlagUnbound(1));
  }

  /** Inside a deleted file every line up to the next IDL header is
      skipped after the prologue: the lists, the map, the cache and the
      current interface stay as they were and the file stays deleted. */
  lemma DeletedFileLineIsSkipped(env: Env, st: ParseState, line: string, lineNo: nat)
    requires Inv(env.files, st) && st.deleted == Some(true) && !IsStartOfIDLFile(line)
    ensures Step(env, st, line, lineNo) == Ok(Prologue(st, line))
    ensures var r := Prologue(st, line);
            r.deleted == Some(true) && SameRecords(r, st) && r.current == st.current
  {
  }

  /** A change line with nothing but whitespace after its marker is
      skipped after the prologue inside a live IDL file. */
  lemma BlankChangeIsSkipped(env: Env, st: ParseState, line: string, lineNo: nat)
    requires Inv(env.files, st) && Prologue(st, line).deleted == Some(false) && IsBlankChange(line)
    ensures Step(env, st, line, lineNo) == Ok(Prologue(st, line))
    ensures SameRecords(Prologue(st, line), st)
  {
  }
}
