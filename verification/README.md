# checkiid in Dafny

checkiid reads the unified diff of a Mozilla-style source tree. It reports
every XPIDL interface whose definition changed without a new IID. The IID is
the `uuid(...)` attribute in front of the `interface` line. This project
models the analysis core of `checkiid.py` and `idlutils.py` as pure Dafny
functions and proves properties of it:

- the line classifier: change lines, hunk headers and their line numbers,
  file headers, IID lines, interface definition and context lines, constant
  lines and comment lines;
- the block-range indexer, which finds the `/* ... */` and `%{C++ ... %}`
  blocks of an IDL file;
- the descriptor registry and its attribute tests;
- `parsePatch`, written as a fold of a step function over the patch lines;
- the checking stage of `main`, and the lookup its report makes.

## Conventions

- A line is modelled without its trailing newline. The model line `l` stands
  for the line `l + "\n"` that Python reads. The only regex this affects is
  `const(\s)+`, where the newline counts as whitespace. The model therefore
  accepts `const` at the end of a line.
- Whitespace is the set that `\s` and `str.isspace()` accept on Python 2
  byte strings: space, tab, line feed, carriage return, vertical tab and form
  feed.
- Each regex is written out as a string predicate. Its match is the one
  Python's backtracking engine picks: the leftmost start, greedy groups, and
  backtracking to the last delimiter that still lets the rest match. Lemmas
  show that the computed answer is that match. Examples are
  `InterfaceLines.InterfaceGroupIsMatch`,
  `InterfaceLines.LastContextCloseIsRightmost` and
  `HunkHeader.SearchFindsChosen`.
- The globals are explicit arguments:
  - the descriptor list is a `seq<Descriptor>`;
  - the repository is a map from full paths to file lines, where a missing
    key is a file that cannot be opened;
  - the comment-range cache is a field of the parser state.
- The cache is kept in the model because it changes results. The indexer can
  raise part-way through a file, on `blockStack.push`, which Python lists do
  not have, or on a pop of an empty stack. The ranges it recorded before that
  stay in the cache. The first comment test on that file falls into the bare
  `except` and answers "not a comment". Later tests on the same file see the
  partial ranges.
- Python exceptions that escape `parsePatch` are `Err` results, each carrying
  the patch line number (`PatchParser.ParseError`):
  - reading the deleted-file flag before any IDL header or `+++ /dev/null`
    line has bound it;
  - the rename scan starting at `None`, or indexing past either end of the
    file;
  - a debug message that concatenates a missing interface name;
  - `int()` rejecting the line-number group of a hunk header.

  Python's negative list indices are modelled in the rename scan.
- A descriptor is an immutable datatype value, so its token and its flag
  cannot change after construction.
- Lines are skipped after a `+++ /dev/null` line (`doesLineSignifyDeletion`,
  checkiid.py:857-864) until the next IDL header. `doesLineSignifyCreation`
  is modelled as `DiffLines.SignifiesCreation` but, as in the code, never
  used.
- The compatibility test `areDescriptorsInLineAffectingBinaryCompat` tests
  the bound method `desc.affectsBinaryCompatibility`, never calls it, and
  the method object is always true. It is reproduced as written.
  `Descriptors.AffectingIsPresence` shows that it equals the presence test.
  `Descriptors.AsWrittenIgnoresFlags` shows where it departs from its
  documentation, and `Descriptors.DefaultRegistryAgrees` shows that the two
  agree for the registry `main` installs.

## Model

| member | source | states |
|---|---|---|
| Descriptors.AttributeListOfAnnotatedLine | checkiid.py:126-128 | On a line made of whitespace, a `+`/`-` marker, whitespace, `[`, a list, `]` and a tail without `]`, group 3 of the attribute pattern is exactly that list |
| Descriptors.IsInLineIffListed | idlutils.py:58-67 | On such a line a descriptor is found iff its token equals one of the comma-separated pieces of the list exactly |
| Descriptors.PiecesAreNotTrimmed | idlutils.py:59-66 | Pieces are not trimmed: `+[notxpcom, nostdcall]` carries `notxpcom` but not `nostdcall` |
| Descriptors.HasDescriptorsInLine | idlutils.py:85-89 | True iff some registered descriptor is in the line; hence false for an empty registry |
| Descriptors.AreDescriptorsInLineAffectingBinaryCompat | idlutils.py:104-106 | False whenever no registered descriptor is in the line |
| Descriptors.AffectingIsPresence | idlutils.py:104-116 | The compatibility test as written equals the presence test, whatever the descriptors' flags |
| Descriptors.AsWrittenIgnoresFlags | idlutils.py:97-116 | A registry whose only descriptor is unflagged makes the test true on a line carrying it, while the documented test is false |
| Descriptors.DefaultRegistryAgrees | checkiid.py:1090-1095 | With the four flagged descriptors of `main`, the test as written equals the documented one on every line |
| Blocks.SameBlockTypeIsKindEquality | idlutils.py:161-164 | Two block types have equal start and end tokens iff they are the same kind |
| Blocks.IsStartOfSpecialBlock | idlutils.py:173-179 | True iff a match of the start pattern is preceded only by whitespace |
| Blocks.StartAfterSpacesIsFirst | idlutils.py:176 | The only start position preceded by whitespace alone is the end of the leading whitespace |
| Blocks.IsEndOfSpecialBlock | idlutils.py:201-208 | True iff the end token is followed only by whitespace up to the end of the line |
| Blocks.EndTokenAtTrimmedEnd | idlutils.py:204-205 | The end token closes the line iff the right-stripped line ends with it |
| Blocks.ContainsSpecialBlock | idlutils.py:188-192 | True iff some start match is followed by a later end token that does not overlap it |
| Blocks.IsInAnyRange | checkiid.py:229-232 | Line `n` is in some range `(s, e)` iff `s <= n <= e` for one of them |
| Blocks.OneLineCommentIsSkipped | checkiid.py:290-292 | A line holding a whole `/* ... */` comment leaves the stack and the ranges unchanged |
| Blocks.ScanLineKeepsInv | checkiid.py:285-343 | One iteration keeps every stack entry on a start line of its kind and every range valid, or raises keeping only valid ranges |
| Blocks.FindAllSpecialBlocks | checkiid.py:265-345 | Every range lies between line 1 and the last line with its start not after its end, opens on a start line and closes on an end line of one and the same kind; ranges come in closing order; a failure names a line of the file |
| Blocks.ScanLineKeepsRanges | checkiid.py:285-343 | One iteration never drops a recorded range, not even when it raises part-way |
| Blocks.ScanFromKeepsRanges | checkiid.py:282-345 | The rest of the scan extends the ranges recorded so far, so a failure keeps every range found before it |
| Blocks.ScanPrefixResumes | checkiid.py:282-345 | The scan of a whole file is the scan of its first lines resumed from the state they reach |
| Blocks.CommentBlockIsRecordedFrom | checkiid.py:290-343 | From any state the loop can hold after line `i`, a comment opened on line `i + 1` with only neutral lines up to the line `e` that closes it is recorded as `(i + 1, e)` |
| Blocks.CommentBlockIsRecorded | checkiid.py:265-345 | Completeness for block comments: when the scan gets past the lines before `s`, a comment that line `s` only opens and line `e` only closes is recorded as `(s, e)`, even if a later line raises, provided each line between them is neutral (it holds a whole `/* ... */` or opens and closes no block) |
| DiffLines.HeadersAreNotChanges | checkiid.py:722-771 | `+++` and `---` lines are not changes, and no line is both an addition and a removal |
| DiffLines.ChangeLineShape | checkiid.py:773-780 | A change line is exactly one of addition and removal; its content is everything after the marker |
| DiffLines.UpdateFileMetadata | checkiid.py:782-795 | The flag is set iff the line is a removal; the cursor stays on `prev` iff the line is a removal or an addition right after one, and otherwise advances by one |
| DiffLines.ReplacementSharesLineNumber | checkiid.py:788-795 | A removal followed by an addition keeps both on one line number, and the next line advances |
| DiffLines.ExtractIID | checkiid.py:474-479 | Some iff a `uuid(` has a `)` at or after its end; the result sits between `uuid(` and `)` on the line |
| DiffLines.ExtractIIDOfUuidLine | checkiid.py:475-477 | An IID between text without `(` before it and text without `)` after it is extracted exactly |
| DiffLines.IIDLineShape | checkiid.py:436-466 | A line has an IID iff some `uuid(` is followed, after at least one character, by `)`; an IID addition starts with `+`, an IID removal with `-`, never both |
| DiffLines.IdlPathAt | checkiid.py:496 | The `.idl` path starting at a position is unique when it exists |
| DiffLines.IdlHeaderPath | checkiid.py:496-499 | A result is the second path of a header of the IDL shape |
| DiffLines.IdlHeaderPathComplete | checkiid.py:496-499 | Every header of the IDL shape is recognised and yields its second path |
| DiffLines.IdlHeaderPathOfHeader | checkiid.py:496-499 | `diff --git a/A b/B...` with `.idl` paths `A` and `B` yields `B` |
| DiffLines.JoinPath | checkiid.py:499 | An empty root leaves the path; a root without a trailing `/` gets one |
| DiffLines.ExtractIDLFilePath | checkiid.py:492-500 | Some iff the line is an IDL header, and then its second path joined to the root |
| DiffLines.BaseName | checkiid.py:516-518 | The leftmost `name.idl` match in an `.idl` path is its last component: alphanumerics followed by `.idl`, without `/` |
| DiffLines.ExtractIDLFileName | checkiid.py:512-520 | Some iff the line is an IDL header, and then the non-empty last component of its second path |
| DiffLines.IsLineStartOfNewFile | checkiid.py:555-559 | True iff the line has the shape of a `diff --git` header of a file with an extension |
| DiffLines.IdlHeaderStartsNewFile | checkiid.py:358-362 | Every IDL header is also the start of a new file |
| DiffLines.IsLineConstantExpression | checkiid.py:561-570 | True iff the line is a change whose marker is followed by whitespace, `const` and whitespace or the end of the line |
| DiffLines.IsSlashComment | checkiid.py:589-591 | True iff the line is a change whose marker is followed by optional whitespace and `//` |
| DiffLines.IsEndOfInterfaceRemoval | checkiid.py:745-753 | True iff the line is a removal whose marker is followed by optional whitespace and `}` |
| InterfaceLines.InterfaceGroupIsMatch | checkiid.py:701-713 | The extracted name is the right-stripped group of the match the engine picks, and there is none iff the pattern does not match |
| InterfaceLines.DefinitionName | checkiid.py:659-664 | A found name is non-empty and comes from the prefixed pattern when that yields one, else from the unprefixed pattern |
| InterfaceLines.DefinitionOfChangedDeclaration | checkiid.py:610-623 | `+interface n : base` yields `n` and is a definition line when `base` does not end in `;` |
| InterfaceLines.DefinitionOfUnchangedDeclaration | checkiid.py:659-664 | ` interface n : base`, an unchanged line, yields `n` |
| InterfaceLines.ForwardDeclarationIsNotDefinition | checkiid.py:616-619 | A line ending in `;` and whitespace is never a definition line |
| InterfaceLines.FileHeaderIsNotDefinition | checkiid.py:610-623 | A `diff --git` header is never a definition line |
| InterfaceLines.LastContextCloseIsRightmost | checkiid.py:674 | No closing `@@` to the right of the chosen one lets the interface pattern match |
| InterfaceLines.LastContextCloseOfOnly | checkiid.py:674 | A closing `@@` after which the pattern matches, with none further right, is the one chosen |
| InterfaceLines.ContextNameOfHunkHeader | checkiid.py:673-674 | `@@ ranges @@ interface n : base` yields `n` whatever the ranges say |
| InterfaceLines.ContextNameAtOnlyClose | checkiid.py:633-636 | The name after the only feasible closing `@@` is the context name |
| HunkHeader.HunkTailIff | checkiid.py:684 | The tail of the pattern matches from `q` iff `q` lies below the last `+` before the last comma before the last closing `@@` |
| HunkHeader.MatchFromIsLongest | checkiid.py:684 | At a given start, a match is found whenever one exists, and its group 2 is the longest |
| HunkHeader.SearchIsLeftmost | checkiid.py:684 | The search reports a start no later than any start with a match |
| HunkHeader.SearchFindsChosen | checkiid.py:684-685 | The search finds nothing iff the pattern does not match, else exactly the match the engine picks |
| HunkHeader.ExtractLineNumberOfChosenMatch | checkiid.py:683-687 | The result is 0 without a match, else `int(group 2) - 1` of the chosen match |
| HunkHeader.ExtractLineNumberFromContext | checkiid.py:686 | An error means `int()` rejects group 2 |
| HunkHeader.LineNumberOfHunkHeader | checkiid.py:683-687 | `@@ -a,b +c,d @@ ctx` with decimal numbers and no `+` in `ctx` yields `a - 1` |
| HunkHeader.HeaderWithoutCountsGivesZero | checkiid.py:684-687 | A header without a comma, such as `@@ -1 +1 @@`, yields 0 |
| Text.PyIntDecimal | checkiid.py:686 | `int(str(n)) == n` for every natural `n` |
| Text.SplitUnique | idlutils.py:61 | Splitting the comma-join of comma-free pieces gives back the pieces |
| PatchParser.RangesFor | checkiid.py:249-253 | The lookup caches the path; it raises iff the path was not cached and the file is missing or its scan raises; otherwise it returns that file's ranges, and the cache stays consistent with the files |
| PatchParser.IsLineComment | checkiid.py:583-601 | Agrees with the comment rule; a non-change line or a `//` line leaves the cache untouched |
| PatchParser.CommentLineIsInsideBlock | checkiid.py:594-599 | A comment line that is not a `//` line lies in a range of its file's scan |
| PatchParser.ScanForName | checkiid.py:419-428 | True iff the name is absent from all scanned lines; an error is the first index out of bounds, the name being absent before it |
| PatchParser.IsLineInterfaceRename | checkiid.py:383-428 | True iff every guard passes, the file is present, the start is set and the name is absent from the scanned lines; raises iff the scan starts at `None` |
| PatchParser.RemoveFirstNoDup | checkiid.py:1026 | `list.remove` on a list without repetitions keeps it so, and drops exactly the removed name |
| PatchParser.Require | checkiid.py:1019-1020 | The list gains the name iff it was absent, at the end, and stays without repetitions |
| PatchParser.Prologue | checkiid.py:840-864 | Binds the deleted flag at a deletion line or an IDL header; applies the cursor update; clears the removal and rename flags where the code does; keeps the lists, map and cache |
| PatchParser.FileHeaders | checkiid.py:876-912 | A file header drops the current interface and the last IID line; an IDL header switches file and path and asks for a new name |
| PatchParser.FileHeadersKeepInv | checkiid.py:876-912 | After the headers the file is known, and a definition line finds a current interface unless a name is needed |
| PatchParser.IIDLines | checkiid.py:914-927 | An IID line asks for a new name, records an addition, and marks a removed IID as possibly removing its interface |
| PatchParser.NameCapture | checkiid.py:931-951 | A definition line met while a name is needed makes that name current, maps it to the current file, and records it as revved after an added IID line |
| PatchParser.NameCaptureKeepsInv | checkiid.py:936-951 | The captured name is non-empty and mapped to a known file |
| PatchParser.RenameCheck | checkiid.py:956-960 | Sets the rename flag iff the rename test answers true; its debug message never meets a missing name |
| PatchParser.ContextUpdate | checkiid.py:963-977 | A hunk header moves the cursor to its line number or raises on a bad number; an interface context line makes its name current and maps it to the current file |
| PatchParser.VerdictFollowsRule | checkiid.py:981-1020 | The verdict raises iff the rule holds with no current interface; otherwise the current interface is appended iff the rule holds; an IID removal records the cursor |
| PatchParser.Decide | checkiid.py:1007-1020 | Only the required list changes, and only by gaining the current interface |
| PatchParser.RemovalRule | checkiid.py:1025-1027 | A removed `}` while the interface may be removed drops it from the required list and clears the flag; the list stays without repetitions |
| PatchParser.Step | checkiid.py:839-1027 | One iteration keeps the pass invariant: known file inside a live IDL file, every listed name mapped to a file, no duplicate requirement, cache consistent |
| PatchParser.Run | checkiid.py:839-1027 | The loop keeps the pass invariant |
| PatchParser.ParsePatch | checkiid.py:812-1029 | The required list has no repetitions, and every required or revved name is a key of the map with a file |
| PatchParser.UnboundFlagRaisesAtFirstLine | checkiid.py:842-861 | A patch whose first line is neither an IDL header nor `+++ /dev/null` raises at line 1 |
| PatchParser.DeletedFileLineIsSkipped | checkiid.py:857-864 | Inside a deleted file every line before the next IDL header is skipped, leaving the lists, map, cache and current interface unchanged |
| PatchParser.BlankChangeIsSkipped | checkiid.py:866-874 | A blank change line in a live file ends its iteration after the prologue |
| IidCheck.Unrevved | checkiid.py:1100-1114 | A name is unrevved iff it requires a new IID and is not revved |
| IidCheck.UnrevvedAppend | checkiid.py:1102-1114 | The check keeps order: checking a concatenation checks each part in turn |
| IidCheck.UnrevvedNoDup | checkiid.py:1102-1114 | A list without repetitions yields unrevved names without repetitions |
| IidCheck.Reports | checkiid.py:1122-1124 | One report per name, in order, each with the file its map entry names |
| IidCheck.CheckSummary | checkiid.py:1100-1124 | An interface is reported iff it requires a new IID and is not revved, once, with its mapped file |
| IidCheck.AllRevvedReportsNothing | checkiid.py:1118 | When every required interface is revved nothing is reported |
| IidCheck.CheckPatch | checkiid.py:1096-1124 | A parse error escapes `main` unchanged; otherwise the parsed summary maps every listed name to a file and has no repeated requirement, so the lookup `interfaceNameIDLMap[interface]` cannot raise |
| IidCheck.MessageLayout | checkiid.py:1125 | The message holds the interface name after `Interface '`, then a quote, and the file name between the fixed middle and the fixed close |
| IidCheck.MessageIsInjective | checkiid.py:1125 | For interface names without a quote, two reports print the same message exactly when they are the same report |

## Left out

- Console output: the `PrettyPrinter` class, every `gPrinter.debug`, `warn`, `info` and `error` call, and the per-file warning list `fileWarningsIssued`. The debug messages matter only where building their text raises, and those cases are modelled as errors.
- `parseArguments`, `createParser`, the `__main__` block, and the self-test and temp-file part of the reporting stage: argument parsing and file handling.
- File I/O: the patch is a sequence of lines, and the repository is a map from full paths to lines. An unreadable file is a missing key.
- `changedIDLFilePaths` and `changedIDLFileNames`: they are filled in and never read.
- The `filePath` field of `SpecialBlockRange`: it is stored and never read.
- General regular expressions: only the patterns the code uses are modelled, as hand-written matchers.
- Unicode whitespace and `int()` accepting underscores: the model uses Python 2 byte-string semantics.
- `HunkHeader.ExtractLineNumberFromContext`: its contract only says what an error means. The value it computes is stated by `HunkHeader.ExtractLineNumberOfChosenMatch` and `HunkHeader.LineNumberOfHunkHeader`.
- `PatchParser.Decide`: its contract only gives the shape of the change. When the requirement is added and when the verdict raises is stated by `PatchParser.VerdictFollowsRule`.
- PatchParser.ParsePatch: the whole-pass consequences of the per-line rules are stated one iteration at a time, not over a whole patch. These are: a pure removal not counting as a change (`PatchParser.RemovalRule`), renames being exempt (`PatchParser.RenameCheck`, `PatchParser.IsLineInterfaceRename`) and comments being ignored (`PatchParser.VerdictFollowsRule`). A whole-patch form would need two exceptions the code has. A comment line with a registered descriptor is still flagged by the binary-compatibility disjunct (checkiid.py:1007). A line of a file missing from the repository, or whose scan raises, is never a comment (checkiid.py:988-994).
- `Text.PyIntDecimal`: it is stated over the decimal spelling `Decimal(n)` of a natural number, not over every string `int()` accepts.

