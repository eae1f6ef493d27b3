/** Classification of single lines of `git diff` output: change markers,
    file headers, IID lines, constant and comment lines, and the running
    line-number bookkeeping.

    A line is modelled without its terminating line feed: the model line `l`
    stands for the line `l + "\n"` the patch is read as. */
module DiffLines {
  import opened Wrappers
  import opened Text

  /** isAdditionLine: a `+` that is not the start of a `+++` header. */
  predicate IsAdditionLine(l: string) {
    |l| >= 1 && l[0] == '+' && !("+++" <= l)
  }

  /** isRemovalLine: a `-` that is not the start of a `---` header. */
  predicate IsRemovalLine(l: string) {
    |l| >= 1 && l[0] == '-' && !("---" <= l)
  }

  /** isLineChange */
  predicate IsLineChange(l: string) {
    IsAdditionLine(l) || IsRemovalLine(l)
  }

  /** A change line is a one-character marker followed by the changed text,
      and the two kinds of change exclude each other. */
  lemma ChangeLineShape(l: string)
    requires IsLineChange(l)
    ensures IsAdditionLine(l) != IsRemovalLine(l)
    ensures ExtractContent(l) == Some(l[1..]) && [l[0]] + l[1..] == l
  {
  }

  /** The `+++` and `---` file headers are not changes, and no line is
      both an addition and a removal. */
  lemma HeadersAreNotChanges(l: string)
    ensures "+++" <= l ==> !IsLineChange(l)
    ensures "---" <= l ==> !IsLineChange(l)
    ensures !(IsAdditionLine(l) && IsRemovalLine(l))
  {
  }

  /** isContextLine: a hunk header starting with `@@`. */
  predicate IsContextLine(l: string) {
    "@@" <= l
  }

  /** extractContentFromChangeLine: the text after the change marker, or
      `None` for a line that is not a change. */
  function ExtractContent(l: string): (r: Option<string>)
    ensures r.Some? <==> IsLineChange(l)
    ensures r.Some? ==> [l[0]] + r.value == l
  {
    if IsLineChange(l) then Some(l[1..]) else None
  }

  /** A change line whose content is empty once trailing whitespace is
      stripped; the parser skips these. */
  predicate IsBlankChange(l: string) {
    IsLineChange(l) && TrimRight(l[1..]) == ""
  }

  /** updateFileMetadata: the line number in the target file where line `l`
      takes effect, and whether `l` is a removal. A removal stays on the
      previous number, an addition right after a removal takes the removed
      line's place, and any other line advances by one. */
  function UpdateFileMetadata(l: string, prev: int, lastWasRemoval: bool): (r: (int, bool))
    ensures r.1 <==> IsRemovalLine(l)
    ensures prev <= r.0 <= prev + 1
    ensures r.0 == prev <==> IsRemovalLine(l) || (IsAdditionLine(l) && lastWasRemoval)
  {
    var current := prev + 1;
    if IsLineChange(l) then
      if IsAdditionLine(l) && lastWasRemoval then (current - 1, false)
      else if IsRemovalLine(l) then (prev, true)
      else (current, false)
    else (current, false)
  }

  /** A one-line replacement: a removal followed by an addition puts the
      added line on the removed line's number, and the line after both
      advances by one. */
  lemma ReplacementSharesLineNumber(removed: string, added: string, next: string, prev: int, last: bool)
    requires IsRemovalLine(removed) && IsAdditionLine(added) && !IsLineChange(next)
    ensures var (n1, r1) := UpdateFileMetadata(removed, prev, last);
            var (n2, r2) := UpdateFileMetadata(added, n1, r1);
            var (n3, r3) := UpdateFileMetadata(next, n2, r2);
            n1 == prev && n2 == prev && n3 == prev + 1 && !r3
  {
  }

  /** Group 1 of `uuid\((.*)\)`: the text between the first `uuid(` of the
      line and the last `)` after it, or `None` when there is no match. */
  function ExtractIID(l: string): (r: Option<string>)
    ensures r.Some? <==> exists i, j :: Occurs(l, "uuid(", i) && i + 5 <= j < |l| && l[j] == ')'
    ensures r.Some? ==> exists i :: Occurs(l, "uuid(" + r.value + ")", i)
  {
    match IndexOf(l, "uuid(", 0)
    case None => None
    case Some(i) =>
      match LastIndexOf(l, ')')
      case None => None
      case Some(j) =>
        if j >= i + 5 then
          assert l[i..j + 1] == "uuid(" + l[i + 5..j] + ")";
          assert Occurs(l, "uuid(" + l[i + 5..j] + ")", i);
          Some(l[i + 5..j])
        else
          None
  }

  /** An IID written as `uuid(` id `)` between text without `(` before it
      and text without `)` after it is extracted exactly. */
  lemma ExtractIIDOfUuidLine(pre: string, id: string, post: string)
    requires '(' !in pre && ')' !in post
    ensures ExtractIID(pre + "uuid(" + id + ")" + post) == Some(id)
  {
    var l := pre + "uuid(" + id + ")" + post;
    var i := |pre|;
    var j := |pre| + 5 + |id|;
    assert Occurs(l, "uuid(", i);
    forall k | 0 <= k < i ensures !Occurs(l, "uuid(", k) {
      if k + 4 < i {
        assert l[k + 4] == pre[k + 4];
      } else {
        assert l[k + 4] == "uuid("[k + 4 - i];
      }
      assert l[k..k + 5][4] == l[k + 4];
    }
    assert IndexOf(l, "uuid(", 0) == Some(i);
    assert l[j] == ')';
    forall k | j < k < |l| ensures l[k] != ')' {
      assert l[k] == post[k - j - 1];
    }
    assert LastIndexOf(l, ')') == Some(j);
    assert l[i + 5..j] == id;
  }

  /** Truthiness of an extracted IID: `uuid()` yields the empty string,
      which the IID tests treat as no IID. */
  predicate HasIID(l: string) {
    ExtractIID(l).Some? && ExtractIID(l).value != ""
  }

  /** isLineIIDAddition: an IID on a line that starts with `+`. */
  predicate IsIIDAddition(l: string) {
    HasIID(l) && "+" <= l
  }

  /** isLineIIDDefinition */
  predicate IsIIDDefinition(l: string) {
    HasIID(l)
  }

  /** isLineIIDRemoval: an IID on a line that starts with `-`. */
  predicate IsIIDRemoval(l: string) {
    HasIID(l) && "-" <= l
  }

  /** A line carries an IID exactly when some `uuid(` on it is followed,
      after at least one character, by a `)`; an IID line is an addition or
      a removal according to its first character, never both. */
  lemma IIDLineShape(l: string)
    ensures HasIID(l) <==> exists i, j :: Occurs(l, "uuid(", i) && i + 5 < j < |l| && l[j] == ')'
    ensures IsIIDAddition(l) <==> HasIID(l) && |l| > 0 && l[0] == '+'
    ensures IsIIDRemoval(l) <==> HasIID(l) && |l| > 0 && l[0] == '-'
    ensures !(IsIIDAddition(l) && IsIIDRemoval(l))
  {
    if exists i, j :: Occurs(l, "uuid(", i) && i + 5 < j < |l| && l[j] == ')' {
      var i, j :| Occurs(l, "uuid(", i) && i + 5 < j < |l| && l[j] == ')';
      var i0 := IndexOf(l, "uuid(", 0);
      var j0 := LastIndexOf(l, ')');
      assert i0.Some? && i0.value <= i;
      assert j0.Some? && j <= j0.value;
      assert ExtractIID(l) == Some(l[i0.value + 5..j0.value]);
    }
  }

  /** The fixed start of a `git diff` file header. */
  const GitHeader: string := "diff --git a/"

  predicate DoubleSlashAt(b: string, k: int) {
    0 <= k < |b| - 1 && b[k] == '/' && b[k + 1] == '/'
  }

  /** What `([a-zA-Z0-9]+/)+[a-zA-Z0-9]+` matches: at least two non-empty
      alphanumeric components separated by single slashes. */
  predicate IsDirPath(b: string) {
    && |b| >= 3
    && (forall k :: 0 <= k < |b| ==> IsAlnum(b[k]) || b[k] == '/')
    && IsAlnum(b[0]) && IsAlnum(b[|b| - 1])
    && (forall k :: 0 <= k < |b| - 1 ==> !DoubleSlashAt(b, k))
    && '/' in b
  }

  /** What `([a-zA-Z0-9]+/)+([a-zA-Z0-9]+\.idl)` matches: a directory path
      followed by `.idl`. */
  predicate IsIdlPath(p: string) {
    |p| >= 4 && p[|p| - 4..] == ".idl" && IsDirPath(p[..|p| - 4])
  }

  /** `l[i..e]` is an `.idl` path. */
  predicate IdlPathBetween(l: string, i: int, e: int) {
    0 <= i <= e <= |l| && IsIdlPath(l[i..e])
  }

  /** The body of a path match starting at `i` always ends where the run of
      path characters ends, since the `.` after it is not one of them. */
  lemma PathBodyEndsAtRunEnd(l: string, i: nat, b: string)
    requires i + |b| < |l| && l[i..i + |b|] == b && l[i + |b|] == '.'
    requires forall k :: 0 <= k < |b| ==> IsAlnum(b[k]) || b[k] == '/'
    ensures PathRunEnd(l, i) == i + |b|
    decreases |b|
  {
    if |b| > 0 {
      assert l[i] == b[0];
      assert l[i + 1..i + 1 + |b[1..]|] == b[1..];
      PathBodyEndsAtRunEnd(l, i + 1, b[1..]);
    }
  }

  /** The `.idl` path that starts at `i`, if one does: the run of path
      characters, then `.idl`. */
  function IdlPathAt(l: string, i: nat): (r: Option<nat>)
    requires i <= |l|
    ensures r.Some? ==> IdlPathBetween(l, i, r.value)
    ensures forall e :: IdlPathBetween(l, i, e) ==> r == Some(e)
  {
    var e := PathRunEnd(l, i);
    if e + 4 <= |l| && l[e..e + 4] == ".idl" && IsDirPath(l[i..e]) then
      assert l[i..e + 4][..e - i] == l[i..e];
      assert l[i..e + 4][e - i..] == ".idl";
      IdlPathAtUnique(l, i);
      Some(e + 4)
    else
      IdlPathAtUnique(l, i);
      None
  }

  lemma IdlPathAtUnique(l: string, i: nat)
    requires i <= |l|
    ensures forall e :: IdlPathBetween(l, i, e) ==>
              var run := PathRunEnd(l, i);
              e == run + 4 && l[run..e] == ".idl" && IsDirPath(l[i..run])
  {
    forall e | IdlPathBetween(l, i, e)
      ensures e == PathRunEnd(l, i) + 4
      ensures l[PathRunEnd(l, i)..e] == ".idl" && IsDirPath(l[i..PathRunEnd(l, i)])
    {
      var p := l[i..e];
      var b := p[..|p| - 4];
      assert l[i..i + |b|] == b;
      assert l[i + |b|] == p[|b|] == '.';
      PathBodyEndsAtRunEnd(l, i, b);
      assert l[i + |b|..e] == p[|b|..];
    }
  }

  /** Line `l` is an IDL header whose first path ends at `e` and whose
      second path is `b`. */
  predicate IdlHeaderAt(l: string, e: int, b: string) {
    && GitHeader <= l && 13 <= e && e + 3 + |b| <= |l|
    && IdlPathBetween(l, 13, e) && l[e..e + 3] == " b/"
    && IsIdlPath(b) && l[e + 3..e + 3 + |b|] == b
  }

  /** Group 4 of the IDL header pattern
      `^diff --git a/(P) b/(P)` with `P` an `.idl` path: the path after
      `b/`, or `None` when the line is not such a header. Such a header
      determines its paths uniquely. */
  function IdlHeaderPath(l: string): (r: Option<string>)
    ensures r.Some? ==> exists e :: IdlHeaderAt(l, e, r.value)
  {
    if GitHeader <= l then
      match IdlPathAt(l, 13)
      case None => None
      case Some(e) =>
        if e + 3 <= |l| && l[e..e + 3] == " b/" then
          match IdlPathAt(l, e + 3)
          case None => None
          case Some(f) =>
            assert IdlHeaderAt(l, e, l[e + 3..f]);
            Some(l[e + 3..f])
        else None
    else None
  }

  /** Every header of that shape is recognised, and yields its second
      path. */
  lemma IdlHeaderPathComplete(l: string, e: int, b: string)
    requires IdlHeaderAt(l, e, b)
    ensures IdlHeaderPath(l) == Some(b)
  {
    var f := e + 3 + |b|;
    assert IdlPathBetween(l, 13, e);
    assert IdlPathAt(l, 13) == Some(e);
    assert IdlPathBetween(l, e + 3, f);
    assert IdlPathAt(l, e + 3) == Some(f);
    IdlHeaderPathOfPaths(l, e, f);
  }

  /** IdlHeaderPath once both path matches are known. */
  lemma IdlHeaderPathOfPaths(l: string, e: nat, f: nat)
    requires GitHeader <= l && e + 3 <= f <= |l| && l[e..e + 3] == " b/"
    requires IdlPathAt(l, 13) == Some(e) && IdlPathAt(l, e + 3) == Some(f)
    ensures IdlHeaderPath(l) == Some(l[e + 3..f])
  {
  }

  /** Any header naming two `.idl` paths yields the second one. */
  lemma IdlHeaderPathOfHeader(a: string, b: string, rest: string)
    requires IsIdlPath(a) && IsIdlPath(b)
    ensures IdlHeaderPath(GitHeader + a + " b/" + b + rest) == Some(b)
  {
    var l := GitHeader + a + " b/" + b + rest;
    var e := 13 + |a|;
    assert l[..13] == GitHeader;
    assert l[13..e] == a;
    assert l[e..e + 3] == " b/";
    assert l[e + 3..e + 3 + |b|] == b;
    IdlHeaderPathComplete(l, e, b);
  }

  /** Python's `os.path.join(root, p)` for a relative `p`. */
  function JoinPath(root: string, p: string): (r: string)
    ensures root == "" ==> r == p
    ensures r == root + p || r == root + "/" + p
    ensures |root| > 0 && root[|root| - 1] != '/' ==> r == root + "/" + p
  {
    if root == "" || root[|root| - 1] == '/' then root + p else root + "/" + p
  }

  /** extractIDLFilePath: the header's second path, under the repository
      root. */
  function ExtractIDLFilePath(l: string, root: string): (r: Option<string>)
    ensures r.Some? <==> IdlHeaderPath(l).Some?
    ensures r.Some? ==> r.value == JoinPath(root, IdlHeaderPath(l).value)
  {
    match IdlHeaderPath(l)
    case None => None
    case Some(p) => Some(JoinPath(root, p))
  }

  /** A match of `[a-zA-Z0-9]+\.idl` in an `.idl` path can start at `i`. */
  predicate NameMatchAt(p: string, i: int) {
    0 <= i < |p| - 4 && p[|p| - 4..] == ".idl" && AllAlnum(p[i..|p| - 4])
  }

  /** The last component of an `.idl` path: what the leftmost match of
      `([a-zA-Z0-9]+\.idl)` in it is. */
  function BaseName(p: string): (r: string)
    requires IsIdlPath(p)
    ensures |r| >= 5 && r[|r| - 4..] == ".idl" && AllAlnum(r[..|r| - 4])
    ensures '/' !in r
    ensures exists dir :: p == dir + "/" + r
    ensures forall i :: NameMatchAt(p, i) ==> |p| - |r| <= i
  {
    var k := LastIndexOf(p, '/').value;
    LastComponent(p, k);
    p[k + 1..]
  }

  lemma LastComponent(p: string, k: nat)
    requires IsIdlPath(p) && LastIndexOf(p, '/') == Some(k)
    ensures var r := p[k + 1..];
            && |r| >= 5 && r[|r| - 4..] == ".idl" && AllAlnum(r[..|r| - 4])
            && '/' !in r
            && p == p[..k] + "/" + r
            && (forall i :: NameMatchAt(p, i) ==> k + 1 <= i)
  {
    IdlPathChars(p);
    LastSlashBeforeName(p, k);
    NameMatchAfterLastSlash(p, k);
    var r := p[k + 1..];
    var name := r[..|r| - 4];
    assert forall x :: 0 <= x < |name| ==> name[x] == p[k + 1 + x];
    assert r[|r| - 4..] == p[|p| - 4..];
    assert forall x :: 0 <= x < |r| ==> r[x] == p[k + 1 + x];
  }

  /** The characters of an `.idl` path: alphanumerics and at least one
      `/` before the extension, an alphanumeric just before it. */
  lemma IdlPathChars(p: string)
    requires IsIdlPath(p)
    ensures |p| >= 7
    ensures forall y :: 0 <= y < |p| - 4 ==> IsAlnum(p[y]) || p[y] == '/'
    ensures IsAlnum(p[|p| - 5])
    ensures exists x :: 0 <= x < |p| - 4 && p[x] == '/'
    ensures forall y :: |p| - 4 <= y < |p| ==> p[y] != '/'
  {
    var b := p[..|p| - 4];
    assert forall y :: 0 <= y < |b| ==> b[y] == p[y];
    var x :| 0 <= x < |b| && b[x] == '/';
    assert p[x] == '/';
    var e := p[|p| - 4..];
    assert e == ".idl";
    assert forall y :: |p| - 4 <= y < |p| ==> p[y] == e[y - (|p| - 4)];
  }

  /** The last `/` of an `.idl` path comes before a non-empty run of
      alphanumerics that ends at `.idl`. */
  lemma LastSlashBeforeName(p: string, k: nat)
    requires |p| >= 7 && LastIndexOf(p, '/') == Some(k)
    requires forall y :: 0 <= y < |p| - 4 ==> IsAlnum(p[y]) || p[y] == '/'
    requires IsAlnum(p[|p| - 5])
    requires forall y :: |p| - 4 <= y < |p| ==> p[y] != '/'
    ensures k < |p| - 5
    ensures forall x :: k < x < |p| - 4 ==> IsAlnum(p[x])
  {
    assert p[k] == '/';
  }

  /** A `name.idl` match cannot start at or before the last `/`. */
  lemma NameMatchAfterLastSlash(p: string, k: nat)
    requires LastIndexOf(p, '/') == Some(k) && k < |p| - 4
    ensures forall i :: NameMatchAt(p, i) ==> k + 1 <= i
  {
    forall i | NameMatchAt(p, i)
      ensures k + 1 <= i
    {
      forall x | i <= x < |p| - 4
        ensures p[x] != '/'
      {
        assert p[i..|p| - 4][x - i] == p[x];
      }
    }
  }

  /** extractIDLFileName: the file name of the header's second path, or
      `None` when the line is not an IDL header. */
  function ExtractIDLFileName(l: string): (r: Option<string>)
    ensures r.Some? <==> IdlHeaderPath(l).Some?
    ensures r.Some? ==> r.value != "" && exists dir :: IdlHeaderPath(l).value == dir + "/" + r.value
  {
    match ExtractIDLFilePath(l, "")
    case None => None
    case Some(p) => Some(BaseName(p))
  }

  /** isStartOfIDLFile */
  predicate IsStartOfIDLFile(l: string) {
    ExtractIDLFileName(l).Some?
  }

  /** What `^diff --git a/([a-zA-Z0-9]+/)+([a-zA-Z0-9]+\.[a-zA-Z0-9])+`
      matches: the header start, a directory path ending at `e`, a dot and
      an alphanumeric character. */
  predicate NewFileHeaderAt(l: string, e: int) {
    GitHeader <= l && 13 <= e && e + 1 < |l| && IsDirPath(l[13..e]) && l[e] == '.' && IsAlnum(l[e + 1])
  }

  /** isLineStartOfNewFile */
  function IsLineStartOfNewFile(l: string): (r: bool)
    ensures r <==> exists e :: NewFileHeaderAt(l, e)
  {
    if GitHeader <= l then
      var e := PathRunEnd(l, 13);
      NewFileHeaderAtRunEnd(l);
      NewFileHeaderAt(l, e)
    else false
  }

  /** A new-file header can only end its directory path where the run of
      path characters ends. */
  lemma NewFileHeaderAtRunEnd(l: string)
    requires GitHeader <= l
    ensures forall e :: NewFileHeaderAt(l, e) ==> e == PathRunEnd(l, 13)
  {
    forall e | NewFileHeaderAt(l, e)
      ensures e == PathRunEnd(l, 13)
    {
      var b := l[13..e];
      PathBodyEndsAtRunEnd(l, 13, b);
    }
  }

  /** Every IDL header is also the start of a new file. */
  lemma IdlHeaderStartsNewFile(l: string)
    requires IsStartOfIDLFile(l)
    ensures IsLineStartOfNewFile(l)
  {
    var p := IdlHeaderPath(l).value;
    var e :| IdlHeaderAt(l, e, p);
    IdlPathIsNewFilePath(l, e, p);
  }

  lemma IdlPathIsNewFilePath(l: string, e: int, p: string)
    requires IdlHeaderAt(l, e, p)
    ensures NewFileHeaderAt(l, e - 4)
  {
    var a := l[13..e];
    assert |a| == e - 13;
    assert forall x :: 0 <= x < |a| ==> a[x] == l[13 + x];
    assert l[13..e - 4] == a[..|a| - 4];
    assert l[e - 4] == a[|a| - 4];
    assert l[e - 3] == a[|a| - 3];
  }

  /** doesLineSignifyCreation */
  predicate SignifiesCreation(l: string) {
    "--- /dev/null" <= l
  }

  /** doesLineSignifyDeletion */
  predicate SignifiesDeletion(l: string) {
    "+++ /dev/null" <= l
  }

  /** What `^(\s)*[\+\-](\s)+const(\s)+` matches on a change line: the
      marker, whitespace up to `e`, `const`, and whitespace or the end of
      the line. */
  predicate ConstAt(l: string, e: int) {
    1 < e && e + 5 <= |l| && SpacesBetween(l, 1, e) && l[e..e + 5] == "const" && (e + 5 == |l| || IsSpace(l[e + 5]))
  }

  /** isLineConstantExpression */
  function IsLineConstantExpression(l: string): (r: bool)
    ensures r <==> IsLineChange(l) && exists e :: ConstAt(l, e)
  {
    if !IsLineChange(l) then false
    else
      var e := SkipSpaces(l, 1);
      TokenAfterSpacesIsFirst(l, "const", e);
      ConstAt(l, e)
  }

  /** A token that does not start with whitespace and follows only
      whitespace after the marker must start where the whitespace run
      ends. */
  lemma TokenAfterSpacesIsFirst(l: string, tok: string, e: nat)
    requires 1 <= |l| && e == SkipSpaces(l, 1)
    requires |tok| > 0 && !IsSpace(tok[0])
    ensures SpacesBetween(l, 1, e)
    ensures forall x :: SpacesBetween(l, 1, x) && Occurs(l, tok, x) ==> x == e
  {
    SkipSpacesBetween(l, 1);
    forall x | SpacesBetween(l, 1, x) && Occurs(l, tok, x)
      ensures x == e
    {
      assert l[x] == l[x..x + |tok|][0];
      MaximalSpacesUnique(l, 1, x);
    }
  }

  /** What `^[\+\-](\s)*\/\/` matches after the marker: whitespace up to
      `e`, then `//`. */
  predicate SlashCommentAt(l: string, e: int) {
    SpacesBetween(l, 1, e) && Occurs(l, "//", e)
  }

  /** The `//` comment test of isLineComment. */
  function IsSlashComment(l: string): (r: bool)
    ensures r <==> IsLineChange(l) && exists e :: SlashCommentAt(l, e)
  {
    if !IsLineChange(l) then false
    else
      var e := SkipSpaces(l, 1);
      TokenAfterSpacesIsFirst(l, "//", e);
      SlashCommentAt(l, e)
  }

  /** What `^[\-](\s)*\}` matches after the marker: whitespace up to `e`,
      then `}`. */
  predicate CloseBraceAt(l: string, e: int) {
    SpacesBetween(l, 1, e) && Occurs(l, "}", e)
  }

  /** isEndOfInterfaceRemoval */
  function IsEndOfInterfaceRemoval(l: string): (r: bool)
    ensures r <==> IsRemovalLine(l) && exists e :: CloseBraceAt(l, e)
  {
    if !IsRemovalLine(l) then false
    else
      var e := SkipSpaces(l, 1);
      TokenAfterSpacesIsFirst(l, "}", e);
      CloseBraceAt(l, e)
  }
}
