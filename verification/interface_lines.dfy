/** Interface names on definition lines (`interface nsIFoo : nsISupports`)
    and on hunk headers (`@@ -14,28 +14,27 @@ interface nsIFoo : nsISupports`).

    extractInterfaceName returns the stripped name group, which may be the
    empty string; every caller only tests it for truthiness or uses it after
    such a test, so the model returns `None` for the empty name. */
module InterfaceLines {
  import opened Wrappers
  import opened Text
  import opened DiffLines

  /** The match of `(\s)*interface(\s)+(.*)(\s)*\:(\s)*(.*)` anchored at `i`
      that the regex engine picks: whitespace up to `a`, the keyword, the
      longest whitespace run up to `s`, and the name group from `s` up to
      the last colon `c` of the line. No other match exists when this one
      does not. */
  predicate InterfaceMatchAt(l: string, i: int, a: int, s: int, c: int) {
    && SpacesBetween(l, i, a) && Occurs(l, "interface", a)
    && a + 9 < s && SpacesBetween(l, a + 9, s)
    && s <= c < |l| && !IsSpace(l[s]) && l[c] == ':'
    && (forall k :: c < k < |l| ==> l[k] != ':')
  }

  /** The match is determined by the line and the anchor. */
  lemma InterfaceMatchUnique(l: string, i: nat, a: int, s: int, c: int)
    requires i <= |l| && InterfaceMatchAt(l, i, a, s, c)
    ensures a == SkipSpaces(l, i) && s == SkipSpaces(l, a + 9) && LastIndexOf(l, ':') == Some(c)
  {
    assert l[a] == l[a..a + 9][0];
    MaximalSpacesUnique(l, i, a);
    MaximalSpacesUnique(l, a + 9, s);
  }

  /** The stripped name group of the interface pattern anchored at `i`, or
      `None` when the pattern does not match there. */
  function InterfaceGroup(l: string, i: nat): (r: Option<string>)
    requires i <= |l|
    ensures r.Some? ==> r.value == "" || !IsSpace(r.value[|r.value| - 1])
  {
    var a := SkipSpaces(l, i);
    if !Occurs(l, "interface", a) then None
    else
      var s := SkipSpaces(l, a + 9);
      match LastIndexOf(l, ':')
      case None => None
      case Some(c) =>
        if s == a + 9 || c < s then None
        else Some(TrimRight(l[s..c]))
  }

  /** InterfaceGroup finds exactly the match the regex engine picks. */
  lemma InterfaceGroupIsMatch(l: string, i: nat)
    requires i <= |l|
    ensures InterfaceGroup(l, i).Some? ==>
              exists a, s, c :: InterfaceMatchAt(l, i, a, s, c) && InterfaceGroup(l, i).value == TrimRight(l[s..c])
    ensures InterfaceGroup(l, i).None? ==> forall a, s, c :: !InterfaceMatchAt(l, i, a, s, c)
  {
    var a := SkipSpaces(l, i);
    SkipSpacesBetween(l, i);
    if InterfaceGroup(l, i).Some? {
      var s := SkipSpaces(l, a + 9);
      SkipSpacesBetween(l, a + 9);
      var c := LastIndexOf(l, ':').value;
      assert InterfaceMatchAt(l, i, a, s, c);
    } else {
      NoInterfaceMatch(l, i);
    }
  }

  /** Any match of the pattern determines the group. */
  lemma InterfaceGroupOfMatch(l: string, i: nat, a: int, s: int, c: int)
    requires i <= |l| && InterfaceMatchAt(l, i, a, s, c)
    ensures InterfaceGroup(l, i) == Some(TrimRight(l[s..c]))
  {
    InterfaceMatchUnique(l, i, a, s, c);
  }

  lemma NoInterfaceMatch(l: string, i: nat)
    requires i <= |l|
    requires var a := SkipSpaces(l, i);
             !Occurs(l, "interface", a)
             || (var s := SkipSpaces(l, a + 9);
                 s == a + 9 || LastIndexOf(l, ':').None? || LastIndexOf(l, ':').value < s)
    ensures forall a, s, c :: !InterfaceMatchAt(l, i, a, s, c)
  {
    forall a, s, c | InterfaceMatchAt(l, i, a, s, c)
      ensures false
    {
      InterfaceMatchUnique(l, i, a, s, c);
    }
  }

  /** Python truthiness of an extracted name: the empty name counts as
      none. */
  function Truthy(o: Option<string>): (r: Option<string>)
    ensures r.Some? <==> o.Some? && o.value != ""
    ensures r.Some? ==> r == o
  {
    if o.Some? && o.value != "" then o else None
  }

  /** The characters of the definition-line prefix `[\+,\-]`: the class
      holds a comma as well as the two markers. */
  predicate IsDefinitionPrefix(c: char) {
    c == '+' || c == ',' || c == '-'
  }

  /** extractInterfaceNameFromDefinitionLine: the name after a `+`, `,` or
      `-` prefix when that yields one, else the name of the unprefixed
      pattern. */
  function DefinitionName(l: string): (r: Option<string>)
    ensures r.Some? ==> r.value != ""
    ensures r.Some? ==> r == InterfaceGroup(l, 0) || (|l| > 0 && IsDefinitionPrefix(l[0]) && r == InterfaceGroup(l, 1))
    ensures |l| > 0 && IsDefinitionPrefix(l[0]) && Truthy(InterfaceGroup(l, 1)).Some? ==> r == InterfaceGroup(l, 1)
  {
    var prefixed := if |l| > 0 && IsDefinitionPrefix(l[0]) then Truthy(InterfaceGroup(l, 1)) else None;
    if prefixed.Some? then prefixed else Truthy(InterfaceGroup(l, 0))
  }

  /** isInterfaceDefinitionLine: a name is found and the line, right
      stripped, does not end with `;` (that would be a forward
      declaration). */
  predicate IsInterfaceDefinitionLine(l: string) {
    var t := TrimRight(l);
    DefinitionName(l).Some? && !(|t| == 0 || t[|t| - 1] == ';')
  }

  /** A name as written in a declaration: non-empty, with no colon and no
      whitespace at either end. */
  predicate IsDeclaredName(n: string) {
    |n| > 0 && !IsSpace(n[0]) && !IsSpace(n[|n| - 1]) && ':' !in n
  }

  /** The declaration `interface n : base` written after `pre` yields `n`
      from the pattern anchored where `pre` ends. */
  lemma InterfaceGroupOfDeclaration(pre: string, n: string, base: string)
    requires IsDeclaredName(n) && ':' !in base
    ensures InterfaceGroup(pre + "interface " + n + " : " + base, |pre|) == Some(n)
  {
    var l := pre + "interface " + n + " : " + base;
    var s := |pre| + 10;
    var c := s + |n| + 1;
    DeclarationMatches(pre, n, base);
    assert InterfaceMatchAt(l, |pre|, |pre|, s, c) && l[s..c] == n + " ";
    InterfaceGroupOfMatch(l, |pre|, |pre|, s, c);
    TrimRightOfPadded(n, " ");
    assert InterfaceGroup(l, |pre|) == Some(TrimRight(n + " "));
  }

  /** Where the pieces of a declaration sit in the line. */
  lemma DeclarationMatches(pre: string, n: string, base: string)
    requires IsDeclaredName(n) && ':' !in base
    ensures var l := pre + "interface " + n + " : " + base;
            var s := |pre| + 10;
            InterfaceMatchAt(l, |pre|, |pre|, s, s + |n| + 1) && l[s..s + |n| + 1] == n + " "
  {
    var t := "interface " + n + " : " + base;
    var l := pre + t;
    assert l == pre + "interface " + n + " : " + base;
    var a := |pre|;
    var s := a + 10;
    var c := s + |n| + 1;
    assert l[a..] == t;
    assert l[a..a + 9] == t[..9] == "interface";
    assert l[a..a] == [];
    assert l[a + 9..s] == [' '];
    assert l[s..c] == n + " " by {
      assert t[10..11 + |n|] == n + " ";
      assert l[s..c] == t[10..11 + |n|];
    }
    assert l[s] == n[0];
    DeclarationTail(pre + "interface " + n, base);
    assert l == (pre + "interface " + n) + " : " + base;
  }

  /** After the colon of ` : base` only the colon-free base follows. */
  lemma DeclarationTail(head: string, base: string)
    requires ':' !in base
    ensures var l := head + " : " + base;
            l[|head| + 1] == ':' && forall k :: |head| + 1 < k < |l| ==> l[k] != ':'
  {
    var l := head + " : " + base;
    forall k | |head| + 1 < k < |l|
      ensures l[k] != ':'
    {
      if k > |head| + 2 {
        assert l[k] == base[k - |head| - 3];
      }
    }
  }

  lemma TrimRightOfPadded(n: string, ws: string)
    requires |n| > 0 && !IsSpace(n[|n| - 1]) && AllSpace(ws)
    ensures TrimRight(n + ws) == n
    decreases |ws|
  {
    if |ws| > 0 {
      assert (n + ws)[..|n + ws| - 1] == n + ws[..|ws| - 1];
      TrimRightOfPadded(n, ws[..|ws| - 1]);
    } else {
      assert n + ws == n;
    }
  }

  /** A changed declaration line `+interface n : base` yields `n` and is a
      definition line unless it ends with `;`. */
  lemma DefinitionOfChangedDeclaration(m: char, n: string, base: string)
    requires IsDefinitionPrefix(m) && IsDeclaredName(n) && ':' !in base
    requires |base| > 0 && !IsSpace(base[|base| - 1]) && base[|base| - 1] != ';'
    ensures DefinitionName([m] + "interface " + n + " : " + base) == Some(n)
    ensures IsInterfaceDefinitionLine([m] + "interface " + n + " : " + base)
  {
    var l := [m] + "interface " + n + " : " + base;
    InterfaceGroupOfDeclaration([m], n, base);
    assert TrimRight(l) == l;
  }

  /** An unchanged declaration line, which the diff prefixes with a space,
      is found by the unprefixed pattern. */
  lemma DefinitionOfUnchangedDeclaration(n: string, base: string)
    requires IsDeclaredName(n) && ':' !in base
    ensures DefinitionName(" interface " + n + " : " + base) == Some(n)
  {
    var l := " interface " + n + " : " + base;
    InterfaceGroupOfDeclaration(" ", n, base);
    assert l == " " + "interface " + n + " : " + base;
    assert InterfaceGroup(l, 1) == Some(n);
    var s0 := SkipSpaces(l, 0);
    assert SkipSpaces(l, 1) == 1;
    assert s0 == 1;
    assert InterfaceGroup(l, 0) == InterfaceGroup(l, 1);
  }

  /** A line that ends with `;` and trailing whitespace is a forward
      declaration, never a definition line. */
  lemma ForwardDeclarationIsNotDefinition(body: string, ws: string)
    requires AllSpace(ws)
    ensures !IsInterfaceDefinitionLine(body + ";" + ws)
  {
    TrimRightOfPadded(body + ";", ws);
  }

  /** A file header is never an interface definition line. */
  lemma FileHeaderIsNotDefinition(l: string)
    requires GitHeader <= l
    ensures !IsInterfaceDefinitionLine(l)
  {
    assert l[0] == 'd';
    assert SkipSpaces(l, 0) == 0;
    assert !Occurs(l, "interface", 0) by {
      assert l[0..9][0] == 'd';
    }
  }

  /** The hunk-header prefix `@@(\s)+(.*)(\s)+@@` of the context pattern can
      end with the `@@` at `m`. */
  predicate ContextCloseAt(l: string, m: int) {
    4 <= m && m + 2 <= |l| && l[..2] == "@@" && IsSpace(l[2]) && IsSpace(l[m - 1]) && l[m..m + 2] == "@@"
  }

  /** Where the context pattern closes its prefix, searching down from
      `m`: the greedy `(.*)` of `@@(\s)+(.*)(\s)+@@` makes the engine try
      the rightmost closing `@@` first and settle on the first one after
      which the interface pattern matches. A result below 4 means that no
      closing `@@` at or before `m` works. */
  function LastContextClose(l: string, m: int): (r: int)
    requires m + 2 <= |l|
    ensures r <= m
    ensures r >= 4 ==> ContextCloseAt(l, r) && InterfaceGroup(l, r + 2).Some?
    decreases m
  {
    if m < 4 then m
    else if ContextCloseAt(l, m) && InterfaceGroup(l, m + 2).Some? then m
    else LastContextClose(l, m - 1)
  }

  /** No closing `@@` above the one chosen lets the interface pattern
      match. */
  lemma {:induction false} LastContextCloseIsRightmost(l: string, m: int, k: int)
    requires m + 2 <= |l|
    requires LastContextClose(l, m) < k <= m && ContextCloseAt(l, k)
    ensures InterfaceGroup(l, k + 2).None?
    decreases m
  {
    if k < m {
      LastContextCloseIsRightmost(l, m - 1, k);
    }
  }

  /** A closing `@@` after which the interface pattern matches, with no
      closing `@@` above it, is the one chosen. */
  lemma {:induction false} LastContextCloseOfOnly(l: string, m: int, k: int)
    requires m + 2 <= |l| && k <= m
    requires ContextCloseAt(l, k) && InterfaceGroup(l, k + 2).Some?
    requires forall j :: k < j <= m ==> !ContextCloseAt(l, j)
    ensures LastContextClose(l, m) == k
    decreases m
  {
    if k < m {
      LastContextCloseOfOnly(l, m - 1, k);
    }
  }

  /** extractInterfaceNameFromContextLine */
  function ContextName(l: string): (r: Option<string>)
    ensures r.Some? ==> r.value != ""
  {
    if |l| < 6 then None
    else
      var m := LastContextClose(l, |l| - 2);
      if m < 4 then None else Truthy(InterfaceGroup(l, m + 2))
  }

  /** isInterfaceContextLine */
  predicate IsInterfaceContextLine(l: string) {
    ContextName(l).Some?
  }

  /** A hunk header followed by a declaration yields the declared name,
      whatever the line ranges say. */
  lemma ContextNameOfHunkHeader(ranges: string, n: string, base: string)
    requires IsDeclaredName(n) && ':' !in base && '@' !in n && '@' !in base
    ensures ContextName("@@ " + ranges + " @@ interface " + n + " : " + base) == Some(n)
  {
    var pre := "@@ " + ranges + " @@ ";
    var l := pre + "interface " + n + " : " + base;
    assert l == "@@ " + ranges + " @@ interface " + n + " : " + base;
    HunkHeaderCloses(ranges, n, base);
    InterfaceGroupOfDeclaration(pre, n, base);
    ContextNameAtOnlyClose(l, |pre| - 3, n);
  }

  /** The name after the only closing `@@` is the context name. */
  lemma ContextNameAtOnlyClose(l: string, m: int, n: string)
    requires ContextCloseAt(l, m) && InterfaceGroup(l, m + 2) == Some(n) && n != ""
    requires forall k :: m < k <= |l| - 2 ==> !ContextCloseAt(l, k)
    ensures ContextName(l) == Some(n)
  {
    LastContextCloseOfOnly(l, |l| - 2, m);
    ContextNameAfter(l, m);
  }

  /** ContextName once the chosen closing `@@` is known. */
  lemma ContextNameAfter(l: string, m: int)
    requires |l| >= 6 && LastContextClose(l, |l| - 2) == m
    ensures ContextName(l) == (if m < 4 then None else Truthy(InterfaceGroup(l, m + 2)))
  {
  }

  /** In a hunk header followed by a declaration free of `@`, the `@@`
      before the declaration is the last closing one. */
  lemma HunkHeaderCloses(ranges: string, n: string, base: string)
    requires '@' !in n && '@' !in base
    ensures var pre := "@@ " + ranges + " @@ ";
            var l := pre + "interface " + n + " : " + base;
            ContextCloseAt(l, |pre| - 3) && forall k :: |pre| - 3 < k <= |l| - 2 ==> !ContextCloseAt(l, k)
  {
    var pre := "@@ " + ranges + " @@ ";
    var t := "interface " + n + " : " + base;
    var l := pre + t;
    assert l == pre + "interface " + n + " : " + base;
    var m := |pre| - 3;
    assert l[..2] == "@@" && l[2] == ' ';
    assert l[m - 1] == ' ' && l[m..m + 2] == "@@";
    assert '@' !in t by {
      assert t == "interface " + n + " : " + base;
    }
    forall k | m < k <= |l| - 2
      ensures !ContextCloseAt(l, k)
    {
      if k >= |pre| {
        assert l[k] == t[k - |pre|];
      } else {
        assert l[k] == " "[0] || l[k] == "@ "[k - m - 1];
      }
    }
  }
}
