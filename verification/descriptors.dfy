/** The descriptor registry: IDL member attributes such as `[notxpcom]`, each
    flagged as changing binary compatibility or not. The registry is passed
    explicitly instead of living in a process-wide list. */
module Descriptors {
  import opened Wrappers
  import opened Text

  /** An IDLDescriptor. As a datatype value it has no operation that changes
      its token or its flag once constructed. */
  datatype Descriptor = Descriptor(token: string, affectsBinaryCompat: bool)

  /** The four descriptors `main` registers, all flagged. */
  const DefaultRegistry: seq<Descriptor> := [
    Descriptor("implicit_jscontext", true),
    Descriptor("nostdcall", true),
    Descriptor("notxpcom", true),
    Descriptor("optional_argc", true)
  ]

  predicate IsMarker(c: char) {
    c == '+' || c == '-'
  }

  /** Group 3 of `^(\s)*[\+\-](\s)*\[(.*)](.*)`: the text between the `[`
      that follows the diff marker and the last `]` of the line. */
  function AttributeList(l: string): Option<string> {
    var i := SkipSpaces(l, 0);
    if i < |l| && IsMarker(l[i]) then
      var b := SkipSpaces(l, i + 1);
      if b < |l| && l[b] == '[' then
        match LastIndexOf(l, ']')
        case Some(c) => if c > b then Some(l[b + 1..c]) else None
        case None => None
      else None
    else None
  }

  /** The attribute list of a line written as whitespace, a marker,
      whitespace, `[`, the list, `]` and a tail free of `]`. */
  lemma AttributeListOfAnnotatedLine(pre: string, m: char, mid: string, attrs: string, tail: string)
    requires AllSpace(pre) && IsMarker(m) && AllSpace(mid)
    requires ']' !in tail
    ensures AttributeList(pre + [m] + mid + "[" + attrs + "]" + tail) == Some(attrs)
  {
    var l := pre + [m] + mid + "[" + attrs + "]" + tail;
    var i := |pre|;
    var b := |pre| + 1 + |mid|;
    var c := b + 1 + |attrs|;
    assert l[0..i] == pre && l[i] == m && l[i + 1..b] == mid && l[b] == '[';
    assert l[b + 1..c] == attrs && l[c] == ']' && l[c + 1..] == tail;
    MaximalSpacesUnique(l, 0, i);
    MaximalSpacesUnique(l, i + 1, b);
    LastIndexOfUnique(l, ']', c);
  }

  /** isInLine: some comma-separated piece of the attribute list equals the
      token exactly; pieces are not trimmed. */
  predicate IsInLine(d: Descriptor, l: string) {
    match AttributeList(l)
    case None => false
    case Some(a) => d.token in Split(a, ',')
  }

  /** On an annotated line, a descriptor is found exactly when its token is
      one of the listed pieces, spaces included. */
  lemma IsInLineIffListed(d: Descriptor, pre: string, m: char, mid: string, attrs: seq<string>, tail: string)
    requires AllSpace(pre) && IsMarker(m) && AllSpace(mid)
    requires |attrs| > 0 && forall i :: 0 <= i < |attrs| ==> ',' !in attrs[i]
    requires ']' !in tail
    ensures IsInLine(d, pre + [m] + mid + "[" + Join(attrs, ',') + "]" + tail) <==> d.token in attrs
  {
    AttributeListOfAnnotatedLine(pre, m, mid, Join(attrs, ','), tail);
    SplitUnique(attrs, ',');
  }

  /** `[notxpcom, nostdcall]` does not carry `nostdcall`: the second piece is
      " nostdcall". */
  lemma PiecesAreNotTrimmed()
    ensures !IsInLine(Descriptor("nostdcall", true), "+[notxpcom, nostdcall] void f();")
    ensures IsInLine(Descriptor("notxpcom", true), "+[notxpcom, nostdcall] void f();")
  {
    var attrs := ["notxpcom", " nostdcall"];
    assert Join(attrs, ',') == "notxpcom, nostdcall";
    assert "+[notxpcom, nostdcall] void f();" == "" + ['+'] + "" + "[" + Join(attrs, ',') + "]" + " void f();";
    assert forall i :: 0 <= i < |attrs| ==> ',' !in attrs[i];
    IsInLineIffListed(Descriptor("nostdcall", true), "", '+', "", attrs, " void f();");
    IsInLineIffListed(Descriptor("notxpcom", true), "", '+', "", attrs, " void f();");
  }

  /** hasDescriptorsInLine: some registered descriptor is in the line. */
  function HasDescriptorsInLine(reg: seq<Descriptor>, l: string): (r: bool)
    ensures r <==> exists i :: 0 <= i < |reg| && IsInLine(reg[i], l)
    decreases |reg|
  {
    if |reg| == 0 then false
    else if IsInLine(reg[0], l) then true
    else
      var r := HasDescriptorsInLine(reg[1..], l);
      assert forall i :: 1 <= i < |reg| ==> reg[i] == reg[1..][i - 1];
      r
  }

  /** The value the loop at the compatibility check tests: the attribute
      `desc.affectsBinaryCompatibility`, a bound method that is never called.
      A bound method object is always true. */
  predicate BoundMethodTest(d: Descriptor) {
    true
  }

  /** The loop over the registry: it returns true at the first descriptor
      whose test passes, and false when it runs off the end. */
  predicate AnyTestPasses(reg: seq<Descriptor>) {
    exists i :: 0 <= i < |reg| && BoundMethodTest(reg[i])
  }

  /** areDescriptorsInLineAffectingBinaryCompat, as written. */
  function AreDescriptorsInLineAffectingBinaryCompat(reg: seq<Descriptor>, l: string): (r: bool)
    ensures !HasDescriptorsInLine(reg, l) ==> !r
  {
    if !HasDescriptorsInLine(reg, l) then false else AnyTestPasses(reg)
  }

  /** Because the tested value is the uncalled method, the check is the same
      as the presence check, whatever the flags say. */
  lemma AffectingIsPresence(reg: seq<Descriptor>, l: string)
    ensures AreDescriptorsInLineAffectingBinaryCompat(reg, l) == HasDescriptorsInLine(reg, l)
  {
    if HasDescriptorsInLine(reg, l) {
      assert |reg| > 0;
      assert BoundMethodTest(reg[0]);
    }
  }

  /** What the documentation of the check describes: a descriptor present on
      the line is itself flagged as affecting binary compatibility. */
  predicate DocumentedAffecting(reg: seq<Descriptor>, l: string) {
    exists i :: 0 <= i < |reg| && IsInLine(reg[i], l) && reg[i].affectsBinaryCompat
  }

  /** With a registry whose only descriptor is not flagged, the check as
      written still answers true. */
  lemma AsWrittenIgnoresFlags()
    ensures var reg := [Descriptor("x", false)];
            AreDescriptorsInLineAffectingBinaryCompat(reg, "+[x] void f();")
            && !DocumentedAffecting(reg, "+[x] void f();")
  {
    var reg := [Descriptor("x", false)];
    var l := "+[x] void f();";
    assert l == "" + ['+'] + "" + "[" + Join(["x"], ',') + "]" + " void f();";
    IsInLineIffListed(reg[0], "", '+', "", ["x"], " void f();");
    AffectingIsPresence(reg, l);
  }

  /** With the default registry every descriptor is flagged, so the check as
      written agrees with the documented one. */
  lemma DefaultRegistryAgrees(l: string)
    ensures AreDescriptorsInLineAffectingBinaryCompat(DefaultRegistry, l) == DocumentedAffecting(DefaultRegistry, l)
  {
    AffectingIsPresence(DefaultRegistry, l);
  }
}
