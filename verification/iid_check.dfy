/** The checking and reporting stages of `main`: every interface that
    requires a new IID but did not get one is reported together with the
    IDL file its name was last seen in. */
module IidCheck {
  import opened Wrappers
  import opened PatchParser

  /** The checking stage: the interfaces of `required`, in order, whose
      names are not in `revved`. */
  function Unrevved(required: seq<string>, revved: seq<string>): (r: seq<string>)
    ensures forall x :: x in r <==> x in required && x !in revved
    ensures |r| <= |required|
    decreases |required|
  {
    if |required| == 0 then []
    else
      var rest := Unrevved(required[1..], revved);
      assert forall x :: x in required <==> x == required[0] || x in required[1..];
      if required[0] in revved then rest else [required[0]] + rest
  }

  /** The checking stage keeps the order of the list it filters: checking
      a concatenation checks each part in turn. */
  lemma {:induction false} UnrevvedAppend(a: seq<string>, b: seq<string>, revved: seq<string>)
    ensures Unrevved(a + b, revved) == Unrevved(a, revved) + Unrevved(b, revved)
    decreases |a|
  {
    if |a| > 0 {
      assert (a + b)[1..] == a[1..] + b;
      UnrevvedAppend(a[1..], b, revved);
    } else {
      assert a + b == b;
    }
  }

  /** A list without repetitions yields unrevved interfaces without
      repetitions, so no interface is reported twice. */
  lemma {:induction false} UnrevvedNoDup(required: seq<string>, revved: seq<string>)
    requires NoDup(required)
    ensures NoDup(Unrevved(required, revved))
    decreases |required|
  {
    if |required| > 0 {
      var t := required[1..];
      assert NoDup(t) by {
        forall i, j | 0 <= i < j < |t| ensures t[i] != t[j] {
          assert t[i] == required[i + 1] && t[j] == required[j + 1];
        }
      }
      UnrevvedNoDup(t, revved);
      assert required[0] !in t by {
        forall k | 0 <= k < |t| ensures t[k] != required[0] {
          assert t[k] == required[k + 1];
        }
      }
    }
  }

  /** A finding of the reporting stage: an interface that needs a new IID
      and the IDL file it was last seen in. */
  datatype Report = Report(name: string, file: string)

  /** The reporting stage: for each unrevved interface in turn, the file
      its name maps to. The lookup always succeeds because the parser maps
      every name it lists to a file. */
  function Reports(names: seq<string>, nameToFile: map<string, Option<string>>): (r: seq<Report>)
    requires forall x :: x in names ==> x in nameToFile && nameToFile[x].Some?
    ensures |r| == |names|
    ensures forall i :: 0 <= i < |r| ==> r[i].name == names[i] && nameToFile[names[i]] == Some(r[i].file)
    decreases |names|
  {
    if |names| == 0 then []
    else [Report(names[0], nameToFile[names[0]].value)] + Reports(names[1..], nameToFile)
  }

  /** The text of one report. */
  function Message(rep: Report): string {
    "Interface '" + rep.name + "', in file '" + rep.file + "' needs a new IID"
  }

  /** Where the name and the file sit in a message: the name after the
      11-character opening, then a quote, then the file after the
      12-character middle, then the 17-character close. */
  lemma MessageLayout(rep: Report)
    ensures |Message(rep)| == 11 + |rep.name| + 12 + |rep.file| + 17
    ensures Message(rep)[11..11 + |rep.name|] == rep.name
    ensures Message(rep)[11 + |rep.name|] == '\''
    ensures Message(rep)[23 + |rep.name|..23 + |rep.name| + |rep.file|] == rep.file
  {
  }

  /** A message names its report: as long as interface names hold no
      quote, two reports print the same message exactly when they are the
      same report, so no finding is hidden behind another's text. */
  lemma MessageIsInjective(a: Report, b: Report)
    requires '\'' !in a.name && '\'' !in b.name
    ensures Message(a) == Message(b) <==> a == b
  {
    if Message(a) == Message(b) {
      var m := Message(a);
      MessageLayout(a);
      MessageLayout(b);
      assert forall j :: 0 <= j < |a.name| ==> m[11 + j] == a.name[j];
      assert forall j :: 0 <= j < |b.name| ==> m[11 + j] == b.name[j];
      assert |a.name| == |b.name|;
      assert a.name == b.name;
      assert a.file == b.file;
    }
  }

  /** The interfaces a summary lists are mapped to files, as the parser
      guarantees. */
  predicate Mapped(p: PatchSummary) {
    && (forall x :: x in p.required ==> x in p.nameToFile && p.nameToFile[x].Some?)
    && (forall x :: x in p.revved ==> x in p.nameToFile && p.nameToFile[x].Some?)
  }

  /** The checking and reporting stages on a parsed patch. An interface is
      reported exactly when it requires a new IID and its IID line was not
      added, once each, with the file its name was last seen in. */
  function CheckSummary(p: PatchSummary): (r: seq<Report>)
    requires Mapped(p) && NoDup(p.required)
    ensures forall i :: 0 <= i < |r| ==>
              r[i].name in p.required && r[i].name !in p.revved && p.nameToFile[r[i].name] == Some(r[i].file)
    ensures forall x :: x in p.required && x !in p.revved ==> exists i :: 0 <= i < |r| && r[i].name == x
    ensures forall i, j :: 0 <= i < j < |r| ==> r[i].name != r[j].name
  {
    var names := Unrevved(p.required, p.revved);
    UnrevvedNoDup(p.required, p.revved);
    var reps := Reports(names, p.nameToFile);
    assert forall x :: x in names ==> exists i :: 0 <= i < |reps| && reps[i].name == x by {
      forall x | x in names ensures exists i :: 0 <= i < |reps| && reps[i].name == x {
        var i :| 0 <= i < |names| && names[i] == x;
        assert reps[i].name == x;
      }
    }
    reps
  }

  /** A summary in which every interface that requires a new IID had its
      IID line added yields no report. */
  lemma AllRevvedReportsNothing(p: PatchSummary)
    requires Mapped(p) && NoDup(p.required)
    requires forall x :: x in p.required ==> x in p.revved
    ensures CheckSummary(p) == []
  {
    var u := Unrevved(p.required, p.revved);
    assert forall k :: 0 <= k < |u| ==> u[k] in u;
  }

  /** `main` after the descriptor registry is set up: parse the patch, then
      check and report; a parse error escapes unchanged. */
  function CheckPatch(env: Env, lines: seq<string>): (r: Result<seq<Report>, ParseError>)
    ensures r.Err? <==> ParsePatch(env, lines).Err?
    ensures r.Err? ==> r.error == ParsePatch(env, lines).error
    ensures r.Ok? ==> Mapped(ParsePatch(env, lines).value) && NoDup(ParsePatch(env, lines).value.required)
    ensures r.Ok? ==> r.value == CheckSummary(ParsePatch(env, lines).value)
  {
    match ParsePatch(env, lines)
    case Err(e) => Err(e)
    case Ok(p) => Ok(CheckSummary(p))
  }
}
