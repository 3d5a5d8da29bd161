/**
 * The linter file filter: it reads the output of an `aws s3 sync --dryrun`,
 * copies every file the sync would upload into a staging directory and,
 * for templates, validates each copy.
 */
module LinterFilesFilter {
  import opened Common

  /** The marker that starts a line announcing an upload; it is 17 characters long. */
  const UploadMarker := "(dryrun) upload: "
  /** What separates the local path from the destination in such a line. */
  const Separator := " to "
  /** The exception `str.index` raises when the substring is absent. */
  const SubstringNotFound := Exception("ValueError", "substring not found")

  // ------------------------------------------------------- string helpers

  /** `pat` occurs in `s` at index `j`. */
  predicate OccursAt(s: string, pat: string, j: int) {
    0 <= j && j + |pat| <= |s| && s[j..j + |pat|] == pat
  }

  /** The first index at or after `from` where `pat` occurs in `s`, if any. */
  function IndexFrom(s: string, pat: string, from: nat): (r: Option<nat>)
    ensures r.Some? ==> from <= r.value && OccursAt(s, pat, r.value)
    ensures r.Some? ==> forall j :: from <= j < r.value ==> !OccursAt(s, pat, j)
    ensures r.None? ==> forall j :: from <= j ==> !OccursAt(s, pat, j)
    decreases |s| - from
  {
    if from + |pat| > |s| then None
    else if s[from..from + |pat|] == pat then Some(from)
    else IndexFrom(s, pat, from + 1)
  }

  /** `s.index(pat)`: the first occurrence of `pat` in `s`, or none where Python raises. */
  function IndexOf(s: string, pat: string): (r: Option<nat>)
    ensures r.Some? ==> OccursAt(s, pat, r.value) && forall j :: 0 <= j < r.value ==> !OccursAt(s, pat, j)
    ensures r.None? ==> forall j :: !OccursAt(s, pat, j)
  {
    IndexFrom(s, pat, 0)
  }

  /** Python's slice `s[lo:hi]` for non-negative bounds: both clamped to the length, empty when `hi <= lo`. */
  function PySlice(s: string, lo: nat, hi: nat): (r: string)
    ensures lo <= hi <= |s| ==> r == s[lo..hi]
    ensures hi <= lo ==> r == ""
  {
    var l := if lo <= |s| then lo else |s|;
    var h := if hi <= |s| then hi else |s|;
    if h <= l then "" else s[l..h]
  }

  /** The lines joined back together with newlines. */
  function JoinLines(lines: seq<string>): string
    requires |lines| >= 1
  {
    if |lines| == 1 then lines[0] else lines[0] + "\n" + JoinLines(lines[1..])
  }

  /** `s.split("\n")`: at least one piece, none holding a newline, and joining them gives `s` back. */
  function SplitLines(s: string): (r: seq<string>)
    ensures |r| >= 1
    ensures forall i :: 0 <= i < |r| ==> '\n' !in r[i]
    ensures JoinLines(r) == s
    decreases |s|
  {
    var i := IndexOf(s, "\n");
    if i.None? then
      assert '\n' !in s by {
        forall k | 0 <= k < |s| ensures s[k] != '\n' {
          assert !OccursAt(s, "\n", k);
          assert s[k..k + 1] == [s[k]];
        }
      }
      [s]
    else
      var n := i.value;
      assert '\n' !in s[..n] by {
        forall k | 0 <= k < n ensures s[k] != '\n' {
          assert !OccursAt(s, "\n", k);
          assert s[k..k + 1] == [s[k]];
        }
      }
      assert s[n] == '\n' by { assert s[n..n + 1] == "\n"; }
      var rest := SplitLines(s[n + 1..]);
      assert s == s[..n] + "\n" + s[n + 1..];
      [s[..n]] + rest
  }

  /** Splitting newline-free lines joined with newlines gives the lines back. */
  lemma {:induction false} SplitJoinLines(lines: seq<string>)
    requires |lines| >= 1
    requires forall i :: 0 <= i < |lines| ==> '\n' !in lines[i]
    ensures SplitLines(JoinLines(lines)) == lines
    decreases |lines|
  {
    var s := JoinLines(lines);
    var first := lines[0];
    if |lines| == 1 {
      forall j ensures !OccursAt(s, "\n", j) {
        if 0 <= j < |s| {
          assert s[j..j + 1] == [s[j]];
          assert s[j] in first;
        }
      }
    } else {
      var rest := JoinLines(lines[1..]);
      assert s == first + "\n" + rest;
      forall j | 0 <= j < |first| ensures !OccursAt(s, "\n", j) {
        assert s[j] == first[j];
      }
      assert OccursAt(s, "\n", |first|);
      assert IndexOf(s, "\n") == Some(|first|);
      assert s[..|first|] == first && s[|first| + 1..] == rest;
      SplitJoinLines(lines[1..]);
    }
  }

  // -------------------------------------------------------- one line

  /**
   * The path an upload line names: the text from index 17 (just past the
   * marker) up to the first " to ". Other lines are ignored (`None`); an
   * upload line without " to " raises.
   */
  function ExtractPath(line: string): (r: Result<Option<string>>)
    ensures !(UploadMarker <= line) ==> r == Success(None)
    ensures UploadMarker <= line && IndexOf(line, Separator).None? ==> r == Failure(SubstringNotFound)
    ensures UploadMarker <= line && IndexOf(line, Separator).Some? ==>
      r == Success(Some(PySlice(line, |UploadMarker|, IndexOf(line, Separator).value)))
  {
    if UploadMarker <= line then
      var endChar := IndexOf(line, Separator);
      if endChar.None? then Failure(SubstringNotFound)
      else Success(Some(PySlice(line, 17, endChar.value)))
    else
      Success(None)
  }

  /**
   * Round trip: an upload line built from a path and a destination yields
   * the path back, provided the path does not itself produce an earlier
   * " to " (inside it, or across its ends with the surrounding spaces).
   */
  lemma ExtractPathRoundTrip(p: string, dest: string)
    requires forall j :: 0 <= j <= |p| ==> !OccursAt(" " + p + " to", Separator, j)
    ensures ExtractPath(UploadMarker + p + Separator + dest) == Success(Some(p))
  {
    var line := UploadMarker + p + Separator + dest;
    var t := " " + p + " to";
    assert line[..17] == UploadMarker;
    assert line[16..16 + |t|] == t;
    var e := |UploadMarker| + |p|;
    assert line[e..e + 4] == Separator;
    assert OccursAt(line, Separator, e);
    forall j | 0 <= j < e ensures !OccursAt(line, Separator, j) {
      if j < 16 {
        NoSeparatorInMarker(line, j);
      } else {
        NoSeparatorInSpan(line, t, j);
      }
    }
    assert IndexOf(line, Separator) == Some(e);
    assert line[17..e] == p;
  }

  /** No " to " starts inside "(dryrun) upload:", the marker without its final space. */
  lemma NoSeparatorInMarker(line: string, j: int)
    requires |line| >= 17 && line[..17] == UploadMarker && 0 <= j < 16
    ensures !OccursAt(line, Separator, j)
  {
    assert line[j] == UploadMarker[j] && line[j + 1] == UploadMarker[j + 1];
    if line[j] == ' ' {
      assert j == 8;
    }
  }

  /** A " to " starting inside a span of `line` whose text is `t` is one of `t`'s own. */
  lemma NoSeparatorInSpan(line: string, t: string, j: int)
    requires 16 + |t| <= |line| && line[16..16 + |t|] == t
    requires 16 <= j && j + 4 <= 16 + |t| && !OccursAt(t, Separator, j - 16)
    ensures !OccursAt(line, Separator, j)
  {
    assert line[j..j + 4] == t[j - 16..j - 12];
  }

  /** A path with " to " in it is cut short at that point: "a to b.yaml" is read as "a". */
  lemma PathWithSeparatorIsTruncated(dest: string)
    ensures ExtractPath(UploadMarker + "a to b.yaml" + Separator + dest) == Success(Some("a"))
  {
    assert UploadMarker + "a to b.yaml" + Separator + dest == UploadMarker + "a" + Separator + ("b.yaml" + Separator + dest);
    forall j | 0 <= j <= 1 ensures !OccursAt(" " + "a" + " to", Separator, j) {
      assert " " + "a" + " to" == " a to";
      if j == 0 {
        assert " a to"[0..4][1] == 'a';
      } else {
        assert " a to"[1..5][0] == 'a';
      }
    }
    ExtractPathRoundTrip("a", "b.yaml" + Separator + dest);
  }

  // ------------------------------------------------------ the whole loop

  /** One file-system or validator call. */
  datatype Action =
    | Copy(src: string, dst: string)  // shutil.copy2(src, dst), the directories created first
    | Validate(templateBody: string)  // aws cloudformation validate-template --template-body ...

  /** The calls for one uploaded path: copy it under the base path, then, for templates, validate the copy. */
  function PathActions(dir: string, basePath: string, path: string): (r: seq<Action>)
    ensures |r| >= 1 && r[0] == Copy(path, basePath + "/" + path)
    ensures dir == "templates" ==> r == [r[0], Validate("file://" + (basePath + "/" + path))]
    ensures dir != "templates" ==> r == [r[0]]
  {
    var filePath := basePath + "/" + path;
    if dir == "templates" then [Copy(path, filePath), Validate("file://" + filePath)] else [Copy(path, filePath)]
  }

  /** Every copy goes to the base path joined with its source; every validation checks the copy just made. */
  predicate WellFormed(dir: string, basePath: string, actions: seq<Action>) {
    (forall i :: 0 <= i < |actions| && actions[i].Copy? ==> actions[i].dst == basePath + "/" + actions[i].src)
    && (forall i :: 0 <= i < |actions| && actions[i].Validate? ==>
          dir == "templates" && i > 0 && actions[i - 1].Copy? && actions[i].templateBody == "file://" + actions[i - 1].dst)
    && (dir == "templates" ==> forall i :: 0 <= i < |actions| && actions[i].Copy? ==> i + 1 < |actions| && actions[i + 1].Validate?)
  }

  lemma WellFormedAppend(dir: string, basePath: string, path: string, rest: seq<Action>)
    requires WellFormed(dir, basePath, rest)
    ensures WellFormed(dir, basePath, PathActions(dir, basePath, path) + rest)
  {
    var head := PathActions(dir, basePath, path);
    var all := head + rest;
    forall i | 0 <= i < |all| && all[i].Validate?
      ensures dir == "templates" && i > 0 && all[i - 1].Copy? && all[i].templateBody == "file://" + all[i - 1].dst
    {
      if i >= |head| {
        assert all[i] == rest[i - |head|];
        if i - |head| == 0 {
          assert false;
        }
        assert all[i - 1] == rest[i - |head| - 1];
      }
    }
  }

  /**
   * What handling one line of the dry-run output does: the calls it makes and
   * the exception it raises, if any (an upload line without " to ", or a
   * failing validation).
   */
  function LineResult(line: string, dir: string, basePath: string, validateRaises: string -> Option<Exception>)
    : (seq<Action>, Option<Exception>)
  {
    match ExtractPath(line)
    case Failure(e) => ([], Some(e))
    case Success(None) => ([], None)
    case Success(Some(path)) =>
      (PathActions(dir, basePath, path),
       if dir == "templates" then validateRaises("file://" + (basePath + "/" + path)) else None)
  }

  /**
   * What handling one line does: a line the path extraction rejects raises
   * its error and does nothing; a line that is not an upload does nothing;
   * an upload's path yields its actions, and under "templates" the
   * template's validation decides whether the line raises.
   */
  predicate HandlesLine(line: string, dir: string, basePath: string, validateRaises: string -> Option<Exception>,
                        lineActions: seq<Action>, raised: Option<Exception>)
  {
    && (ExtractPath(line).Failure? ==> lineActions == [] && raised == Some(ExtractPath(line).error))
    && (ExtractPath(line) == Success(None) ==> lineActions == [] && raised.None?)
    && (ExtractPath(line).Success? && ExtractPath(line).value.Some? ==>
          var path := ExtractPath(line).value.value;
          && lineActions == PathActions(dir, basePath, path)
          && (dir == "templates" ==> raised == validateRaises("file://" + (basePath + "/" + path)))
          && (dir != "templates" ==> raised.None?))
  }

  /** Handling a line as `HandlesLine` says yields exactly the line's result, and nothing else does. */
  lemma LineResultByCases(line: string, dir: string, basePath: string, validateRaises: string -> Option<Exception>,
                          lineActions: seq<Action>, raised: Option<Exception>)
    ensures HandlesLine(line, dir, basePath, validateRaises, lineActions, raised)
            <==> (lineActions, raised) == LineResult(line, dir, basePath, validateRaises)
  { }

  /** A loop over lines that handles each with `step` and stops at the first line that raises. */
  function RunLines(lines: seq<string>, step: string -> (seq<Action>, Option<Exception>)): (seq<Action>, Option<Exception>)
    decreases |lines|
  {
    if lines == [] then ([], None)
    else
      var here := step(lines[0]);
      if here.1.Some? then here
      else
        var rest := RunLines(lines[1..], step);
        (here.0 + rest.0, rest.1)
  }

  /** What the loop does with the dry-run lines: the calls made, in order, and the exception that stops it, if any. */
  function ChangeSetRun(lines: seq<string>, dir: string, basePath: string, validateRaises: string -> Option<Exception>)
    : (seq<Action>, Option<Exception>)
  {
    RunLines(lines, line => LineResult(line, dir, basePath, validateRaises))
  }

  /**
   * Whatever the lines and whichever validations fail, the calls made are
   * well formed: every copy goes to the base path joined with its source, and
   * (for "templates" only) every copy is immediately validated.
   */
  lemma {:induction false} ChangeSetRunWellFormed(lines: seq<string>, dir: string, basePath: string,
                                                  validateRaises: string -> Option<Exception>)
    ensures WellFormed(dir, basePath, ChangeSetRun(lines, dir, basePath, validateRaises).0)
    decreases |lines|
  {
    if lines != [] {
      var rest := ChangeSetRun(lines[1..], dir, basePath, validateRaises);
      ChangeSetRunWellFormed(lines[1..], dir, basePath, validateRaises);
      match ExtractPath(lines[0])
      case Failure(_) =>
      case Success(None) =>
        assert [] + rest.0 == rest.0;
      case Success(Some(path)) =>
        WellFormedAppend(dir, basePath, path, rest.0);
        WellFormedAppend(dir, basePath, path, []);
        assert PathActions(dir, basePath, path) + [] == PathActions(dir, basePath, path);
    }
  }

  /**
   * Lines are handled in order, whatever each line does: a run over two
   * batches of lines is the first batch's run followed by the second's, and
   * once a line raises, later lines have no effect.
   */
  lemma {:induction false} RunLinesAppend(a: seq<string>, b: seq<string>, step: string -> (seq<Action>, Option<Exception>))
    ensures RunLines(a, step).1.Some? ==> RunLines(a + b, step) == RunLines(a, step)
    ensures RunLines(a, step).1.None? ==>
      RunLines(a + b, step) == (RunLines(a, step).0 + RunLines(b, step).0, RunLines(b, step).1)
    decreases |a|
  {
    if a == [] {
      assert a + b == b;
      assert [] + RunLines(b, step).0 == RunLines(b, step).0;
    } else {
      assert (a + b)[0] == a[0] && (a + b)[1..] == a[1..] + b;
      if step(a[0]).1.None? {
        RunLinesAppend(a[1..], b, step);
        var head := step(a[0]).0;
        var ra := RunLines(a[1..], step).0;
        var rb := RunLines(b, step).0;
        assert head + (ra + rb) == (head + ra) + rb;
      }
    }
  }

  /**
   * One step of the loop: after `done` for the lines before `i`, handling
   * line `i` either ends the run (it raised) or leaves the run over the
   * remaining lines to follow.
   */
  lemma RunLinesStep(items: seq<string>, i: nat, done: seq<Action>, whole: (seq<Action>, Option<Exception>),
                     step: string -> (seq<Action>, Option<Exception>), lineActions: seq<Action>, raised: Option<Exception>)
    requires i < |items|
    requires whole.0 == done + RunLines(items[i..], step).0 && whole.1 == RunLines(items[i..], step).1
    requires step(items[i]) == (lineActions, raised)
    ensures raised.Some? ==> whole == (done + lineActions, raised)
    ensures raised.None? ==> whole.0 == (done + lineActions) + RunLines(items[i + 1..], step).0
    ensures raised.None? ==> whole.1 == RunLines(items[i + 1..], step).1
  {
    assert items[i..][0] == items[i] && items[i..][1..] == items[i + 1..];
    var rest := RunLines(items[i + 1..], step);
    assert done + (lineActions + rest.0) == (done + lineActions) + rest.0;
  }

  /**
   * The body of `createChangeSets`' loop for one line: an upload line's path
   * is copied under the base path and, for templates, validated; a line that
   * names no path does nothing.
   */
  method HandleLine(line: string, dir: string, basePath: string, validateRaises: string -> Option<Exception>)
    returns (lineActions: seq<Action>, raised: Option<Exception>)
    ensures HandlesLine(line, dir, basePath, validateRaises, lineActions, raised)
  {
    lineActions, raised := [], None;
    match ExtractPath(line) {
      case Failure(e) =>
        raised := Some(e);
      case Success(None) =>
      case Success(Some(path)) =>
        var filePath := basePath + "/" + path;
        if dir == "templates" {
          lineActions := [Copy(path, filePath), Validate("file://" + filePath)];
          raised := validateRaises("file://" + filePath);
        } else {
          lineActions := [Copy(path, filePath)];
        }
    }
  }

  /**
   * `createChangeSets(dir, basePath)`: the dry-run sync's output (or the
   * exception its failing run raises) is split into lines, and each upload
   * line is handled in order until one raises.
   */
  method CreateChangeSets(syncOutput: Result<string>, dir: string, basePath: string,
                          validateRaises: string -> Option<Exception>)
    returns (actions: seq<Action>, raised: Option<Exception>)
    ensures syncOutput.Failure? ==> actions == [] && raised == Some(syncOutput.error)
    ensures syncOutput.Success? ==> (actions, raised) == ChangeSetRun(SplitLines(syncOutput.value), dir, basePath, validateRaises)
  {
    actions, raised := [], None;
    if syncOutput.Failure? {
      raised := Some(syncOutput.error);
      return;
    }
    var items := SplitLines(syncOutput.value);
    ghost var whole := ChangeSetRun(items, dir, basePath, validateRaises);
    assert items[0..] == items;
    assert [] + whole.0 == whole.0;
    var i := 0;
    while i < |items|
      invariant 0 <= i <= |items|
      invariant whole.0 == actions + ChangeSetRun(items[i..], dir, basePath, validateRaises).0
      invariant whole.1 == ChangeSetRun(items[i..], dir, basePath, validateRaises).1
    {
      var lineActions, lineRaised := HandleLine(items[i], dir, basePath, validateRaises);
      LineResultByCases(items[i], dir, basePath, validateRaises, lineActions, lineRaised);
      RunLinesStep(items, i, actions, whole, line => LineResult(line, dir, basePath, validateRaises), lineActions, lineRaised);
      if lineRaised.Some? {
        actions, raised := actions + lineActions, lineRaised;
        return;
      }
      actions := actions + lineActions;
      i := i + 1;
    }
    assert items[|items|..] == [];
    assert actions + [] == actions;
  }


}
