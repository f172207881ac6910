/**
 * The calendar-version bump of scripts/bump_version.py: the `version = ` line of the `[project]`
 * section of pyproject.toml is rewritten to carry a timestamp. The file's lines and the stamp are
 * inputs; the rewritten text, or the exit message, is the result.
 */
module BumpVersion {
  import opened Wrappers
  import opened Text

  const ProjectHeader := "[project]"
  const VersionPrefix := "version = "
  const NotFound := "Could not find [project] version in pyproject.toml"

  /** `version = "<stamp>"` */
  function VersionLine(stamp: string): string
  {
    VersionPrefix + "\"" + stamp + "\""
  }

  /** One line's effect on the `in_project` flag when it is not replaced. */
  function Step(inProject: bool, line: string): bool
  {
    if Strip(line) == ProjectHeader then true
    else if inProject && StartsWith(line, "[") && Strip(line) != ProjectHeader then false
    else inProject
  }

  /** The `in_project` flag after the given lines. */
  function InProject(lines: seq<string>): bool
  {
    if lines == [] then false else Step(InProject(lines[..|lines| - 1]), lines[|lines| - 1])
  }

  /** The loop rewrites a line when it is no header, the section is open after it, and it is a version line. */
  predicate Rewrites(inProject: bool, line: string)
  {
    Strip(line) != ProjectHeader && Step(inProject, line) && StartsWith(Strip(line), VersionPrefix)
  }

  predicate RewritesAt(lines: seq<string>, i: nat)
    requires i < |lines|
  {
    Rewrites(InProject(lines[..i]), lines[i])
  }

  /** The first line from `i` on that the loop rewrites. */
  function TargetFrom(lines: seq<string>, i: nat): (r: Option<nat>)
    requires i <= |lines|
    ensures r.Some? ==> i <= r.value < |lines| && RewritesAt(lines, r.value)
    ensures r.Some? ==> forall j :: i <= j < r.value ==> !RewritesAt(lines, j)
    ensures r.None? <==> forall j :: i <= j < |lines| ==> !RewritesAt(lines, j)
    decreases |lines| - i
  {
    if i == |lines| then None
    else if RewritesAt(lines, i) then Some(i)
    else TargetFrom(lines, i + 1)
  }

  /** The index of the line `main` rewrites, if any. */
  function Target(lines: seq<string>): Option<nat>
  {
    TargetFrom(lines, 0)
  }

  /** What `main` writes, or the message it exits with. */
  function Bump(lines: seq<string>, stamp: string): Result<string, string>
  {
    match Target(lines)
    case None => Failure(NotFound)
    case Some(t) => Success(Join(lines[t := VersionLine(stamp)], "\n") + "\n")
  }

  /** The flag after one more line. */
  lemma InProjectSnoc(lines: seq<string>, i: nat)
    requires i < |lines|
    ensures InProject(lines[..i + 1]) == Step(InProject(lines[..i]), lines[i])
  {
    assert lines[..i + 1][..i] == lines[..i];
  }

  /** The first rewritable line is the target. */
  lemma TargetIsFirst(lines: seq<string>, i: nat)
    requires i < |lines| && RewritesAt(lines, i)
    requires forall j :: 0 <= j < i ==> !RewritesAt(lines, j)
    ensures Target(lines) == Some(i)
  {
  }

  /** The loop of `main`, over the lines of pyproject.toml. */
  method BumpLines(lines: seq<string>, stamp: string) returns (r: Result<string, string>)
    ensures r == Bump(lines, stamp)
  {
    var out := lines;
    var inProject := false;
    var updated := false;
    for idx := 0 to |out|
      invariant out == lines && !updated
      invariant inProject == InProject(lines[..idx])
      invariant forall j :: 0 <= j < idx ==> !RewritesAt(lines, j)
    {
      var line := out[idx];
      InProjectSnoc(lines, idx);
      if Strip(line) == ProjectHeader {
        inProject := true;
        continue;
      }
      if inProject && StartsWith(line, "[") && Strip(line) != ProjectHeader {
        inProject := false;
      }
      if inProject && StartsWith(Strip(line), VersionPrefix) {
        out := out[idx := VersionLine(stamp)];
        updated := true;
        TargetIsFirst(lines, idx);
        break;
      }
    }
    if !updated {
      assert Target(lines).None?;
      return Failure(NotFound);
    }
    return Success(Join(out, "\n") + "\n");
  }

  // ---- The section --------------------------------------------------------------------

  /** A header line opens the section whatever came before, so it never ends it. */
  lemma HeaderOpens(inProject: bool, line: string)
    requires Strip(line) == ProjectHeader
    ensures Step(inProject, line)
    ensures !Rewrites(inProject, line)
  {
  }

  /**
   * The section is open after `lines[..i]` exactly when some earlier line is the `[project]`
   * header and no line after it starts with `[`.
   */
  lemma {:induction false} InProjectIff(lines: seq<string>, i: nat)
    requires i <= |lines|
    ensures InProject(lines[..i]) <==>
      exists h :: 0 <= h < i && Strip(lines[h]) == ProjectHeader && forall j :: h < j < i ==> !StartsWith(lines[j], "[")
  {
    if i > 0 {
      InProjectIff(lines, i - 1);
      InProjectSnoc(lines, i - 1);
      var line := lines[i - 1];
      if Strip(line) == ProjectHeader {
        HeaderOpensAt(lines, i);
      } else if StartsWith(line, "[") {
        BracketClosesAt(lines, i);
      } else {
        PlainLineCarries(lines, i);
      }
    }
  }

  /** A header as the last line read leaves the section open. */
  lemma HeaderOpensAt(lines: seq<string>, i: nat)
    requires 0 < i <= |lines| && Strip(lines[i - 1]) == ProjectHeader
    ensures exists h :: 0 <= h < i && Strip(lines[h]) == ProjectHeader && forall j :: h < j < i ==> !StartsWith(lines[j], "[")
  {
    var h := i - 1;
    assert Strip(lines[h]) == ProjectHeader;
  }

  /** A `[` line that is no header, read last, leaves no header open. */
  lemma BracketClosesAt(lines: seq<string>, i: nat)
    requires 0 < i <= |lines| && Strip(lines[i - 1]) != ProjectHeader && StartsWith(lines[i - 1], "[")
    ensures !exists h :: 0 <= h < i && Strip(lines[h]) == ProjectHeader && forall j :: h < j < i ==> !StartsWith(lines[j], "[")
  {
    forall h | 0 <= h < i && Strip(lines[h]) == ProjectHeader
      ensures exists j :: h < j < i && StartsWith(lines[j], "[")
    {
      assert h != i - 1;
    }
  }

  /** Any other line, read last, changes nothing about which header is open. */
  lemma PlainLineCarries(lines: seq<string>, i: nat)
    requires 0 < i <= |lines| && Strip(lines[i - 1]) != ProjectHeader && !StartsWith(lines[i - 1], "[")
    ensures (exists h :: 0 <= h < i && Strip(lines[h]) == ProjectHeader && forall j :: h < j < i ==> !StartsWith(lines[j], "["))
      <==> (exists h :: 0 <= h < i - 1 && Strip(lines[h]) == ProjectHeader && forall j :: h < j < i - 1 ==> !StartsWith(lines[j], "["))
  {
    forall h | 0 <= h < i - 1 && Strip(lines[h]) == ProjectHeader && (forall j :: h < j < i - 1 ==> !StartsWith(lines[j], "["))
      ensures forall j :: h < j < i ==> !StartsWith(lines[j], "[")
    {
    }
    forall h | 0 <= h < i && Strip(lines[h]) == ProjectHeader && (forall j :: h < j < i ==> !StartsWith(lines[j], "["))
      ensures h < i - 1
    {
    }
  }

  /**
   * The rewritten line is a version line inside `[project]`: a header precedes it and no line
   * between them starts with `[`. Every earlier line is left alone, version lines included.
   */
  lemma TargetInSection(lines: seq<string>)
    requires Target(lines).Some?
    ensures var t := Target(lines).value;
      && StartsWith(Strip(lines[t]), VersionPrefix) && Strip(lines[t]) != ProjectHeader
      && (exists h :: 0 <= h < t && Strip(lines[h]) == ProjectHeader
            && forall j :: h < j <= t ==> !StartsWith(lines[j], "["))
      && forall j :: 0 <= j < t ==> !RewritesAt(lines, j)
  {
    TargetOpen(lines);
    TargetAfterHeader(lines);
  }

  /** The target is a version line, and the section is open once it is read. */
  lemma TargetOpen(lines: seq<string>)
    requires Target(lines).Some?
    ensures var t := Target(lines).value;
      && StartsWith(Strip(lines[t]), VersionPrefix) && Strip(lines[t]) != ProjectHeader
      && InProject(lines[..t + 1])
  {
    var t := Target(lines).value;
    assert RewritesAt(lines, t);
    InProjectSnoc(lines, t);
  }

  lemma TargetAfterHeader(lines: seq<string>)
    requires Target(lines).Some?
    ensures var t := Target(lines).value;
      exists h :: 0 <= h < t && Strip(lines[h]) == ProjectHeader
        && forall j :: h < j <= t ==> !StartsWith(lines[j], "[")
  {
    TargetOpen(lines);
    HeaderBefore(lines, Target(lines).value);
  }

  /** A non-header line read inside the section has the header before it and no `[` line since. */
  lemma HeaderBefore(lines: seq<string>, t: nat)
    requires t < |lines| && InProject(lines[..t + 1]) && Strip(lines[t]) != ProjectHeader
    ensures exists h ::
      0 <= h < t && Strip(lines[h]) == ProjectHeader && forall j :: h < j <= t ==> !StartsWith(lines[j], "[")
  {
    InProjectIff(lines, t + 1);
    var h :| 0 <= h < t + 1 && Strip(lines[h]) == ProjectHeader && forall j :: h < j < t + 1 ==> !StartsWith(lines[j], "[");
    assert h != t;
  }

  /** A version line outside the section (before any header, or after a `[` line) is never rewritten. */
  lemma OutsideSectionUntouched(lines: seq<string>, i: nat)
    requires i < |lines|
    requires forall h :: 0 <= h <= i && Strip(lines[h]) == ProjectHeader ==> exists j :: h < j <= i && StartsWith(lines[j], "[")
    ensures !RewritesAt(lines, i)
    ensures Target(lines) != Some(i)
  {
    InProjectIff(lines, i + 1);
    assert lines[..i + 1][..i] == lines[..i];
  }

  /** Without a rewritable line the script exits with its message and writes nothing. */
  lemma NoVersionFails(lines: seq<string>, stamp: string)
    ensures Bump(lines, stamp).Failure? <==> forall j :: 0 <= j < |lines| ==> !RewritesAt(lines, j)
    ensures Bump(lines, stamp).Failure? ==> Bump(lines, stamp).error == NotFound
  {
  }

  // ---- The written text ---------------------------------------------------------------

  /** Joining lines without the separator and splitting again gives the lines back. */
  lemma {:induction false} SplitJoin(lines: seq<string>, d: char)
    requires lines != []
    requires forall i :: 0 <= i < |lines| ==> d !in lines[i]
    ensures Split(Join(lines, [d]), d) == lines
  {
    if |lines| == 1 {
      SplitPlain(lines[0], d);
      assert Join(lines, [d]) == lines[0] && [lines[0]] == lines;
    } else {
      var tail := lines[1..];
      var rest := Join(tail, [d]);
      assert Join(lines, [d]) == lines[0] + [d] + rest;
      assert forall i :: 0 <= i < |tail| ==> tail[i] == lines[i + 1];
      SplitJoin(tail, d);
      SplitAfter(lines[0], d, rest);
      assert [lines[0]] + tail == lines;
    }
  }

  /**
   * Splitting the written text at newlines gives the original lines with only the target line
   * replaced by the version line, followed by the empty piece after the final newline.
   */
  lemma BumpOutputLines(lines: seq<string>, stamp: string)
    requires forall i :: 0 <= i < |lines| ==> '\n' !in lines[i]
    requires '\n' !in stamp
    requires Bump(lines, stamp).Success?
    ensures var out := Split(Bump(lines, stamp).value, '\n'); var t := Target(lines).value;
      && |out| == |lines| + 1 && out[|lines|] == ""
      && out[t] == VersionLine(stamp)
      && forall j :: 0 <= j < |lines| && j != t ==> out[j] == lines[j]
  {
    var t := Target(lines).value;
    var written := lines[t := VersionLine(stamp)];
    assert '\n' !in VersionLine(stamp);
    JoinSnoc(written, "\n", "");
    assert Join(written, "\n") + "\n" == Join(written + [""], "\n");
    SplitJoin(written + [""], '\n');
  }

  /** A stamp placed in the example file's `[project]` version line, and only there. */
  lemma ExampleFile(lines: seq<string>, stamp: string)
    requires lines == ["[build-system]", "version = \"0\"", "[project]", "name = \"yaaf\"", "version = \"0.1.0\"", "[tool.x]", "version = \"2\""]
    ensures Target(lines) == Some(4)
  {
    assert Strip(lines[2]) == ProjectHeader;
    assert forall j :: 2 < j <= 4 ==> !StartsWith(lines[j], "[");
    InProjectIff(lines, 5);
    assert lines[..5][..4] == lines[..4];
    assert Strip(lines[4]) == lines[4];
    assert StartsWith(Strip(lines[4]), VersionPrefix);
    assert RewritesAt(lines, 4);
    forall j | 0 <= j < 4 ensures !RewritesAt(lines, j) {
      if j == 1 {
        OutsideSectionUntouched(lines, 1);
      } else {
        assert !StartsWith(Strip(lines[j]), VersionPrefix);
      }
    }
  }
}
