/** Starting a task-set branch (`archive/start-task-set-branch.py` and its
    argparse variant `archive/glob_start-task-set-branch.py`): the argument
    checks, the classification of `git status --porcelain` lines against the
    guide file, the documentation commit and the name of the new branch. The
    git calls are not modelled; the porcelain output arrives as text. */
module StartTaskSet {
  import opened Text
  import opened TaskBranch
  import opened CompleteTaskSet

  // ------------------------------------------------------------- arguments

  /** Python's `int(s)` for an optional sign followed by ASCII digits. */
  function ParseInt(s: string): (r: Option<int>)
    ensures r.Some? <==> IsNumeral(s) || (|s| >= 2 && (s[0] == '+' || s[0] == '-') && IsNumeral(s[1..]))
  {
    if IsNumeral(s) then Some(ParseDigits(s))
    else if |s| >= 2 && s[0] == '+' && IsNumeral(s[1..]) then Some(ParseDigits(s[1..]))
    else if |s| >= 2 && s[0] == '-' && IsNumeral(s[1..]) then Some(0 - ParseDigits(s[1..]))
    else None
  }

  /** Python's `str(i)` (and `f"{i}"`) for an integer. */
  function IntToString(i: int): string
  {
    if i < 0 then "-" + NatToString(-i) else NatToString(i)
  }

  /** `int` reads back every integer `str` writes. */
  lemma ParseIntToString(i: int)
    ensures ParseInt(IntToString(i)) == Some(i)
  {
    if i < 0 {
      var s := "-" + NatToString(-i);
      assert s[1..] == NatToString(-i);
      assert !IsDigit(s[0]);
      ParseNatToString(-i);
    } else {
      ParseNatToString(i);
    }
  }

  datatype StartError =
    | UsageError          // wrong number of arguments
    | AttemptNotInteger   // `int()` rejects the attempt argument
    | OgNotNumeric
    | TaskSetNotNumeric
    | AttemptBelowOne

  datatype Request = Request(ogPath: string, og: string, taskSet: string, attempt: int)

  /** `sys.argv[1:]` of `start-task-set-branch.py`: three or four arguments,
      the attempt defaulting to 1. */
  function ParseArgv(args: seq<string>): Result<Request, StartError>
  {
    if |args| != 3 && |args| != 4 then Err(UsageError)
    else if |args| == 3 then Ok(Request(args[0], args[1], args[2], 1))
    else match ParseInt(args[3])
      case None => Err(AttemptNotInteger)
      case Some(k) => Ok(Request(args[0], args[1], args[2], k))
  }

  /** The arguments are accepted exactly in the two documented shapes, and
      they are read back as given. */
  lemma ParseArgvShapes(path: string, og: string, ts: string, attempt: int, args: seq<string>)
    ensures ParseArgv([path, og, ts]) == Ok(Request(path, og, ts, 1))
    ensures ParseArgv([path, og, ts, IntToString(attempt)]) == Ok(Request(path, og, ts, attempt))
    ensures |args| != 3 && |args| != 4 ==> ParseArgv(args) == Err(UsageError)
  {
    ParseIntToString(attempt);
  }

  /** The number checks, in the order the scripts make them. */
  function Validate(req: Request): (r: Result<Request, StartError>)
    ensures r.Ok? <==> IsNumeral(req.og) && IsNumeral(req.taskSet) && req.attempt >= 1
    ensures r.Ok? ==> r.value == req
    ensures !IsNumeral(req.og) ==> r == Err(OgNotNumeric)
    ensures IsNumeral(req.og) && !IsNumeral(req.taskSet) ==> r == Err(TaskSetNotNumeric)
    ensures IsNumeral(req.og) && IsNumeral(req.taskSet) && req.attempt < 1 ==> r == Err(AttemptBelowOne)
  {
    if !IsNumeral(req.og) then Err(OgNotNumeric)
    else if !IsNumeral(req.taskSet) then Err(TaskSetNotNumeric)
    else if req.attempt < 1 then Err(AttemptBelowOne)
    else Ok(req)
  }

  // ------------------------------------------------------ branch and commit

  /** The new branch: the attempt suffix is added only for a retry. */
  function StartBranchName(og: string, ts: string, attempt: int): string
  {
    if attempt > 1 then "OG-" + og + "_TS-" + ts + "_attempt-" + IntToString(attempt)
    else "OG-" + og + "_TS-" + ts
  }

  /** The branch id a validated start request creates. */
  function StartedId(og: string, ts: string, attempt: nat): BranchId
  {
    BranchId(og, ts, if attempt > 1 then Some(NatToString(attempt)) else None)
  }

  /** The name of a started branch is recognised by the naming scheme, with
      the numbers it was started with; its attempt reads back as `attempt`. */
  lemma StartedBranchParses(og: string, ts: string, attempt: nat)
    requires IsNumeral(og) && IsNumeral(ts) && attempt >= 1
    ensures Parse(StartBranchName(og, ts, attempt)) == Some(StartedId(og, ts, attempt))
    ensures AttemptOf(StartedId(og, ts, attempt)) == NatToString(attempt)
  {
    var b := StartedId(og, ts, attempt);
    assert Parse(StartBranchName(og, ts, attempt)) == Some(b) by {
      StartedIdRenders(og, ts, attempt);
      ParseRender(b);
    }
    assert AttemptOf(b) == NatToString(attempt) by {
      if attempt == 1 {
        assert NatToString(1) == "1";
      }
    }
  }

  lemma StartedIdRenders(og: string, ts: string, attempt: nat)
    requires IsNumeral(og) && IsNumeral(ts) && attempt >= 1
    ensures WellFormed(StartedId(og, ts, attempt))
    ensures StartBranchName(og, ts, attempt) == Render(StartedId(og, ts, attempt))
  {
    var b := StartedId(og, ts, attempt);
    if attempt > 1 {
      var k := NatToString(attempt);
      assert IntToString(attempt) == k;
      assert AttemptSuffix(b.attempt) == "_attempt-" + k;
    } else {
      assert AttemptSuffix(b.attempt) == "";
    }
  }

  /** Every attempt of a task set shares the first attempt's base name, so
      completing any of them cleans up all of them. */
  lemma StartedBranchBase(og: string, ts: string, attempt: nat)
    requires IsNumeral(og) && IsNumeral(ts) && attempt >= 1
    ensures BaseName(StartBranchName(og, ts, attempt)) == StartBranchName(og, ts, 1)
  {
    StartedIdRenders(og, ts, attempt);
    StartedIdRenders(og, ts, 1);
    BaseNameOfRendered(StartedId(og, ts, attempt));
  }

  /** Completing a started branch reports the attempt it was started as. */
  lemma StartedBranchCompletion(og: string, ts: string, attempt: nat, summary: string)
    requires IsNumeral(og) && IsNumeral(ts) && attempt >= 1
    ensures CompleteCommitMessage(StartBranchName(og, ts, attempt), summary)
      == CheckMark + " " + PostTaskTag(StartedId(og, ts, attempt)) + ": Success: " + summary
    ensures PostTaskTag(StartedId(og, ts, attempt)) == "OG-" + og + " post-TS-" + ts + "_attempt-" + NatToString(attempt)
  {
    StartedBranchParses(og, ts, attempt);
  }

  const DocUpdateInfix := ": Doc update before Attempt-"

  /** `f"OG-{og} TS-{ts}: Doc update before Attempt-{attempt}"`. */
  function DocUpdateMessage(og: string, ts: string, attempt: int): string
  {
    "OG-" + (og + (" TS-" + (ts + (DocUpdateInfix + IntToString(attempt)))))
  }

  /** Reads the OG number, the task-set number and the attempt back from a
      documentation commit message; `None` for any other text. */
  function DecodeDocUpdate(m: string): Option<(string, string, int)>
  {
    if StartsWith(m, "OG-") then DecodeOgPart(m[3..]) else None
  }

  function DecodeOgPart(s: string): Option<(string, string, int)>
  {
    var og := LeadingDigits(s);
    var rest := s[|og|..];
    if StartsWith(rest, " TS-") then DecodeTaskSetPart(og, rest[4..]) else None
  }

  function DecodeTaskSetPart(og: string, s: string): Option<(string, string, int)>
  {
    var ts := LeadingDigits(s);
    var tail := s[|ts|..];
    if !StartsWith(tail, DocUpdateInfix) then None
    else match ParseInt(tail[|DocUpdateInfix|..])
      case None => None
      case Some(k) => Some((og, ts, k))
  }

  /** The message of a start request names its numbers and its attempt in a
      form that reads back exactly. */
  lemma DecodeDocUpdateMessage(og: string, ts: string, attempt: int)
    requires IsNumeral(og) && IsNumeral(ts)
    ensures DecodeDocUpdate(DocUpdateMessage(og, ts, attempt)) == Some((og, ts, attempt))
  {
    var afterOg := " TS-" + (ts + (DocUpdateInfix + IntToString(attempt)));
    PrefixThenRest("OG-", og + afterOg);
    DecodeOgPartOf(og, ts, attempt);
  }

  lemma DecodeOgPartOf(og: string, ts: string, attempt: int)
    requires IsNumeral(og) && IsNumeral(ts)
    ensures DecodeOgPart(og + (" TS-" + (ts + (DocUpdateInfix + IntToString(attempt))))) == Some((og, ts, attempt))
  {
    var rest := ts + (DocUpdateInfix + IntToString(attempt));
    LeadingDigitsOf(og, " TS-" + rest);
    PrefixThenRest(og, " TS-" + rest);
    PrefixThenRest(" TS-", rest);
    DecodeTaskSetPartOf(og, ts, attempt);
  }

  lemma DecodeTaskSetPartOf(og: string, ts: string, attempt: int)
    requires IsNumeral(ts)
    ensures DecodeTaskSetPart(og, ts + (DocUpdateInfix + IntToString(attempt))) == Some((og, ts, attempt))
  {
    var tail := DocUpdateInfix + IntToString(attempt);
    LeadingDigitsOf(ts, tail);
    PrefixThenRest(ts, tail);
    PrefixThenRest(DocUpdateInfix, IntToString(attempt));
    ParseIntToString(attempt);
  }

  /** Different start requests leave different documentation commits: the
      message determines the OG number, the task-set number and the attempt. */
  lemma DocUpdateMessageInjective(og1: string, ts1: string, k1: int, og2: string, ts2: string, k2: int)
    requires IsNumeral(og1) && IsNumeral(ts1) && IsNumeral(og2) && IsNumeral(ts2)
    requires DocUpdateMessage(og1, ts1, k1) == DocUpdateMessage(og2, ts2, k2)
    ensures og1 == og2 && ts1 == ts2 && k1 == k2
  {
    DecodeDocUpdateMessage(og1, ts1, k1);
    DecodeDocUpdateMessage(og2, ts2, k2);
  }

  // ------------------------------------------------------------- git status

  /** `status_output.split('\n') if status_output else []`. */
  function StatusLines(output: string): (lines: seq<string>)
    ensures lines == [] <==> output == []
  {
    if output == [] then [] else Split(output, '\n')
  }

  /** Splitting loses nothing: the lines joined with newlines give back the
      output, and no line holds a newline. */
  lemma StatusLinesRejoin(output: string)
    ensures Join(StatusLines(output), '\n') == output
    ensures forall k :: 0 <= k < |StatusLines(output)| ==> '\n' !in StatusLines(output)[k]
  {
    if output != [] {
      JoinSplit(output, '\n');
    }
  }

  /** `line[3:]`: the path of a porcelain line after its two status letters
      and the space; empty for a shorter line. */
  function PathOf(line: string): string
  {
    if |line| >= 3 then line[3..] else ""
  }

  /** The status lines as the scripts compute them: `run_git_command` strips
      the whole output, so the first line also loses its leading spaces. */
  function StatusLinesAsWritten(raw: string): seq<string>
  {
    StatusLines(Strip(raw, IsSpace))
  }

  /** The status lines with only the trailing whitespace removed, which keeps
      the two status columns of every line in place. */
  function PorcelainLines(raw: string): seq<string>
  {
    StatusLines(TrimEnd(raw, IsSpace))
  }

  /** The corrected reading removes only the whitespace at the very end of
      the output: rejoined, its lines followed by that whitespace are the
      output. */
  lemma PorcelainLinesKeepAllButTrailingSpace(raw: string)
    ensures var kept := Join(PorcelainLines(raw), '\n');
      && |kept| <= |raw| && raw == kept + raw[|kept|..]
      && forall i :: |kept| <= i < |raw| ==> IsSpace(raw[i])
  {
    StatusLinesRejoin(TrimEnd(raw, IsSpace));
    TrimEndDropped(raw, IsSpace);
  }

  /** The porcelain output for one file changed only in the work tree:
      a blank index column, the work-tree `status`, a blank and the path. */
  function WorkTreeOnly(status: char, path: string): string
  {
    " " + ([status] + (" " + (path + "\n")))
  }

  /** For such a file, stripping the output as written drops the leading
      blank, so the path read from the line loses its first character; with
      only trailing whitespace removed the path is read whole. */
  lemma StripLosesFirstPathChar(status: char, path: string)
    requires !IsSpace(status) && status != '\n'
    requires path != [] && '\n' !in path && !IsSpace(path[|path| - 1])
    ensures |StatusLinesAsWritten(WorkTreeOnly(status, path))| == 1
    ensures PathOf(StatusLinesAsWritten(WorkTreeOnly(status, path))[0]) == path[1..]
    ensures |PorcelainLines(WorkTreeOnly(status, path))| == 1
    ensures PathOf(PorcelainLines(WorkTreeOnly(status, path))[0]) == path
  {
    AsWrittenLine(status, path);
    CorrectedLine(status, path);
    PathsOfLines(status, path);
  }

  /** `line[3:]` of the line without and with its leading blank. */
  lemma PathsOfLines(status: char, path: string)
    requires path != []
    ensures PathOf([status] + (" " + path)) == path[1..]
    ensures PathOf(" " + ([status] + (" " + path))) == path
  {
    assert [status] + (" " + path) == [status, ' '] + path;
    assert " " + ([status] + (" " + path)) == [' ', status, ' '] + path;
  }

  lemma AsWrittenLine(status: char, path: string)
    requires !IsSpace(status) && status != '\n'
    requires path != [] && '\n' !in path && !IsSpace(path[|path| - 1])
    ensures StatusLinesAsWritten(WorkTreeOnly(status, path)) == [[status] + (" " + path)]
  {
    var line := [status] + (" " + path);
    assert line[|line| - 1] == path[|path| - 1];
    assert '\n' !in line;
    assert WorkTreeOnly(status, path) == [' '] + (line + "\n");
    TrimStartStep(' ', line + "\n", IsSpace);
    TrimEndNewline(line);
    SplitWhole(line, '\n');
  }

  lemma CorrectedLine(status: char, path: string)
    requires !IsSpace(status) && status != '\n'
    requires path != [] && '\n' !in path && !IsSpace(path[|path| - 1])
    ensures PorcelainLines(WorkTreeOnly(status, path)) == [" " + ([status] + (" " + path))]
  {
    var full := " " + ([status] + (" " + path));
    assert full[|full| - 1] == path[|path| - 1];
    assert '\n' !in full;
    assert WorkTreeOnly(status, path) == full + "\n";
    TrimEndNewline(full);
    SplitWhole(full, '\n');
  }

  /** Removing trailing whitespace from a line and its line feed leaves the
      line when it ends in a non-blank character. */
  lemma TrimEndNewline(line: string)
    requires line != [] && !IsSpace(line[|line| - 1])
    ensures TrimEnd(line + "\n", IsSpace) == line
  {
    assert (line + "\n")[..|line|] == line;
  }

  /** For porcelain output made of newline-terminated lines, the last of
      which ends in a non-blank character, the lines are recovered exactly. */
  lemma PorcelainLinesOfOutput(entries: seq<string>)
    requires |entries| >= 1 && forall k :: 0 <= k < |entries| ==> '\n' !in entries[k]
    requires var last := entries[|entries| - 1]; last != [] && !IsSpace(last[|last| - 1])
    ensures PorcelainLines(Join(entries, '\n') + "\n") == entries
  {
    var joined := Join(entries, '\n');
    var last := entries[|entries| - 1];
    JoinEndsWithLast(entries, '\n');
    assert joined[|joined| - 1] == last[|last| - 1];
    TrimEndNewline(joined);
    SplitJoin(entries, '\n');
  }

  predicate NamesPath(lines: seq<string>, path: string)
  {
    exists i :: 0 <= i < |lines| && PathOf(lines[i]) == path
  }

  predicate NamesOther(lines: seq<string>, path: string)
  {
    exists i :: 0 <= i < |lines| && PathOf(lines[i]) != path
  }

  /** The loop that sets `has_og_file` and `has_other_files`. */
  method ClassifyStatus(lines: seq<string>, ogPath: string) returns (hasOg: bool, hasOther: bool)
    ensures hasOg <==> NamesPath(lines, ogPath)
    ensures hasOther <==> NamesOther(lines, ogPath)
  {
    hasOg, hasOther := false, false;
    var i := 0;
    while i < |lines|
      invariant 0 <= i <= |lines|
      invariant hasOg <==> exists j :: 0 <= j < i && PathOf(lines[j]) == ogPath
      invariant hasOther <==> exists j :: 0 <= j < i && PathOf(lines[j]) != ogPath
    {
      var path := PathOf(lines[i]);
      if path == ogPath {
        hasOg := true;
      } else {
        hasOther := true;
      }
      i := i + 1;
    }
  }

  /** Which of the three "Committed ..." notes follows the commit. */
  datatype CommitNote = GuideAndOthers | GuideOnly | OthersOnly

  function NoteFor(hasOg: bool, hasOther: bool): CommitNote
  {
    if hasOg && hasOther then GuideAndOthers
    else if hasOg then GuideOnly
    else OthersOnly
  }

  /** For a non-empty status, the note says whether every, some or none of
      the changed paths is the guide file. */
  lemma NoteMeaning(lines: seq<string>, ogPath: string)
    requires lines != []
    ensures var note := NoteFor(NamesPath(lines, ogPath), NamesOther(lines, ogPath));
      && (note == GuideOnly <==> forall i :: 0 <= i < |lines| ==> PathOf(lines[i]) == ogPath)
      && (note == OthersOnly <==> forall i :: 0 <= i < |lines| ==> PathOf(lines[i]) != ogPath)
      && (note == GuideAndOthers <==> NamesPath(lines, ogPath) && NamesOther(lines, ogPath))
  {
    assert PathOf(lines[0]) == ogPath || PathOf(lines[0]) != ogPath;
  }

  datatype Commit = Commit(message: string, note: CommitNote)

  datatype Plan = Plan(commit: Option<Commit>, branch: string)

  /** The work of `main` after its checks: commit pending changes when the
      status lists any, then name the new branch. */
  method PlanStart(req: Request, porcelain: string) returns (r: Result<Plan, StartError>)
    ensures Validate(req).Err? ==> r == Err(Validate(req).error)
    ensures Validate(req).Ok? ==> r.Ok? && r.value.branch == StartBranchName(req.og, req.taskSet, req.attempt)
    ensures Validate(req).Ok? ==> var lines := PorcelainLines(porcelain);
      && (r.value.commit.Some? <==> lines != [])
      && (r.value.commit.Some? ==> r.value.commit.value == Commit(
            DocUpdateMessage(req.og, req.taskSet, req.attempt),
            NoteFor(NamesPath(lines, req.ogPath), NamesOther(lines, req.ogPath))))
  {
    var checked := Validate(req);
    if checked.Err? {
      return Err(checked.error);
    }
    var lines := PorcelainLines(porcelain);
    var commit: Option<Commit> := None;
    if lines != [] {
      var hasOg, hasOther := ClassifyStatus(lines, req.ogPath);
      commit := Some(Commit(DocUpdateMessage(req.og, req.taskSet, req.attempt), NoteFor(hasOg, hasOther)));
    }
    r := Ok(Plan(commit, StartBranchName(req.og, req.taskSet, req.attempt)));
  }
}
