/** Cleaning up after a failed task set (`archive/glob_fail-task-set.py`): the
    failure commit message, the choice of changed files to carry back to the
    main branch, the branch that may be deleted, and the message of the
    commit that restores the carried files. Git, the temporary directory and
    the file moves are not modelled. */
module FailTaskSet {
  import opened Text
  import opened TaskBranch

  /** U+274C CROSS MARK. */
  const CrossMark := "\U{274C}"

  /** `format_fail_commit_message(branch_name, reason)`. */
  function FailCommitMessage(branch: string, reason: string): string
  {
    match Parse(branch)
    case Some(b) => CrossMark + " " + PostTaskTag(b) + ": Task failed: " + reason
    case None => CrossMark + " Cleanup after task failure: " + reason
  }

  /** A task-set branch yields the message that names its OG and task-set
      numbers and its attempt ("1" for a branch without an attempt suffix). */
  lemma FailMessageOfTaskBranch(b: BranchId, reason: string)
    requires WellFormed(b)
    ensures FailCommitMessage(Render(b), reason) == CrossMark + " " + PostTaskTag(b) + ": Task failed: " + reason
  {
    ParseRender(b);
  }

  /** A name that renders no task-set branch yields the cleanup message. */
  lemma FailMessageOfOtherBranch(branch: string, reason: string)
    requires forall b :: WellFormed(b) ==> Render(b) != branch
    ensures FailCommitMessage(branch, reason) == CrossMark + " Cleanup after task failure: " + reason
  {
  }

  // ----------------------------------------------------------- needed files

  /** `os.path.basename(path)` with `/` as the separator: the text after the
      last `/`. */
  function Basename(path: string): string
  {
    if path == [] || path[|path| - 1] == '/' then "" else Basename(path[..|path| - 1]) + [path[|path| - 1]]
  }

  /** The basename is the end of the path after its last `/`: it holds no
      `/`, and the character before it, if any, is a `/`. */
  lemma BasenameShape(path: string)
    ensures '/' !in Basename(path)
    ensures EndsWith(path, Basename(path))
    ensures |Basename(path)| < |path| ==> path[|path| - |Basename(path)| - 1] == '/'
  {
    BasenameNoSlash(path);
    BasenameSuffix(path);
  }

  lemma {:induction false} BasenameNoSlash(path: string)
    ensures forall i :: 0 <= i < |Basename(path)| ==> Basename(path)[i] != '/'
  {
    if path != [] && path[|path| - 1] != '/' {
      BasenameNoSlash(path[..|path| - 1]);
    }
  }

  lemma {:induction false} BasenameSuffix(path: string)
    ensures |Basename(path)| <= |path| && path[|path| - |Basename(path)|..] == Basename(path)
    ensures |Basename(path)| < |path| ==> path[|path| - |Basename(path)| - 1] == '/'
  {
    if path != [] && path[|path| - 1] != '/' {
      var init, last := path[..|path| - 1], path[|path| - 1];
      BasenameSuffix(init);
      var n := Basename(init);
      assert path[|path| - |n| - 1..] == n + [last] by {
        InitLast(path);
        assert path[|path| - |n| - 1..] == init[|init| - |n|..] + [last];
      }
      if |n| + 1 < |path| {
        assert path[|path| - |n| - 2] == init[|init| - |n| - 1];
      }
    }
  }

  /** `re.match(r'^_(\d{2})_OG_.*\.md$', name)`: `_`, exactly two digits,
      `_OG_`, any text without a line feed, `.md`, and the end of the name
      or a final line feed. */
  predicate IsOgGuideName(name: string)
  {
    |name| >= 7 && name[0] == '_' && IsDigit(name[1]) && IsDigit(name[2]) && name[3..7] == "_OG_"
    && ((|name| >= 10 && EndsWith(name, ".md") && '\n' !in name[7..|name| - 3])
        || (|name| >= 11 && EndsWith(name, ".md\n") && '\n' !in name[7..|name| - 4]))
  }

  /** The test inside `filter_needed_files`, applied to one path. */
  predicate IsNeeded(path: string)
  {
    var name := Basename(path);
    EndsWith(name, ".md") && !IsOgGuideName(name)
  }

  /** What one path contributes to the result. */
  function Kept(f: string): seq<string>
  {
    if IsNeeded(f) then [f] else []
  }

  /** The list `filter_needed_files` returns: the needed paths, in order. */
  function NeededFiles(files: seq<string>): seq<string>
  {
    if files == [] then [] else NeededFiles(files[..|files| - 1]) + Kept(files[|files| - 1])
  }

  /** `filter_needed_files(files)`. */
  method FilterNeededFiles(files: seq<string>) returns (needed: seq<string>)
    ensures needed == NeededFiles(files)
  {
    needed := [];
    var i := 0;
    while i < |files|
      invariant 0 <= i <= |files|
      invariant needed == NeededFiles(files[..i])
    {
      var f := files[i];
      if IsNeeded(f) {
        needed := needed + [f];
      }
      NeededStep(files, i);
      i := i + 1;
    }
    assert files[..i] == files;
  }

  lemma NeededStep(files: seq<string>, i: nat)
    requires i < |files|
    ensures NeededFiles(files[..i + 1]) == NeededFiles(files[..i]) + Kept(files[i])
  {
    var p := files[..i + 1];
    assert p[..|p| - 1] == files[..i];
    assert p[|p| - 1] == files[i];
  }

  /** A path is kept exactly when it is in the input and passes the test. */
  lemma {:induction false} NeededIff(files: seq<string>, f: string)
    ensures f in NeededFiles(files) <==> f in files && IsNeeded(f)
  {
    if files != [] {
      var init, last := files[..|files| - 1], files[|files| - 1];
      NeededIff(init, f);
      assert files == init + [last];
      assert f in Kept(last) <==> f == last && IsNeeded(f);
    }
  }

  /** The result keeps input order: the needed files of the changed list
      (modified files, then untracked files) are the needed modified files
      followed by the needed untracked files. */
  lemma {:induction false} NeededAppend(modified: seq<string>, untracked: seq<string>)
    ensures NeededFiles(modified + untracked) == NeededFiles(modified) + NeededFiles(untracked)
  {
    if untracked != [] {
      var init := untracked[..|untracked| - 1];
      InitOfAppend(modified, untracked);
      NeededAppend(modified, init);
      AppendAssoc(NeededFiles(modified), NeededFiles(init), Kept(untracked[|untracked| - 1]));
    } else {
      assert modified + untracked == modified;
    }
  }

  /** The filter never keeps a file whose name does not end in `.md`. */
  lemma NeededAreMarkdown(files: seq<string>)
    ensures forall f :: f in NeededFiles(files) ==> EndsWith(Basename(f), ".md")
  {
    forall f | f in NeededFiles(files) ensures EndsWith(Basename(f), ".md") {
      NeededIff(files, f);
    }
  }

  /** The basename of `dir/name` is `name` when `name` has no `/`. */
  lemma {:induction false} BasenameAfter(dir: string, name: string)
    requires '/' !in name
    ensures Basename(dir + name) == name || Basename(dir + name) == Basename(dir) + name
    ensures EndsWith(dir, "/") || dir == [] ==> Basename(dir + name) == name
  {
    if name != [] {
      var init, last := name[..|name| - 1], name[|name| - 1];
      InitOfAppend(dir, name);
      assert last != '/';
      BasenameAfter(dir, init);
      assert Basename(dir + name) == Basename(dir + init) + [last];
      InitLast(name);
      AppendAssoc(Basename(dir), init, [last]);
    } else {
      assert dir + name == dir;
      assert dir == [] || EndsWith(dir, "/") ==> Basename(dir) == [];
    }
  }

  /** `_<digits>_OG_<text>.md`, the shape of an OG guide file name. */
  function GuideName(digits: string, text: string): string
  {
    "_" + (digits + ("_OG_" + (text + ".md")))
  }

  lemma GuideNameParts(digits: string, text: string)
    ensures var name := GuideName(digits, text);
      && |name| == |digits| + |text| + 8
      && name[0] == '_' && name[1..|digits| + 1] == digits
      && name[|digits| + 1..|digits| + 5] == "_OG_"
      && name[|digits| + 5..|name| - 3] == text
      && EndsWith(name, ".md")
  {
    var name := GuideName(digits, text);
    var afterDigits := "_OG_" + (text + ".md");
    assert name[1..] == digits + afterDigits;
    assert name[1..|digits| + 1] == digits by {
      assert name[1..|digits| + 1] == name[1..][..|digits|];
    }
    assert name[|digits| + 1..] == afterDigits;
    assert name[|digits| + 1..|digits| + 5] == "_OG_" by {
      assert name[|digits| + 1..|digits| + 5] == afterDigits[..4];
    }
    assert name[|digits| + 5..] == text + ".md" by {
      assert name[|digits| + 5..] == afterDigits[4..];
    }
    assert name[|digits| + 5..|name| - 3] == text;
    assert name[|name| - 3..] == ".md";
  }

  lemma GuideNameNoSlash(digits: string, text: string)
    requires '/' !in digits && '/' !in text
    ensures '/' !in GuideName(digits, text)
  {
    var name := GuideName(digits, text);
    assert name == "_" + digits + "_OG_" + text + ".md";
  }

  /** A guide file with a two-digit number matches the pattern in its
      basename, so it is not carried back, in whichever directory it is. */
  lemma TwoDigitGuideIsSkipped(dir: string, digits: string, text: string)
    requires |digits| == 2 && AllDigits(digits)
    requires '/' !in text && '\n' !in text && (dir == [] || EndsWith(dir, "/"))
    ensures !IsNeeded(dir + GuideName(digits, text))
  {
    GuideNameParts(digits, text);
    GuideNameNoSlash(digits, text);
    BasenameAfter(dir, GuideName(digits, text));
  }

  /** With three digits the pattern fails at the fourth character, so the
      guide file is carried back like any other markdown file. */
  lemma ThreeDigitGuideIsNeeded(dir: string, digits: string, text: string)
    requires |digits| == 3 && AllDigits(digits)
    requires '/' !in text && (dir == [] || EndsWith(dir, "/"))
    ensures IsNeeded(dir + GuideName(digits, text))
  {
    var name := GuideName(digits, text);
    GuideNameParts(digits, text);
    GuideNameNoSlash(digits, text);
    BasenameAfter(dir, name);
    assert name[3] == digits[2];
    assert name[3..7][0] == name[3];
  }

  // ------------------------------------------------------- branch and restore

  /** `current_branch if current_branch != main_branch else None`. */
  function BranchToDelete(current: string, mainBranch: string): (r: Option<string>)
    ensures r.None? <==> current == mainBranch
    ensures r.Some? ==> r.value == current
  {
    if current != mainBranch then Some(current) else None
  }

  /** The message of the commit on the main branch that restores the carried
      files; `preserved` is the number of files that were actually moved. */
  function RestoreCommitMessage(branchToDelete: Option<string>, preserved: nat): string
  {
    var name := if branchToDelete.Some? then branchToDelete.value else "";
    match Parse(name)
    case Some(b) =>
      "OG-" + b.og + " TS-" + b.taskSet + " Attempt-" + AttemptOf(b) + ": " + CrossMark
      + " Failed. [" + NatToString(preserved) + "] PRs preserved."
    case None => CrossMark + " Failed. Generic branch cleanup complete."
  }

  /** Leaving a task-set branch, the restore message names the task set and
      the count of preserved files. */
  lemma RestoreMessageOfTaskBranch(b: BranchId, mainBranch: string, preserved: nat)
    requires WellFormed(b) && Render(b) != mainBranch
    ensures RestoreCommitMessage(BranchToDelete(Render(b), mainBranch), preserved)
      == "OG-" + b.og + " TS-" + b.taskSet + " Attempt-" + AttemptOf(b) + ": " + CrossMark
         + " Failed. [" + NatToString(preserved) + "] PRs preserved."
  {
    ParseRender(b);
  }

  /** Run on the main branch itself, or on any branch outside the naming
      scheme, the restore message is the generic one whatever was preserved. */
  lemma RestoreMessageOffTaskBranch(current: string, mainBranch: string, preserved: nat)
    requires current == mainBranch || forall b :: WellFormed(b) ==> Render(b) != current
    ensures RestoreCommitMessage(BranchToDelete(current, mainBranch), preserved)
      == CrossMark + " Failed. Generic branch cleanup complete."
  {
    if current == mainBranch {
      assert !StartsWith("", "OG-");
    }
  }
}
