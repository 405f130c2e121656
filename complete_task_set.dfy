/** Completing a task set (`glob_complete-task-set.py`): the success commit
    message built from the branch name, and the choice of local branches that
    are force-deleted after the merge. The git calls themselves are not
    modelled; the listing of local branches arrives as its lines. */
module CompleteTaskSet {
  import opened Text
  import opened TaskBranch

  /** U+2714 HEAVY CHECK MARK followed by U+FE0F VARIATION SELECTOR-16. */
  const CheckMark := "\U{2714}\U{FE0F}"

  /** `format_complete_commit_message(branch_name, summary)`. */
  function CompleteCommitMessage(branch: string, summary: string): string
  {
    match Parse(branch)
    case Some(b) => CheckMark + " " + PostTaskTag(b) + ": Success: " + summary
    case None => CheckMark + " Success: " + summary
  }

  /** A task-set branch yields the message that names its OG and task-set
      numbers and its attempt ("1" for a branch without an attempt suffix). */
  lemma CompleteMessageOfTaskBranch(b: BranchId, summary: string)
    requires WellFormed(b)
    ensures CompleteCommitMessage(Render(b), summary) == CheckMark + " " + PostTaskTag(b) + ": Success: " + summary
  {
    ParseRender(b);
  }

  /** A name that renders no task-set branch yields the plain message. */
  lemma CompleteMessageOfOtherBranch(branch: string, summary: string)
    requires forall b :: WellFormed(b) ==> Render(b) != branch
    ensures CompleteCommitMessage(branch, summary) == CheckMark + " Success: " + summary
  {
  }

  /** A branch not starting with `OG-`, such as `main`, gets the plain
      message. */
  lemma CompleteMessageWithoutOgPrefix(branch: string, summary: string)
    requires !StartsWith(branch, "OG-")
    ensures CompleteCommitMessage(branch, summary) == CheckMark + " Success: " + summary
  {
  }

  /** A task-set name followed by anything but a digit or a numbered
      attempt suffix (`OG-12_TS-3x`, `OG-12_TS-3_attempt-`) does not match
      the anchored pattern and gets the plain message. */
  lemma CompleteMessageTrailingText(og: string, ts: string, extra: string, summary: string)
    requires IsNumeral(og) && IsNumeral(ts)
    requires extra != [] && !IsDigit(extra[0])
    requires !(StartsWith(extra, AttemptInfix) && IsNumeral(extra[9..]))
    ensures CompleteCommitMessage("OG-" + (og + ("_TS-" + (ts + extra))), summary) == CheckMark + " Success: " + summary
  {
    var rest := og + ("_TS-" + (ts + extra));
    PrefixThenRest("OG-", rest);
    ParseOgPartOf(og, ts + extra);
    LeadingDigitsOf(ts, extra);
    assert (ts + extra)[|ts|..] == extra;
  }

  // ---------------------------------------------------------------- cleanup

  /** The characters of `strip('* ')`. */
  predicate IsMarkerOrBlank(c: char)
  {
    c == '*' || c == ' '
  }

  /** `b.strip('* ').strip()` applied to one line of `git branch`. */
  function BranchOfListingLine(line: string): string
  {
    Strip(Strip(line, IsMarkerOrBlank), IsSpace)
  }

  /** `git branch` prints the current branch as `* <name>` and every other
      one as `  <name>`; both lines yield the branch name. */
  lemma ListingLineBranch(b: string)
    requires b != [] && b[0] != '*' && b[|b| - 1] != '*'
    requires !IsSpace(b[0]) && !IsSpace(b[|b| - 1])
    ensures BranchOfListingLine("* " + b) == b
    ensures BranchOfListingLine("  " + b) == b
  {
    assert b[0] != ' ' && b[|b| - 1] != ' ';
    MarkerPrefixStripped("* ", b);
    MarkerPrefixStripped("  ", b);
    StripUnchanged(b, IsSpace);
  }

  /** Stripping markers and blanks from a line made of a marker-and-blank
      prefix and a name that neither starts nor ends with one leaves the
      name. */
  lemma MarkerPrefixStripped(p: string, b: string)
    requires |p| == 2 && IsMarkerOrBlank(p[0]) && IsMarkerOrBlank(p[1])
    requires b != [] && !IsMarkerOrBlank(b[0]) && !IsMarkerOrBlank(b[|b| - 1])
    ensures Strip(p + b, IsMarkerOrBlank) == b
  {
    var q := [p[1]] + b;
    assert (p + b)[0] == p[0] && (p + b)[1..] == q;
    assert q[0] == p[1] && q[1..] == b;
    assert TrimStart(b, IsMarkerOrBlank) == b;
    assert TrimStart(q, IsMarkerOrBlank) == b;
    assert TrimStart(p + b, IsMarkerOrBlank) == b;
    StripUnchanged(b, IsMarkerOrBlank);
  }

  /** A branch belongs to the task set whose base name is `base`: it is the
      base itself or one of its `_attempt-<digits>` retries. */
  predicate Related(branch: string, base: string)
  {
    branch == base || IsAttemptOf(branch, base)
  }

  /** The branch names of the listing lines, in listing order. */
  function ListedBranches(lines: seq<string>): (bs: seq<string>)
    ensures |bs| == |lines| && forall i :: 0 <= i < |lines| ==> bs[i] == BranchOfListingLine(lines[i])
  {
    seq(|lines|, i requires 0 <= i < |lines| => BranchOfListingLine(lines[i]))
  }

  /** What one listed branch contributes: itself when it is related to the
      base name and is not the main branch, nothing otherwise. */
  function Picked(branch: string, base: string, mainBranch: string): seq<string>
  {
    if Related(branch, base) && branch != mainBranch then [branch] else []
  }

  /** The branches the loop at the end of `main` picks, in listing order. */
  function SelectForDeletion(branches: seq<string>, base: string, mainBranch: string): seq<string>
  {
    if branches == [] then []
    else SelectForDeletion(branches[..|branches| - 1], base, mainBranch) + Picked(branches[|branches| - 1], base, mainBranch)
  }

  /** Cleanup after a merge: nothing when `--preserve-branch` is set or the
      merged branch is the main branch, nothing when the listing failed, and
      otherwise every listed branch related to the merged branch's base name
      except the main branch. */
  method CleanupTargets(preserve: bool, merged: string, mainBranch: string, listing: Option<seq<string>>)
    returns (toDelete: seq<string>)
    ensures preserve || merged == mainBranch || listing.None? ==> toDelete == []
    ensures !preserve && merged != mainBranch && listing.Some? ==>
      toDelete == SelectForDeletion(ListedBranches(listing.value), BaseName(merged), mainBranch)
  {
    toDelete := [];
    if !preserve && merged != mainBranch && listing.Some? {
      var base := BaseName(merged);
      var lines := listing.value;
      ghost var all := ListedBranches(lines);
      var i := 0;
      while i < |lines|
        invariant 0 <= i <= |lines|
        invariant toDelete == SelectForDeletion(all[..i], base, mainBranch)
      {
        var branch := BranchOfListingLine(lines[i]);
        SelectStep(all, i, base, mainBranch);
        if branch == base || IsAttemptOf(branch, base) {
          if branch != mainBranch {
            toDelete := toDelete + [branch];
          }
        }
        i := i + 1;
      }
      assert all[..i] == all;
    }
  }

  lemma SelectStep(branches: seq<string>, i: nat, base: string, mainBranch: string)
    requires i < |branches|
    ensures SelectForDeletion(branches[..i + 1], base, mainBranch)
      == SelectForDeletion(branches[..i], base, mainBranch) + Picked(branches[i], base, mainBranch)
  {
    var p := branches[..i + 1];
    assert p[..|p| - 1] == branches[..i];
    assert p[|p| - 1] == branches[i];
  }

  /** A branch is selected exactly when it is listed, related to the base
      name and not the main branch. */
  lemma {:induction false} SelectedIff(branches: seq<string>, base: string, mainBranch: string, branch: string)
    ensures branch in SelectForDeletion(branches, base, mainBranch) <==>
      branch != mainBranch && Related(branch, base) && branch in branches
  {
    if branches != [] {
      var init := branches[..|branches| - 1];
      SelectedIff(init, base, mainBranch, branch);
      assert branches == init + [branches[|branches| - 1]];
    }
  }

  /** Selection keeps listing order: selecting from two listings one after
      the other is selecting from their concatenation. */
  lemma {:induction false} SelectAppend(a: seq<string>, b: seq<string>, base: string, mainBranch: string)
    ensures SelectForDeletion(a + b, base, mainBranch)
      == SelectForDeletion(a, base, mainBranch) + SelectForDeletion(b, base, mainBranch)
  {
    if b == [] {
      assert a + b == a;
    } else {
      var b' := b[..|b| - 1];
      InitOfAppend(a, b);
      SelectAppend(a, b', base, mainBranch);
      AppendAssoc(SelectForDeletion(a, base, mainBranch), SelectForDeletion(b', base, mainBranch),
        Picked(b[|b| - 1], base, mainBranch));
    }
  }

  /** The merged branch itself is always related to its own base name, so it
      is deleted whenever it is listed and is not the main branch. */
  lemma MergedBranchIsRelated(merged: string)
    ensures Related(merged, BaseName(merged))
  {
  }
}
