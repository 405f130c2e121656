# Task-set workflow scripts and duplicate-file finder, modelled in Dafny

This project models the decision-making core of a small set of Python
workflow scripts, and proves properties of the model.

The scripts drive an "Orchestrator Guide" (OG) documentation workflow on
git. Each task set is worked on a branch named
`OG-<og>_TS-<ts>[_attempt-<k>]`.

- `start-task-set-branch` validates its arguments. It commits pending
  changes with a "Doc update" message and names the new branch.
- `complete-task-set` builds the success commit message. After the merge
  it selects the related branches to delete.
- `fail-task-set` builds the failure commit message. It keeps the changed
  Markdown files that are not numbered guide files, chooses the branch to
  delete and builds the restore commit message.
- `create-guide` checks the guide type and finds the next guide number. It
  sanitises the description into a file name, builds the verification
  command and splices the "Initial State" section into the guide.
- `find_duplicate_files` groups the files of a directory walk by
  (name, size) and keeps the groups found in more than one directory.
  From those it computes the report's figures: the categories, the space
  that could be saved, and the directory pairs ordered by the number of
  files they share.

One Dafny module per concern:

| file | module | models |
|---|---|---|
| `text.dfy` | `Text` | `str.find`/`rfind`, digit runs, `int`/`str` of naturals, `upper`, `strip`, `split`, `join` |
| `sorting.dfy` | `Sorting` | Python's string order and `sorted` on strings |
| `assoc_list.dfy` | `AssocList` | an insertion-ordered `defaultdict(list)` |
| `task_branch.dfy` | `TaskBranch` | the branch-name pattern `^OG-(\d+)_TS-(\d+)(_attempt-(\d+))?$` and the `_attempt-\d+$` base name |
| `complete_task_set.dfy` | `CompleteTaskSet` | the success message and the branch cleanup |
| `fail_task_set.dfy` | `FailTaskSet` | the failure message, the file filter, the branch choice and the restore message |
| `create_guide.dfy` | `CreateGuide` | the guide type, numbering, file name, verification command and section splice |
| `start_task_set.dfy` | `StartTaskSet` | arguments, the branch name, the doc-update commit and the status classification |
| `duplicate_scan.dfy` | `DuplicateScan` | `find_duplicate_files` |
| `duplicate_report.dfy` | `DuplicateReport` | `format_size` and the figures of `print_duplicates` |

Where each modelled part comes from:

- `CompleteTaskSet`: `ide-files_OG/glob_complete-task-set.py`.
- `FailTaskSet`: `ide-files_OG/archive/glob_fail-task-set.py`.
- `CreateGuide`:
  - The type check, the next number, the sanitiser and the file name are the same in `ide-files_OG/archive/glob_create-guide.py` and `ide-files_OG/glob_create-guide.py`. The table cites the archived copy.
  - The verification command and the Initial State splice exist only in the archived copy. The current copy dropped its `--url` and `--log-prompt` arguments.
- `StartTaskSet`: two variants, both under `ide-files_OG/archive/`.
  - `start-task-set-branch.py` reads `sys.argv`. `ParseArgv` models it, and the table cites it.
  - `glob_start-task-set-branch.py` reads its arguments with argparse. Its validation, status loop, commit message and branch name are the same.
- `DuplicateScan` and `DuplicateReport`: `find_duplicate_files.py`.

Code that loops and updates variables in the source is modelled as a
method with a loop: the next guide number, the file filter, the branch
cleanup, the status classification, the scan, the unit loop of
`format_size` and the report loop. Each such method is proved equal to a
specification function or characterised by a predicate (`IsNextNumber` for
the next guide number, `IsScale` for the unit, `NamesPath`/`NamesOther` for
the status classification), and the properties are proved about those.

## Model

| member | source | states |
|---|---|---|
| `TaskBranch.Parse` | ide-files_OG/glob_complete-task-set.py:48 | a name the branch pattern accepts is the rendering of the well-formed identifier it yields |
| `TaskBranch.ParseRender` | ide-files_OG/glob_complete-task-set.py:48-54 | every well-formed identifier rendered as a branch name parses back to itself |
| `TaskBranch.ParseIffRendered` | ide-files_OG/glob_complete-task-set.py:48-50 | the pattern matches exactly the names that render some well-formed identifier |
| `TaskBranch.BaseName` | ide-files_OG/glob_complete-task-set.py:196 | removing a trailing `_attempt-<digits>` yields the name itself or the base of which the name is an attempt |
| `TaskBranch.BaseNameOfAttempt` | ide-files_OG/glob_complete-task-set.py:196 | the base name of `<base>_attempt-<digits>` is exactly `<base>` |
| `TaskBranch.BaseNameOfRendered` | ide-files_OG/glob_complete-task-set.py:196 | the base name of a task branch is the same branch without its attempt |
| `TaskBranch.BaseNameNotAttempt` | ide-files_OG/glob_complete-task-set.py:196 | a name that is not `<base>_attempt-<digits>` for any base is its own base name |
| `TaskBranch.BaseNameWithoutAttempt` | ide-files_OG/glob_complete-task-set.py:196 | a name ending in digits whose preceding character is not a digit, with `t` not two places before the digits, is its own base name |
| `CompleteTaskSet.CompleteMessageOfTaskBranch` | ide-files_OG/glob_complete-task-set.py:45-54 | on a task branch the message is `✔️ OG-<og> post-TS-<ts>_attempt-<k>: Success: <summary>`, with attempt 1 when the name has none |
| `CompleteTaskSet.CompleteMessageOfOtherBranch` | ide-files_OG/glob_complete-task-set.py:55-57 | any branch that is not a task-branch name gets `✔️ Success: <summary>` |
| `CompleteTaskSet.CompleteMessageWithoutOgPrefix` | ide-files_OG/glob_complete-task-set.py:55-57 | a branch not starting with `OG-` gets the fallback message |
| `CompleteTaskSet.CompleteMessageTrailingText` | ide-files_OG/glob_complete-task-set.py:48-57 | `OG-<og>_TS-<ts>` followed by text that does not start with a digit and is not an attempt suffix gets the fallback message |
| `CompleteTaskSet.ListingLineBranch` | ide-files_OG/glob_complete-task-set.py:204 | the lines `* <name>` and `  <name>` of `git branch` both yield `<name>` when the name neither starts nor ends with `*` or whitespace |
| `CompleteTaskSet.CleanupTargets` | ide-files_OG/glob_complete-task-set.py:192-214 | nothing is deleted with `--preserve-branch`, when the merged branch is the main branch, or when listing fails; otherwise the selection from the listed branches |
| `CompleteTaskSet.SelectedIff` | ide-files_OG/glob_complete-task-set.py:208-212 | a branch is selected exactly when it is listed, equals the base name or is an attempt of it, and is not the main branch |
| `CompleteTaskSet.SelectAppend` | ide-files_OG/glob_complete-task-set.py:205-212 | the selection keeps the listing order |
| `CompleteTaskSet.MergedBranchIsRelated` | ide-files_OG/glob_complete-task-set.py:196-209 | the merged branch is always related to its own base name |
| `FailTaskSet.FailMessageOfTaskBranch` | ide-files_OG/archive/glob_fail-task-set.py:36-45 | on a task branch the message is `❌ OG-<og> post-TS-<ts>_attempt-<k>: Task failed: <reason>` |
| `FailTaskSet.FailMessageOfOtherBranch` | ide-files_OG/archive/glob_fail-task-set.py:46-48 | any other branch gets `❌ Cleanup after task failure: <reason>` |
| `FailTaskSet.BasenameShape` | ide-files_OG/archive/glob_fail-task-set.py:58 | `os.path.basename` yields a slash-free suffix of the path that follows its last `/` |
| `FailTaskSet.FilterNeededFiles` | ide-files_OG/archive/glob_fail-task-set.py:50-67 | the loop keeps exactly the files `NeededFiles` keeps, in order |
| `FailTaskSet.NeededIff` | ide-files_OG/archive/glob_fail-task-set.py:57-61 | a file is kept exactly when it is changed, its basename ends in `.md` and it does not match `^_(\d{2})_OG_.*\.md$` |
| `FailTaskSet.NeededAppend` | ide-files_OG/archive/glob_fail-task-set.py:30 | filtering the modified files followed by the untracked files filters each list in turn |
| `FailTaskSet.NeededAreMarkdown` | ide-files_OG/archive/glob_fail-task-set.py:60 | every kept file is a Markdown file |
| `FailTaskSet.TwoDigitGuideIsSkipped` | ide-files_OG/archive/glob_fail-task-set.py:54 | a guide file numbered with two digits is never kept |
| `FailTaskSet.ThreeDigitGuideIsNeeded` | ide-files_OG/archive/glob_fail-task-set.py:54-61 | a guide file numbered with three digits does not match the pattern and is kept |
| `FailTaskSet.BranchToDelete` | ide-files_OG/archive/glob_fail-task-set.py:126 | no branch is deleted exactly when the current branch is the main branch; otherwise the current branch is |
| `FailTaskSet.RestoreMessageOfTaskBranch` | ide-files_OG/archive/glob_fail-task-set.py:193-200 | leaving a task branch, the message names its OG, task set and attempt and the count of preserved files |
| `FailTaskSet.RestoreMessageOffTaskBranch` | ide-files_OG/archive/glob_fail-task-set.py:201-203 | on the main branch or a non-task branch, the message is the generic cleanup message |
| `CreateGuide.GuideTypeSpellings` | ide-files_OG/archive/glob_create-guide.py:105-107 | the type check accepts `OG` and `TG` in any letter case and nothing else; the entry point accepts only the four spellings of `OG` |
| `CreateGuide.NextNumberUnique` | ide-files_OG/archive/glob_create-guide.py:109-117 | the next guide number is determined by the listing |
| `CreateGuide.NextGuideNumber` | ide-files_OG/archive/glob_create-guide.py:110-117 | the loop yields one more than the largest `_<digits>_` number in the listing, and at least 1 |
| `CreateGuide.SanitizeClean` | ide-files_OG/archive/glob_create-guide.py:126-127 | the sanitised description holds no forbidden character and no space, and every other character of the description occurs in it |
| `CreateGuide.SanitizeAppend` | ide-files_OG/archive/glob_create-guide.py:127 | sanitising works character by character in order: a concatenation sanitises to the concatenation of the results |
| `CreateGuide.SanitizeChar` | ide-files_OG/archive/glob_create-guide.py:127 | each of the nine forbidden characters (backslash, slash, `*`, `?`, `:`, `"`, `<`, `>` and the vertical bar) is deleted, a space becomes `-`, and every other character is kept |
| `CreateGuide.SanitizeIdempotent` | ide-files_OG/archive/glob_create-guide.py:127 | sanitising twice is sanitising once |
| `CreateGuide.GuideFileNameNumber` | ide-files_OG/archive/glob_create-guide.py:114-128 | the number read back from a new guide's file name is the number it was given |
| `CreateGuide.NextNumberAfterCreate` | ide-files_OG/archive/glob_create-guide.py:109-128 | after the new guide is added to the listing, the next number is one higher |
| `CreateGuide.GuideFileNameShape` | ide-files_OG/archive/glob_create-guide.py:128 | the file name is `_<nn>_<TYPE>_` followed by the description, ends in `.md` and holds no `/` |
| `CreateGuide.PlanGuide` | ide-files_OG/archive/glob_create-guide.py:105-128 | an invalid type and an unreadable directory are errors; a missing directory gives number 1; otherwise the file name carries the next number |
| `CreateGuide.VerificationCommandText` | ide-files_OG/archive/glob_create-guide.py:10-15 | the command is `python _20_user-scripts/verification-suite.py --url <url>`, plus `--log-prompt "<prompt>"` only for a non-empty prompt |
| `CreateGuide.InitialStateSectionShape` | ide-files_OG/archive/glob_create-guide.py:61-71 | the new section opens with the Initial State marker and closes with the separator line |
| `CreateGuide.SpliceInitialState` | ide-files_OG/archive/glob_create-guide.py:51-83 | the splice succeeds exactly when both markers occur and a separator lies between them; it then replaces the text between them with the new section |
| `CreateGuide.SpliceKeepsFirstMarker` | ide-files_OG/archive/glob_create-guide.py:83 | after the splice the first Initial State marker is where it was |
| `CreateGuide.SpliceNeedsMarkerOrder` | ide-files_OG/archive/glob_create-guide.py:76-80 | when the Task Sets marker comes first, the splice fails |
| `StartTaskSet.ParseInt` | ide-files_OG/archive/start-task-set-branch.py:40 | `int()` accepts exactly an optionally signed run of digits |
| `StartTaskSet.ParseIntToString` | ide-files_OG/archive/start-task-set-branch.py:40 | every integer's decimal text parses back to it |
| `StartTaskSet.ParseArgvShapes` | ide-files_OG/archive/start-task-set-branch.py:32-40 | three arguments give attempt 1, four give the parsed attempt, and any other count is a usage error |
| `StartTaskSet.Validate` | ide-files_OG/archive/start-task-set-branch.py:43-51 | a request passes exactly when the OG and task-set numbers are digit runs and the attempt is at least 1; otherwise it fails with the first failing check's error |
| `StartTaskSet.StartedBranchParses` | ide-files_OG/archive/start-task-set-branch.py:90-95 | the new branch name parses as the task branch it was built from |
| `StartTaskSet.StartedBranchBase` | ide-files_OG/archive/start-task-set-branch.py:90-95 | the base name of any attempt's branch is the first attempt's branch |
| `StartTaskSet.StartedBranchCompletion` | ide-files_OG/archive/start-task-set-branch.py:90-95 | the success message for the new branch carries the same OG, task set and attempt |
| `StartTaskSet.DecodeDocUpdateMessage` | ide-files_OG/archive/start-task-set-branch.py:79 | the doc-update message can be decoded back to its OG number, task-set number and attempt |
| `StartTaskSet.DocUpdateMessageInjective` | ide-files_OG/archive/start-task-set-branch.py:79 | different requests give different doc-update messages |
| `StartTaskSet.StatusLines` | ide-files_OG/archive/start-task-set-branch.py:63 | the status yields no lines exactly when its output is empty |
| `StartTaskSet.StatusLinesRejoin` | ide-files_OG/archive/start-task-set-branch.py:63 | the lines hold no newline and, joined with newlines, give back the output |
| `StartTaskSet.StatusLinesAsWritten` | ide-files_OG/archive/start-task-set-branch.py:25 | (as written) the whole porcelain output is stripped before it is split |
| `StartTaskSet.StripLosesFirstPathChar` | ide-files_OG/archive/start-task-set-branch.py:62-68 | for a first line ` M <path>`, the stripped output reads the path without its first character; the corrected reading keeps it |
| `StartTaskSet.PorcelainLinesOfOutput` | ide-files_OG/archive/start-task-set-branch.py:62-63 | the corrected reading gives back exactly the lines of the porcelain output |
| `StartTaskSet.PorcelainLinesKeepAllButTrailingSpace` | ide-files_OG/archive/start-task-set-branch.py:62-63 | the corrected reading drops only the whitespace at the end of the output, so leading blanks stay in the first line |
| `StartTaskSet.ClassifyStatus` | ide-files_OG/archive/start-task-set-branch.py:64-72 | the loop reports the guide file exactly when some line names it, and other files exactly when some line names another path |
| `StartTaskSet.NoteMeaning` | ide-files_OG/archive/start-task-set-branch.py:82-87 | the note says the guide only exactly when every line names it, and other files only exactly when none does |
| `StartTaskSet.PlanStart` | ide-files_OG/archive/start-task-set-branch.py:43-95 | an invalid request gives its error; otherwise there is a commit exactly when the status lists changes, with the doc-update message, and the branch has the task-branch name |
| `DuplicateScan.FileMapContents` | find_duplicate_files.py:38-45 | the file map stores, under each (name, size), the directory of every readable file with that key, once each and in walk order |
| `DuplicateScan.UnreadableSkipped` | find_duplicate_files.py:40-48 | a file whose size cannot be read is skipped and the walk goes on |
| `DuplicateScan.DuplicatesIff` | find_duplicate_files.py:55 | a group is kept exactly when it is in the file map and has more than one directory |
| `DuplicateScan.FindDuplicateFiles` | find_duplicate_files.py:23-55 | a failed walk gives the empty result; otherwise the groups of the file map with more than one directory |
| `DuplicateScan.ScanResult` | find_duplicate_files.py:33-55 | the result has distinct keys; each key is kept exactly when files with it were read in more than one place, with those directories in walk order |
| `DuplicateReport.ScaleUnique` | find_duplicate_files.py:16-20 | a size has only one unit |
| `DuplicateReport.ScaleBounds` | find_duplicate_files.py:16-20 | bytes are used exactly below 1024, and petabytes exactly from 1024^5 up |
| `DuplicateReport.FormatSize` | find_duplicate_files.py:14-20 | the unit chosen is the size's unit, and the value times 1024 to the unit's power is the size |
| `DuplicateReport.DepthMapsFirst` | find_duplicate_files.py:79-80 | a name containing `_depth_` is a depth map, whatever else it contains |
| `DuplicateReport.MainImagesSecond` | find_duplicate_files.py:81-82 | a name containing `_main_` but not `_depth_` is a main image |
| `DuplicateReport.CategoriesPartition` | find_duplicate_files.py:77-88 | the three categories together hold every duplicate set exactly once |
| `DuplicateReport.InCategoryIff` | find_duplicate_files.py:88 | a set is listed under a category exactly when it is a duplicate set whose name falls in that category |
| `DuplicateReport.WastedNonNegative` | find_duplicate_files.py:75-87 | the space that could be saved is never negative, and is zero exactly when every duplicated file is empty |
| `DuplicateReport.PairsOfDirsCount` | find_duplicate_files.py:91-95 | a set in n directories contributes n(n-1)/2 directory pairs |
| `DuplicateReport.PairsOfDirsIff` | find_duplicate_files.py:91-94 | the pairs are exactly the (earlier, later) pairs of the sorted directories, so each pair is in order |
| `DuplicateReport.LookupAddPairs` | find_duplicate_files.py:95 | adding a set's pairs appends its key under each pair once for every time the pair occurs |
| `DuplicateReport.PairTableContents` | find_duplicate_files.py:71-95 | the pair table lists under each pair the duplicate sets found in both directories, with distinct, ordered pairs, and holds one entry per contributed pair |
| `DuplicateReport.AddSetPairs` | find_duplicate_files.py:91-95 | the nested loop adds exactly the pairs of the set's sorted directories |
| `DuplicateReport.SortByCountSorted` | find_duplicate_files.py:128 | the pair summary is ordered by file count, largest first, and is a permutation of the pair lines |
| `DuplicateReport.SortByCountStable` | find_duplicate_files.py:128 | pairs with equal file counts keep their insertion order, as Python's stable sort does |
| `DuplicateReport.PrintDuplicates` | find_duplicate_files.py:58-133 | an empty result reports no duplicates; otherwise the report holds the set count, the three categories, the space that could be saved and the sorted pair lines |
| `AssocList.LookupAppend` | find_duplicate_files.py:45 | `m[k].append(v)` adds `v` at the end of the list under `k` and changes no other key's list |
| `AssocList.AppendInvariant` | find_duplicate_files.py:45 | appending keeps keys distinct and lists non-empty, and stores one more value |
| `Sorting.SortStrings` | find_duplicate_files.py:91 | `sorted` returns an ordered permutation of its input |
| `Sorting.SortedUnique` | find_duplicate_files.py:91 | there is only one ordered permutation of a list of strings |

## Left out

- Printing, logging and exit codes are left out. Each error path is a `Result` error or an empty result.
- git, the subprocess calls, the file system, `tempfile`, the file moves and the template copy are left out. Their outputs arrive as parameters: the listing, the porcelain output, the branch listing and the current branch.
- The count of preserved files arrives as a parameter. It is not computed from the temporary-file map.
- The directory walk arrives as its flattened list of entries. `os.path.abspath` and `os.path.join` are left out.
- `os.path.commonpath`, `os.path.relpath` and the text layout of the report are left out. The report model returns the figures that are printed.
- `DuplicateReport.FormatSize` does not model the `.2f` rounding. It returns the exact real value and its unit.
- `DuplicateReport.PrintDuplicates` does not model the category ordering of `sorted(categories.items())`. It returns the three categories as separate fields in a fixed order.
- `DuplicateReport.PrintDuplicates` does not model the per-category `sorted(items)` listing order. It returns each category in insertion order.
- Regular expressions use ASCII digits only. Python's `\d` also matches other Unicode decimal digits.
- `$` matching just before a trailing newline is modelled for the guide-file pattern only (`FailTaskSet.IsOgGuideName`). Branch names and command-line numbers are taken not to contain a newline.
- `StartTaskSet.PlanStart` does not model the note the scripts print for a first line with a blank index column. Its note follows the corrected status reading `PorcelainLines`, so for `" M a.md\n"` with guide path `a.md` it says the guide only, where the scripts say "other files" (see Findings).
- `upper()` is modelled on ASCII letters only.
- `StartTaskSet.ParseInt` does not model `int()` accepting surrounding whitespace, underscores between digits, or non-ASCII digits.
- argparse's own error handling is left out. A malformed command line becomes `UsageError`, as in the `sys.argv` variant of the start script.
- The "nothing to commit" and `git diff --staged --quiet` checks on command output are left out. The restore message is modelled for the case where a commit is made.
- The run of the verification suite is left out. Its output text is a parameter of `CreateGuide.InitialStateSection`.
- The verification scripts are left out. They are not part of this model.

## Findings

| source | as written | input that shows it | evidently intended | confidence | as-written member | corrected member |
|---|---|---|---|---|---|---|
| ide-files_OG/archive/start-task-set-branch.py:25 | `run_git_command` strips the whole `git status --porcelain` output, leading blanks included, before it is split into lines and each path is read from column 3 | a work-tree-only change listed first, `" M a.md\n"`: the first line becomes `"M a.md"` and its path is read as `".md"`, so the guide file is reported as another file | strip only trailing whitespace (`rstrip()`), so each line keeps its two status columns | not executed | `StartTaskSet.StripLosesFirstPathChar` | `StartTaskSet.PorcelainLinesOfOutput` |

The same `strip()` is at line 26 of
`ide-files_OG/archive/glob_start-task-set-branch.py`. `StartTaskSet.StatusLinesAsWritten`
models the code as written. `StartTaskSet.PorcelainLines` is the corrected
reading, and `StartTaskSet.PlanStart` uses it.
