/** Creating an Orchestrator Guide file (`glob_create-guide.py` and its older
    copy `archive/glob_create-guide.py`): the guide-type checks, the next free
    guide number, the sanitised description and the new file's name; and,
    from the older copy only, the verification command line and the splice
    that rewrites the "Initial State" section of the new guide. Directory
    listing, file copying, file reading and writing and the verification run
    itself are not modelled: the listing and the file text arrive as values. */
module CreateGuide {
  import opened Text

  // ------------------------------------------------------------ guide types

  /** `guide_type.upper() in ("OG", "TG")`, checked by `create_guide`. */
  predicate IsGuideType(t: string)
  {
    Upper(t) == "OG" || Upper(t) == "TG"
  }

  /** `args.guide_type.upper() == "OG"`, checked by both entry points before
      `create_guide` runs, so that "TG" is refused there. */
  predicate EntryAccepts(t: string)
  {
    Upper(t) == "OG"
  }

  /** The accepted spellings are exactly the two-letter ones, in any case. */
  lemma GuideTypeSpellings(t: string)
    ensures IsGuideType(t) <==> |t| == 2 && t[0] in "OoTt" && t[1] in "Gg"
    ensures EntryAccepts(t) <==> t in ["OG", "Og", "oG", "og"]
    ensures EntryAccepts(t) ==> IsGuideType(t)
  {
    if |t| == 2 {
      assert Upper(t) == [UpperChar(t[0]), UpperChar(t[1])];
      if EntryAccepts(t) {
        assert t[0] in "Oo" && t[1] in "Gg";
        assert t == [t[0], t[1]];
      }
    } else {
      assert |Upper(t)| != 2;
    }
  }

  // ------------------------------------------------------------ guide number

  /** `re.match(r"_(\d+)_", name)` with group 1 converted by `int`. */
  function GuideNumber(name: string): Option<nat>
  {
    if name != [] && name[0] == '_' then
      var d := LeadingDigits(name[1..]);
      if d != [] && StartsWith(name[1 + |d|..], "_") then Some(ParseDigits(d)) else None
    else None
  }

  /** `n` is the number the loop in `create_guide` settles on for the listing
      `names`: one more than the largest number a name carries, and at least 1. */
  predicate IsNextNumber(names: seq<string>, n: nat)
  {
    && n >= 1
    && (forall name :: name in names && GuideNumber(name).Some? ==> GuideNumber(name).value < n)
    && (n == 1 || exists name :: name in names && GuideNumber(name) == Some(n - 1))
  }

  /** At most one number satisfies `IsNextNumber`. */
  lemma NextNumberUnique(names: seq<string>, a: nat, b: nat)
    requires IsNextNumber(names, a) && IsNextNumber(names, b)
    ensures a == b
  {
    if a != 1 {
      var name :| name in names && GuideNumber(name) == Some(a - 1);
      assert a - 1 < b;
    }
    if b != 1 {
      var name :| name in names && GuideNumber(name) == Some(b - 1);
      assert b - 1 < a;
    }
  }

  /** The loop over the directory listing that finds the next number. */
  method NextGuideNumber(names: seq<string>) returns (next: nat)
    ensures IsNextNumber(names, next)
  {
    next := 1;
    var i := 0;
    while i < |names|
      invariant 0 <= i <= |names|
      invariant IsNextNumber(names[..i], next)
    {
      assert names[..i + 1] == names[..i] + [names[i]];
      match GuideNumber(names[i]) {
        case Some(number) =>
          if number + 1 > next {
            next := number + 1;
          }
        case None =>
      }
      i := i + 1;
    }
    assert names[..i] == names;
  }

  // ------------------------------------------------------------ description

  /** The characters the description sanitiser deletes: backslash, slash,
      asterisk, question mark, colon, double quote, angle brackets, bar. */
  predicate IsForbidden(c: char)
  {
    c == '\\' || c == '/' || c == '*' || c == '?' || c == ':' || c == '"' || c == '<' || c == '>' || c == '|'
  }

  function RemoveForbidden(s: string): (r: string)
    ensures |r| <= |s|
    ensures forall c :: c in r <==> c in s && !IsForbidden(c)
  {
    if s == [] then []
    else
      var rest := RemoveForbidden(s[1..]);
      assert s == [s[0]] + s[1..];
      if IsForbidden(s[0]) then rest else [s[0]] + rest
  }

  /** `.replace(' ', '-')`. */
  function DashSpaces(s: string): (r: string)
    ensures |r| == |s| && forall i :: 0 <= i < |s| ==> r[i] == if s[i] == ' ' then '-' else s[i]
  {
    seq(|s|, i requires 0 <= i < |s| => if s[i] == ' ' then '-' else s[i])
  }

  /** The sanitised description used in the file name. */
  function Sanitize(text: string): string
  {
    DashSpaces(RemoveForbidden(text))
  }

  /** A sanitised description holds no forbidden character and no space;
      every other character of the input survives. */
  lemma SanitizeClean(text: string)
    ensures forall i :: 0 <= i < |Sanitize(text)| ==> !IsForbidden(Sanitize(text)[i]) && Sanitize(text)[i] != ' '
    ensures forall c :: c in text && !IsForbidden(c) && c != ' ' ==> c in Sanitize(text)
  {
    var kept := RemoveForbidden(text);
    var r := Sanitize(text);
    forall i | 0 <= i < |r| ensures !IsForbidden(r[i]) && r[i] != ' ' {
      assert kept[i] in kept;
    }
    forall c | c in text && !IsForbidden(c) && c != ' ' ensures c in r {
      var i :| 0 <= i < |kept| && kept[i] == c;
      assert r[i] == c;
    }
  }

  lemma {:induction false} RemoveForbiddenKeeps(s: string)
    requires forall i :: 0 <= i < |s| ==> !IsForbidden(s[i])
    ensures RemoveForbidden(s) == s
  {
    if s != [] {
      RemoveForbiddenKeeps(s[1..]);
    }
  }

  lemma {:induction false} RemoveForbiddenAppend(a: string, b: string)
    ensures RemoveForbidden(a + b) == RemoveForbidden(a) + RemoveForbidden(b)
  {
    if a == [] {
      assert a + b == b;
    } else {
      assert (a + b)[1..] == a[1..] + b;
      RemoveForbiddenAppend(a[1..], b);
    }
  }

  /** The sanitiser works character by character, in order: the result for
      a concatenation is the concatenation of the results. */
  lemma SanitizeAppend(a: string, b: string)
    ensures Sanitize(a + b) == Sanitize(a) + Sanitize(b)
  {
    RemoveForbiddenAppend(a, b);
  }

  /** What one character becomes: a forbidden one is deleted, a space turns
      into `-`, and any other character is kept as it is. */
  lemma SanitizeChar(c: char)
    ensures Sanitize([c]) == if IsForbidden(c) then "" else if c == ' ' then "-" else [c]
  {
    assert [c][1..] == [];
  }

  /** Sanitising twice changes nothing more. */
  lemma SanitizeIdempotent(text: string)
    ensures Sanitize(Sanitize(text)) == Sanitize(text)
  {
    var r := Sanitize(text);
    SanitizeClean(text);
    RemoveForbiddenKeeps(r);
  }

  // -------------------------------------------------------------- file name

  /** `f"_{next_number:02d}_{guide_type.upper()}_{safe_description}.md"` with
      `safe_description` the sanitised `" ".join(description)`. */
  function GuideFileName(number: nat, guideType: string, words: seq<string>): string
  {
    "_" + ZeroPad2(number) + "_" + Upper(guideType) + "_" + Sanitize(Join(words, ' ')) + ".md"
  }

  /** A name made of `_`, a numeral and text that starts with `_` carries
      the numeral's value. */
  lemma GuideNumberOf(digits: string, rest: string)
    requires IsNumeral(digits) && StartsWith(rest, "_")
    ensures GuideNumber("_" + digits + rest) == Some(ParseDigits(digits))
  {
    var name := "_" + digits + rest;
    assert name[1..] == digits + rest;
    LeadingDigitsOf(digits, rest);
    assert name[1 + |digits|..] == rest;
  }

  /** The new file's name carries its number: the next run of `create_guide`
      reads it back and moves past it. */
  lemma GuideFileNameNumber(number: nat, guideType: string, words: seq<string>)
    ensures GuideNumber(GuideFileName(number, guideType, words)) == Some(number)
  {
    var digits := ZeroPad2(number);
    var rest := "_" + Upper(guideType) + "_" + Sanitize(Join(words, ' ')) + ".md";
    ZeroPad2Digits(number);
    assert GuideFileName(number, guideType, words) == "_" + digits + rest;
    GuideNumberOf(digits, rest);
  }

  /** Adding the new guide to the listing raises the next number by one. */
  lemma NextNumberAfterCreate(names: seq<string>, n: nat, guideType: string, words: seq<string>)
    requires IsNextNumber(names, n)
    ensures IsNextNumber(names + [GuideFileName(n, guideType, words)], n + 1)
  {
    var created := GuideFileName(n, guideType, words);
    GuideFileNameNumber(n, guideType, words);
    assert created in names + [created];
  }

  /** The file name starts `_NN_` with at least two digits, names the type
      in upper case, ends in `.md` and, for a valid type, holds no `/`. */
  lemma GuideFileNameShape(number: nat, guideType: string, words: seq<string>)
    requires IsGuideType(guideType)
    ensures var name := GuideFileName(number, guideType, words);
      && name == "_" + ZeroPad2(number) + "_" + Upper(guideType) + "_" + Sanitize(Join(words, ' ')) + ".md"
      && StartsWith(name, "_" + ZeroPad2(number) + "_" + Upper(guideType) + "_")
      && EndsWith(name, ".md")
      && '/' !in name
  {
    var text := Sanitize(Join(words, ' '));
    SanitizeClean(Join(words, ' '));
    ZeroPad2Digits(number);
    var head := "_" + ZeroPad2(number) + "_" + Upper(guideType) + "_";
    var name := GuideFileName(number, guideType, words);
    assert name == head + text + ".md";
    assert '/' !in head;
    assert '/' !in text by {
      forall i | 0 <= i < |text| ensures text[i] != '/' { }
    }
  }

  // ------------------------------------------------------------------- plan

  /** What `os.listdir(target_dir)` produced. */
  datatype Listing = Listed(names: seq<string>) | Missing | Unreadable

  datatype GuideError = InvalidGuideType | UnreadableTargetDir

  /** The part of `create_guide` before the template is copied: the type
      check, the next number and the new file's name. A missing target
      directory counts as empty; any other listing failure aborts. */
  method PlanGuide(guideType: string, words: seq<string>, listing: Listing)
    returns (r: Result<string, GuideError>)
    ensures !IsGuideType(guideType) ==> r == Err(InvalidGuideType)
    ensures IsGuideType(guideType) && listing.Unreadable? ==> r == Err(UnreadableTargetDir)
    ensures IsGuideType(guideType) && listing.Missing? ==> r == Ok(GuideFileName(1, guideType, words))
    ensures IsGuideType(guideType) && listing.Listed? ==>
      exists n :: IsNextNumber(listing.names, n) && r == Ok(GuideFileName(n, guideType, words))
  {
    if !IsGuideType(guideType) {
      return Err(InvalidGuideType);
    }
    match listing {
      case Unreadable =>
        r := Err(UnreadableTargetDir);
      case Missing =>
        r := Ok(GuideFileName(1, guideType, words));
      case Listed(names) =>
        var n := NextGuideNumber(names);
        r := Ok(GuideFileName(n, guideType, words));
    }
  }

  // ------------------------------------------ verification command (archive)

  /** The argument list `run_verification_suite` builds; `--log-prompt` is
      added only for a non-empty prompt. */
  function VerificationArgs(url: string, logPrompt: Option<string>): seq<string>
  {
    var base := ["python", "_20_user-scripts/verification-suite.py", "--url", url];
    if logPrompt.Some? && logPrompt.value != "" then base + ["--log-prompt", "\"" + logPrompt.value + "\""]
    else base
  }

  /** `' '.join(command)`, the command line that is run and recorded. */
  function VerificationCommand(url: string, logPrompt: Option<string>): string
  {
    Join(VerificationArgs(url, logPrompt), ' ')
  }

  /** The recorded command is the fixed prefix and the URL, followed by the
      quoted prompt exactly when a non-empty prompt was given. */
  lemma VerificationCommandText(url: string, logPrompt: Option<string>)
    ensures VerificationCommand(url, logPrompt)
      == "python" + " " + ("_20_user-scripts/verification-suite.py" + " " + ("--url" + " " + (url
         + if logPrompt.Some? && logPrompt.value != ""
           then " " + ("--log-prompt" + " " + ("\"" + logPrompt.value + "\""))
           else "")))
  {
    var script := "_20_user-scripts/verification-suite.py";
    var tail: seq<string> := [url];
    var prompt := "";
    if logPrompt.Some? && logPrompt.value != "" {
      var quoted := "\"" + logPrompt.value + "\"";
      tail := [url, "--log-prompt", quoted];
      prompt := " " + ("--log-prompt" + " " + quoted);
      JoinCons("--log-prompt", [quoted], ' ');
      JoinCons(url, ["--log-prompt", quoted], ' ');
      assert [url] + ["--log-prompt", quoted] == tail;
      assert ["--log-prompt"] + [quoted] == ["--log-prompt", quoted];
    }
    assert Join(tail, ' ') == url + prompt;
    assert VerificationArgs(url, logPrompt) == ["python"] + ([script] + (["--url"] + tail));
    JoinCons("--url", tail, ' ');
    JoinCons(script, ["--url"] + tail, ' ');
    JoinCons("python", [script] + (["--url"] + tail), ' ');
  }

  // ------------------------------------------- initial-state splice (archive)

  const InitialStateMarker := "## Initial State"
  const TaskSetsMarker := "## Task Sets"
  const Separator := "- - - - - - - - -"

  /** The new "Initial State" section written into the guide; the prompt
      line reads "none" when no prompt, or an empty one, was given. */
  function InitialStateSection(command: string, output: string, logPrompt: Option<string>): string
  {
    var prompt := if logPrompt.Some? && logPrompt.value != "" then logPrompt.value else "none";
    var body := "\n\n*   **Command:** `" + command + "`\n*   **Log Prompt:** " + prompt
      + "\n*   **Results:**\n    ```\n" + output + "\n    ```\n\n";
    InitialStateMarker + (body + (Separator + "\n"))
  }

  /** The new section opens with the "Initial State" marker and closes with
      the separator line. */
  lemma InitialStateSectionShape(command: string, output: string, logPrompt: Option<string>)
    ensures StartsWith(InitialStateSection(command, output, logPrompt), InitialStateMarker)
    ensures EndsWith(InitialStateSection(command, output, logPrompt), Separator + "\n")
  {
    var section := InitialStateSection(command, output, logPrompt);
    var rest := section[|InitialStateMarker|..];
    PrefixThenRest(InitialStateMarker, rest);
    var tail := Separator + "\n";
    assert section[|section| - |tail|..] == tail;
  }

  /** A separator lies wholly between the first "Initial State" marker and
      the first "Task Sets" marker. */
  predicate SeparatorBetween(content: string)
  {
    exists i :: Find(content, InitialStateMarker) <= i && i + |Separator| <= Find(content, TaskSetsMarker)
      && OccursAt(content, Separator, i)
  }

  /** The string work of `update_og_initial_state`: `None` where it reports
      an error and returns False, otherwise the new file text. */
  function SpliceInitialState(content: string, section: string): (r: Option<string>)
    ensures r.Some? <==>
      (Contains(content, InitialStateMarker) && Contains(content, TaskSetsMarker) && SeparatorBetween(content))
    ensures r.Some? ==>
      var start, end := Find(content, InitialStateMarker), Find(content, TaskSetsMarker);
      && 0 <= start < end
      && r.value == content[..start] + section + content[end..]
  {
    var start := Find(content, InitialStateMarker);
    var end := Find(content, TaskSetsMarker);
    if start == -1 || end == -1 then None
    else
      var sep := RFindIn(content, Separator, start, end);
      if sep == -1 then None
      else Some(content[..start] + section + content[end..])
  }

  /** After the splice, the first "Initial State" marker is where it was:
      everything before it is unchanged and the new section starts with it. */
  lemma SpliceKeepsFirstMarker(content: string, section: string)
    requires SpliceInitialState(content, section).Some?
    requires StartsWith(section, InitialStateMarker)
    ensures Find(SpliceInitialState(content, section).value, InitialStateMarker) == Find(content, InitialStateMarker)
  {
    var r := SpliceInitialState(content, section).value;
    var start := Find(content, InitialStateMarker);
    var end := Find(content, TaskSetsMarker);
    var n := start + |InitialStateMarker|;
    assert r == content[..start] + section + content[end..];
    assert r[..start] == content[..start];
    assert r[start..n] == section[..|InitialStateMarker|];
    PrefixesAgree(content, r, start, n);
    FindSamePrefix(content, r, InitialStateMarker, n);
  }

  /** A guide whose "Task Sets" marker comes before its "Initial State"
      marker is never spliced. */
  lemma SpliceNeedsMarkerOrder(content: string, section: string)
    requires Contains(content, InitialStateMarker) && Contains(content, TaskSetsMarker)
    requires Find(content, TaskSetsMarker) < Find(content, InitialStateMarker)
    ensures SpliceInitialState(content, section).None?
  {
  }
}
