/** The task-set branch naming scheme shared by the git workflow scripts.
    A first attempt lives on `OG-<og>_TS-<ts>`, a retry on
    `OG-<og>_TS-<ts>_attempt-<k>`; the scripts recognise both with the pattern
    `^OG-(\d+)_TS-(\d+)(_attempt-(\d+))?$`, here with ASCII digits. */
module TaskBranch {
  import opened Text

  /** The three groups the pattern captures; `attempt` is absent for a
      first-attempt branch. */
  datatype BranchId = BranchId(og: string, taskSet: string, attempt: Option<string>)

  predicate WellFormed(b: BranchId)
  {
    IsNumeral(b.og) && IsNumeral(b.taskSet) && (b.attempt.Some? ==> IsNumeral(b.attempt.value))
  }

  const AttemptInfix := "_attempt-"

  function AttemptSuffix(attempt: Option<string>): string
  {
    if attempt.Some? then AttemptInfix + attempt.value else ""
  }

  /** The branch name a `BranchId` stands for. */
  function Render(b: BranchId): string
  {
    "OG-" + (b.og + ("_TS-" + (b.taskSet + AttemptSuffix(b.attempt))))
  }

  /** The attempt number the messages report: the captured one, or "1". */
  function AttemptOf(b: BranchId): string
  {
    if b.attempt.Some? then b.attempt.value else "1"
  }

  /** The `OG-<og> post-TS-<ts>_attempt-<k>` tag that opens the completion and
      failure commit messages. */
  function PostTaskTag(b: BranchId): string
  {
    "OG-" + b.og + " post-TS-" + b.taskSet + "_attempt-" + AttemptOf(b)
  }

  /** `re.match(r'^OG-(\d+)_TS-(\d+)(_attempt-(\d+))?$', name)`. Each `\d+` is
      followed by a non-digit or the end, so the greedy match is the only one. */
  function Parse(name: string): (r: Option<BranchId>)
    ensures r.Some? ==> WellFormed(r.value) && Render(r.value) == name
  {
    if StartsWith(name, "OG-") then
      var r := ParseOgPart(name[3..]);
      assert name == "OG-" + name[3..];
      r
    else None
  }

  /** `(\d+)_TS-` followed by the task-set part. */
  function ParseOgPart(s: string): (r: Option<BranchId>)
    ensures r.Some? ==> WellFormed(r.value) && "OG-" + s == Render(r.value)
  {
    var og := LeadingDigits(s);
    var after := s[|og|..];
    if og != [] && StartsWith(after, "_TS-") then
      match ParseTaskSetPart(after[4..])
      case Some(part) =>
        assert s == og + ("_TS-" + after[4..]) by {
          TakeDrop(s, |og|);
          DropPrefix(after, "_TS-");
        }
        Some(BranchId(og, part.0, part.1))
      case None => None
    else None
  }

  /** `(\d+)(_attempt-(\d+))?$`: the task-set number and the optional attempt. */
  function ParseTaskSetPart(s: string): (r: Option<(string, Option<string>)>)
    ensures r.Some? ==> IsNumeral(r.value.0) && (r.value.1.Some? ==> IsNumeral(r.value.1.value))
    ensures r.Some? ==> s == r.value.0 + AttemptSuffix(r.value.1)
  {
    var ts := LeadingDigits(s);
    var tail := s[|ts|..];
    TakeDrop(s, |ts|);
    if ts == [] then None
    else if tail == [] then Some((ts, None))
    else if StartsWith(tail, AttemptInfix) && IsNumeral(tail[9..]) then
      DropPrefix(tail, AttemptInfix);
      Some((ts, Some(tail[9..])))
    else None
  }

  /** Every well-formed branch id is recognised from the name it renders to:
      together with the postcondition of `Parse`, a name matches the pattern
      exactly when it is the rendering of a well-formed id. */
  lemma ParseRender(b: BranchId)
    requires WellFormed(b)
    ensures Parse(Render(b)) == Some(b)
  {
    var rest := b.og + ("_TS-" + (b.taskSet + AttemptSuffix(b.attempt)));
    assert Render(b)[3..] == rest;
    ParseTaskSetPartOf(b.taskSet, b.attempt);
    ParseOgPartOf(b.og, b.taskSet + AttemptSuffix(b.attempt));
  }

  lemma ParseOgPartOf(og: string, rest: string)
    requires IsNumeral(og)
    ensures ParseOgPart(og + ("_TS-" + rest)) ==
      match ParseTaskSetPart(rest)
      case Some(part) => Some(BranchId(og, part.0, part.1))
      case None => None
  {
    var s := og + ("_TS-" + rest);
    LeadingDigitsOf(og, "_TS-" + rest);
    assert s[|og|..] == "_TS-" + rest;
    assert ("_TS-" + rest)[4..] == rest;
  }

  lemma ParseTaskSetPartOf(ts: string, attempt: Option<string>)
    requires IsNumeral(ts) && (attempt.Some? ==> IsNumeral(attempt.value))
    ensures ParseTaskSetPart(ts + AttemptSuffix(attempt)) == Some((ts, attempt))
  {
    var tail := AttemptSuffix(attempt);
    LeadingDigitsOf(ts, tail);
    assert (ts + tail)[|ts|..] == tail;
    if attempt.Some? {
      assert tail[9..] == attempt.value;
    }
  }

  /** A name is recognised exactly when it renders some well-formed id. */
  lemma ParseIffRendered(name: string)
    ensures Parse(name).Some? <==> exists b :: WellFormed(b) && Render(b) == name
  {
    if exists b :: WellFormed(b) && Render(b) == name {
      var b :| WellFormed(b) && Render(b) == name;
      ParseRender(b);
    }
  }

  // ------------------------------------------------------- attempt suffixes

  /** `name` is `base` followed by `_attempt-<digits>`. */
  predicate IsAttemptOf(name: string, base: string)
  {
    StartsWith(name, base + AttemptInfix) && IsNumeral(name[|base| + 9..])
  }

  /** `re.sub(r'_attempt-\d+$', '', name)`: drops one trailing
      `_attempt-<digits>` and leaves any other name as it is. Its digits are
      the whole trailing run of digits, which is how the match is found. */
  function BaseName(name: string): (r: string)
    ensures r == name || IsAttemptOf(name, r)
  {
    var d := TrailingDigits(name);
    var head := name[..|name| - |d|];
    if d != [] && EndsWith(head, AttemptInfix) then
      var r := head[..|head| - 9];
      assert name == r + AttemptInfix + d by {
        DropSuffix(head, AttemptInfix);
        TakeDrop(name, |name| - |d|);
      }
      assert name[|r| + 9..] == d;
      r
    else name
  }

  /** Whatever base a name carries an attempt suffix after, `BaseName`
      strips exactly that suffix: the digits of an attempt suffix are the
      whole trailing digit run. */
  lemma BaseNameOfAttempt(name: string, base: string)
    requires IsAttemptOf(name, base)
    ensures BaseName(name) == base
  {
    var k := name[|base| + 9..];
    DropPrefix(name, base + AttemptInfix);
    TrailingDigitsOf(base + AttemptInfix, k);
    var head := name[..|name| - |k|];
    assert head == base + AttemptInfix;
    assert head[..|head| - 9] == base;
  }

  /** A name that carries no `_attempt-<digits>` suffix after any base is
      left as it is. */
  lemma BaseNameNotAttempt(name: string)
    requires forall base :: !IsAttemptOf(name, base)
    ensures BaseName(name) == name
  {
  }

  /** The base of a task-set branch is its first-attempt branch. */
  lemma BaseNameOfRendered(b: BranchId)
    requires WellFormed(b)
    ensures BaseName(Render(b)) == Render(b.(attempt := None))
  {
    var first := Render(b.(attempt := None));
    var name := Render(b);
    if b.attempt.Some? {
      assert name == first + AttemptInfix + b.attempt.value;
      BaseNameOfAttempt(name, first);
    } else {
      var prefix := "OG-" + (b.og + "_TS-");
      assert name == prefix + b.taskSet;
      assert prefix[|prefix| - 2] == 'S';
      BaseNameWithoutAttempt(prefix, b.taskSet);
    }
  }

  /** A name whose trailing digits follow something other than
      `_attempt-` is its own base. */
  lemma BaseNameWithoutAttempt(prefix: string, digits: string)
    requires IsNumeral(digits) && |prefix| >= 2 && !IsDigit(prefix[|prefix| - 1])
    requires prefix[|prefix| - 2] != AttemptInfix[7]
    ensures BaseName(prefix + digits) == prefix + digits
  {
    var name := prefix + digits;
    TrailingDigitsOf(prefix, digits);
    assert name[..|name| - |digits|] == prefix;
    assert |prefix| >= 9 ==> prefix[|prefix| - 9..][7] == prefix[|prefix| - 2];
  }
}
