/**
 * `GitTools` of src/git-tools.ts: the working-tree status as `simple-git`
 * reports it, and the commit-and-push gate that answers with a dry run until
 * it is called again with `confirmed`. The repository itself is abstract: the
 * model records the git operations issued against it; which of them fails, if
 * any, and what `git status` reports once `git add .` has staged the tree are
 * parameters from the environment.
 */
module GitTools {
  import opened Wrappers
  import opened Text

  datatype Rename = Rename(from: string, to: string)

  /** The parts of `git.status()` the tool reads. `files` is the raw list of changed
      entries; the four lists are its classification. */
  datatype RawStatus = RawStatus(
    created: seq<string>,
    modified: seq<string>,
    deleted: seq<string>,
    renamed: seq<Rename>,
    files: seq<string>)

  const Clean := RawStatus([], [], [], [], [])

  datatype GitStatus = GitStatus(files: seq<string>, hasChanges: bool)

  datatype CommitPushResult = CommitPushResult(success: bool, isDryRun: bool, message: string)

  datatype GitOp = Add(pathspec: string) | Commit(message: string) | Push(remote: string, branch: string)

  /** Which of the three calls the environment makes fail, and with what text. */
  datatype Step = AddStep | CommitStep | PushStep
  datatype Failure = Failure(step: Step, text: string)

  /** The destinations of the renames, in order. */
  function Targets(rs: seq<Rename>): (ts: seq<string>)
    ensures |ts| == |rs|
    ensures forall k :: 0 <= k < |rs| ==> ts[k] == rs[k].to
  {
    seq(|rs|, k requires 0 <= k < |rs| => rs[k].to)
  }

  /** `getStatus`: the four lists concatenated in order, with nothing removed, and
      `hasChanges` from the raw list. */
  function StatusOf(raw: RawStatus): (s: GitStatus)
    ensures |s.files| == |raw.created| + |raw.modified| + |raw.deleted| + |raw.renamed|
    ensures s.files[..|raw.created|] == raw.created
    ensures s.files[|raw.created|..|raw.created| + |raw.modified|] == raw.modified
    ensures s.files[|raw.created| + |raw.modified|..|raw.created| + |raw.modified| + |raw.deleted|] == raw.deleted
    ensures forall k :: 0 <= k < |raw.renamed| ==>
      s.files[|raw.created| + |raw.modified| + |raw.deleted| + k] == raw.renamed[k].to
    ensures s.hasChanges <==> |raw.files| > 0
  {
    var a := raw.created + raw.modified;
    var b := a + raw.deleted;
    assert (b + Targets(raw.renamed))[..|a|] == a;
    GitStatus(b + Targets(raw.renamed), |raw.files| > 0)
  }

  /** The three outcomes of the gate. */
  datatype Gate = NothingToCommit | DryRun | Execute

  /** `confirmed = false` as the default parameter. */
  function Confirmed(confirmed: Option<bool>): bool {
    confirmed.Some? && confirmed.value
  }

  function Decide(hasChanges: bool, confirmed: bool): Gate {
    if !hasChanges then NothingToCommit
    else if !confirmed then DryRun
    else Execute
  }

  const NoChangesMessage := "No changes to commit"
  const DryRunPrefix := "Dry run: Would commit "
  const DryRunMiddle := " file(s) with message: \""
  const DryRunSuffix := "\". Call again with confirmed: true to execute."

  function DryRunMessage(count: nat, message: string): string {
    DryRunPrefix + NatToString(count) + DryRunMiddle + message + DryRunSuffix
  }

  function SuccessMessage(message: string): string {
    "Successfully committed and pushed: \"" + message + "\""
  }

  function FailureMessage(text: string): string {
    "Git operation failed: " + text
  }

  /** The calls the confirmed branch issues before it stops: all three, or up to and
      including the one that fails. */
  function Issued(message: string, remote: string, branch: string, failure: Option<Failure>): (ops: seq<GitOp>)
    ensures 1 <= |ops| <= 3
    ensures ops == [Add("."), Commit(message), Push(remote, branch)][..|ops|]
    ensures failure.None? ==> |ops| == 3
  {
    var all := [Add("."), Commit(message), Push(remote, branch)];
    if failure.None? then all
    else match failure.value.step
      case AddStep => all[..1]
      case CommitStep => all[..2]
      case PushStep => all
  }

  class Git {
    /** What `git status` reports for the working tree. */
    var status: RawStatus
    /** The add, commit and push calls issued so far. */
    ghost var ops: seq<GitOp>
    /** `config.git.remote` and `config.git.branch`. */
    const remote: string
    const branch: string

    constructor(status0: RawStatus, remote: string, branch: string)
      ensures status == status0 && ops == [] && this.remote == remote && this.branch == branch
    {
      status := status0;
      ops := [];
      this.remote := remote;
      this.branch := branch;
    }

    /** `getStatus`: reads the status, changes nothing. */
    method GetStatus() returns (s: GitStatus)
      ensures s == StatusOf(status)
    {
      var created := status.created;
      var modified := status.modified;
      var deleted := status.deleted;
      var files := created + modified + deleted;
      var i := 0;
      while i < |status.renamed|
        invariant 0 <= i <= |status.renamed|
        invariant files == created + modified + deleted + Targets(status.renamed[..i])
      {
        assert Targets(status.renamed[..i + 1]) == Targets(status.renamed[..i]) + [status.renamed[i].to];
        files := files + [status.renamed[i].to];
        i := i + 1;
      }
      assert status.renamed[..i] == status.renamed;
      s := GitStatus(files, |status.files| > 0);
    }

    /** `commitAndPush`: nothing to do without changes; a dry run naming the count and
        the message unless confirmed; otherwise add, commit and push in that order, the
        first failure ending the call with `Git operation failed`. Once `git add .` has
        gone through the tree reads as `staged`, which the environment supplies (staging
        moves untracked files into `created`); a committed tree is clean afterwards. */
    method CommitAndPush(message: string, confirmed: Option<bool>, failure: Option<Failure>, staged: RawStatus)
      returns (r: Result<CommitPushResult, string>)
      modifies this
      ensures var s := StatusOf(old(status));
        match Decide(s.hasChanges, Confirmed(confirmed))
        case NothingToCommit =>
          r == Ok(CommitPushResult(true, false, NoChangesMessage)) && ops == old(ops) && status == old(status)
        case DryRun =>
          r == Ok(CommitPushResult(false, true, DryRunMessage(|s.files|, message))) &&
          ops == old(ops) && status == old(status)
        case Execute =>
          ops == old(ops) + Issued(message, remote, branch, failure) &&
          (failure.None? ==> r == Ok(CommitPushResult(true, false, SuccessMessage(message))) && status == Clean) &&
          (failure.Some? ==> r == Err(FailureMessage(failure.value.text)) &&
                             status == match failure.value.step
                                       case AddStep => old(status)
                                       case CommitStep => staged
                                       case PushStep => Clean)
    {
      var s := GetStatus();
      if !s.hasChanges {
        return Ok(CommitPushResult(true, false, NoChangesMessage));
      }
      if !Confirmed(confirmed) {
        return Ok(CommitPushResult(false, true, DryRunMessage(|s.files|, message)));
      }
      ops := ops + [Add(".")];
      if failure.Some? && failure.value.step == AddStep {
        return Err(FailureMessage(failure.value.text));
      }
      status := staged;
      ops := ops + [Commit(message)];
      if failure.Some? && failure.value.step == CommitStep {
        return Err(FailureMessage(failure.value.text));
      }
      status := Clean;
      ops := ops + [Push(remote, branch)];
      if failure.Some? {
        return Err(FailureMessage(failure.value.text));
      }
      r := Ok(CommitPushResult(true, false, SuccessMessage(message)));
    }

    /** Two unconfirmed calls in a row on a changed tree give the same dry run and leave
        the repository as it was. */
    method RepeatDryRun(message: string) returns (r1: Result<CommitPushResult, string>, r2: Result<CommitPushResult, string>)
      requires |status.files| > 0
      modifies this
      ensures r1 == r2 && r1.Ok? && r1.value.isDryRun && !r1.value.success
      ensures status == old(status) && ops == old(ops)
    {
      r1 := CommitAndPush(message, None, None, Clean);
      r2 := CommitAndPush(message, Some(false), None, Clean);
    }
  }

  /** The gate's three outcomes, each in both directions. */
  lemma DecideIff(hasChanges: bool, confirmed: bool)
    ensures Decide(hasChanges, confirmed) == NothingToCommit <==> !hasChanges
    ensures Decide(hasChanges, confirmed) == DryRun <==> hasChanges && !confirmed
    ensures Decide(hasChanges, confirmed) == Execute <==> hasChanges && confirmed
  {
  }

  /** A path both modified and a rename destination is listed twice. */
  lemma StatusKeepsDuplicates()
    ensures StatusOf(RawStatus([], ["a.mdx"], [], [Rename("b.mdx", "a.mdx")], ["a.mdx", "a.mdx"])).files == ["a.mdx", "a.mdx"]
  {
    var s := StatusOf(RawStatus([], ["a.mdx"], [], [Rename("b.mdx", "a.mdx")], ["a.mdx", "a.mdx"]));
    assert s.files[0] == "a.mdx" && s.files[1] == "a.mdx";
  }

  /** The longest prefix of decimal digits. */
  function LeadingDigits(s: string): (d: string)
    ensures |d| <= |s| && d == s[..|d|]
    ensures forall i :: 0 <= i < |d| ==> '0' <= d[i] <= '9'
  {
    if s == [] || !('0' <= s[0] <= '9') then [] else [s[0]] + LeadingDigits(s[1..])
  }

  lemma {:induction false} LeadingDigitsOf(d: string, rest: string)
    requires forall i :: 0 <= i < |d| ==> '0' <= d[i] <= '9'
    requires rest != [] && !('0' <= rest[0] <= '9')
    ensures LeadingDigits(d + rest) == d
  {
    if d == [] {
      assert d + rest == rest;
    } else {
      assert (d + rest)[1..] == d[1..] + rest;
      LeadingDigitsOf(d[1..], rest);
    }
  }

  /** The file count can be read back off a dry-run message, and so can the commit
      message, so the message contains both. */
  lemma DryRunMessageMentions(count: nat, message: string)
    ensures var m := DryRunMessage(count, message);
      StartsWith(m, DryRunPrefix) &&
      DigitsValue(LeadingDigits(m[|DryRunPrefix|..])) == count &&
      m[|m| - |DryRunSuffix| - |message|..|m| - |DryRunSuffix|] == message
  {
    var m := DryRunMessage(count, message);
    var n := NatToString(count);
    var rest := DryRunMiddle + message + DryRunSuffix;
    DryRunMessageSplit(n, message);
    assert m[|DryRunPrefix|..] == n + rest;
    LeadingDigitsOf(n, rest);
    NatToStringValue(count);
    MiddleSlice(DryRunPrefix + n + DryRunMiddle, message, DryRunSuffix);
  }

  /** The message after its fixed prefix: the count, then the rest. */
  lemma DryRunMessageSplit(n: string, message: string)
    ensures DryRunPrefix + n + DryRunMiddle + message + DryRunSuffix ==
      DryRunPrefix + (n + (DryRunMiddle + message + DryRunSuffix))
  {
    var a := DryRunPrefix + n;
    ConcatAssoc(a, DryRunMiddle, message);
    ConcatAssoc(a, DryRunMiddle + message, DryRunSuffix);
    ConcatAssoc(DryRunPrefix, n, DryRunMiddle + message + DryRunSuffix);
  }

  lemma MiddleSlice(x: string, y: string, z: string)
    ensures var m := x + y + z; m[|m| - |z| - |y|..|m| - |z|] == y
  {
    var m := x + y + z;
    assert |m| - |z| - |y| == |x|;
    assert m[|x|..|x| + |y|] == y;
  }
}
