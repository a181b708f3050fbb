/**
 * The pure logic of src/utils/git.ts: branch-name sanitising, the repository
 * name, the parser of `git worktree list --porcelain`, the lookup of the
 * worktree holding the working directory, the main worktree path, and the
 * git and install commands the two flows run.
 */
module Git {
  import opened Wrappers
  import opened Text
  import opened Paths

  /** One worktree as the porcelain listing describes it. `head` is absent when
      the record had no `HEAD` line; `branch` is absent (`null`) when it had no
      `branch` line, as for a detached HEAD. */
  datatype WorktreeInfo = WorktreeInfo(path: string, head: Option<string>, branch: Option<string>)

  // ---------------------------------------------------------------------------
  // Branch names and the repository name

  /** `sanitizeBranchForDir`: every `/` becomes `-`, nothing else changes. */
  function SanitizeBranchForDir(branch: string): (r: string)
    ensures |r| == |branch|
    ensures forall k :: 0 <= k < |branch| ==> r[k] == (if branch[k] == '/' then '-' else branch[k])
  {
    if branch == [] then []
    else [if branch[0] == '/' then '-' else branch[0]] + SanitizeBranchForDir(branch[1..])
  }

  /** The sanitised name never holds a `/`, so it is a single path segment. */
  lemma SanitizedHasNoSlash(branch: string)
    ensures '/' !in SanitizeBranchForDir(branch)
  {
  }

  /** Sanitising twice is sanitising once; a name without `/` is left alone. */
  lemma SanitizeIdempotent(branch: string)
    ensures SanitizeBranchForDir(SanitizeBranchForDir(branch)) == SanitizeBranchForDir(branch)
    ensures '/' !in branch ==> SanitizeBranchForDir(branch) == branch
  {
  }

  /** The cases of src/utils/git.test.ts. */
  lemma SanitizeExamples(branch: string, expected: string)
    requires || (branch == "feat/new-feature" && expected == "feat-new-feature")
             || (branch == "feat/ui/button" && expected == "feat-ui-button")
             || (branch == "feature-branch" && expected == "feature-branch")
             || (branch == "" && expected == "")
             || (branch == "a" && expected == "a")
             || (branch == "feature/" && expected == "feature-")
             || (branch == "/feature" && expected == "-feature")
    ensures SanitizeBranchForDir(branch) == expected
  {
    SanitizeAgrees(branch, expected);
  }

  /** A name that agrees with the sanitiser's rule at every position is its result. */
  lemma SanitizeAgrees(branch: string, expected: string)
    requires |expected| == |branch|
    requires forall k :: 0 <= k < |branch| ==> expected[k] == (if branch[k] == '/' then '-' else branch[k])
    ensures SanitizeBranchForDir(branch) == expected
  {
  }

  /** `getRepoName` given the root: `root.split("/").pop() || root`. */
  function RepoName(root: string): (r: string)
    ensures r == "" ==> root == ""
    ensures r == root || ('/' !in r && |r| < |root| && root[|root| - |r|..] == r && root[|root| - |r| - 1] == '/')
    ensures '/' !in root ==> r == root
    ensures root != "" && root[|root| - 1] == '/' ==> r == root
  {
    var last := LastSegment(root);
    if last != "" then last else root
  }

  /** For a root as git prints it, the repository name is its last directory. */
  lemma RepoNameOfRoot(parent: string, name: string)
    requires name != "" && '/' !in name
    ensures RepoName(parent + "/" + name) == name
  {
    LastSegmentOfChild(parent, name);
  }

  // ---------------------------------------------------------------------------
  // The commands the flows run

  /** One external command of `ga` or `gd`. */
  datatype Effect =
    | CreateWorktree(path: string, branch: string, base: Option<string>)
    | InstallDependencies(dir: string)
    | RemoveWorktree(path: string)
    | DeleteBranch(branch: string, cwd: string)
  {
    /** The command line it runs; `createWorktree` passes the base only when it
        is a non-empty string. */
    function Argv(): seq<string> {
      match this
      case CreateWorktree(path, branch, base) =>
        if base.Some? && base.value != "" then ["git", "worktree", "add", "-b", branch, path, base.value]
        else ["git", "worktree", "add", "-b", branch, path]
      case InstallDependencies(_) => ["bun", "install"]
      case RemoveWorktree(path) => ["git", "worktree", "remove", path, "--force"]
      case DeleteBranch(branch, _) => ["git", "branch", "-D", branch]
    }
  }

  /** An empty base (`--base=`) creates the branch at the current HEAD, exactly
      as no base does; any other base is the last argument of `git worktree add`. */
  lemma EmptyBaseIsHead(path: string, branch: string, base: string)
    ensures CreateWorktree(path, branch, None).Argv() == ["git", "worktree", "add", "-b", branch, path]
    ensures CreateWorktree(path, branch, Some("")).Argv() == CreateWorktree(path, branch, None).Argv()
    ensures base != "" ==> CreateWorktree(path, branch, Some(base)).Argv() == ["git", "worktree", "add", "-b", branch, path, base]
  {
  }

  // ---------------------------------------------------------------------------
  // The porcelain parser (`listWorktrees`)

  const WorktreePrefix := "worktree "
  const HeadPrefix := "HEAD "
  const BranchPrefix := "branch "
  const HeadsRef := "refs/heads/"

  /** The record being filled in (`Partial<WorktreeInfo>`); `{}` is `NoRecord`. */
  datatype Current = Current(path: Option<string>, head: Option<string>, branch: Option<string>)

  const NoRecord := Current(None, None, None)

  /** `current.path` is truthy: present and not empty. */
  predicate HasPath(c: Current) {
    c.path.Some? && c.path.value != ""
  }

  function ToInfo(c: Current): WorktreeInfo
    requires c.path.Some?
  {
    WorktreeInfo(c.path.value, c.head, c.branch)
  }

  /** What closing the current record appends to the output. */
  function Emit(c: Current): seq<WorktreeInfo> {
    if HasPath(c) then [ToInfo(c)] else []
  }

  /** The branch a `branch ` line names: its remainder with the first
      `refs/heads/` removed. */
  function BranchValue(line: string): string
    requires StartsWith(line, BranchPrefix)
  {
    ReplaceFirst(line[|BranchPrefix|..], HeadsRef, "")
  }

  /** The usual line `branch refs/heads/<name>` gives `<name>`. */
  lemma BranchValueOfRef(name: string)
    ensures StartsWith(BranchPrefix + HeadsRef + name, BranchPrefix)
    ensures BranchValue(BranchPrefix + HeadsRef + name) == name
  {
    var line := BranchPrefix + HeadsRef + name;
    assert line[..|BranchPrefix|] == BranchPrefix;
    assert line[|BranchPrefix|..] == HeadsRef + name;
    ReplaceFirstOfPrefix(HeadsRef, name);
  }

  /** The parser's state between two lines: records emitted so far and the open one. */
  datatype ParseState = ParseState(worktrees: seq<WorktreeInfo>, current: Current)

  const Start := ParseState([], NoRecord)

  /** One iteration of the line loop (src/utils/git.ts:74-89). */
  function Step(st: ParseState, line: string): ParseState {
    if StartsWith(line, WorktreePrefix) then
      ParseState(st.worktrees + Emit(st.current), Current(Some(line[|WorktreePrefix|..]), None, None))
    else if StartsWith(line, HeadPrefix) then
      st.(current := st.current.(head := Some(line[|HeadPrefix|..])))
    else if StartsWith(line, BranchPrefix) then
      st.(current := st.current.(branch := Some(BranchValue(line))))
    else if line == "" && HasPath(st.current) then
      ParseState(st.worktrees + Emit(st.current), NoRecord)
    else
      st
  }

  /** The loop run over `lines` from state `st`. */
  function RunFrom(st: ParseState, lines: seq<string>): ParseState
    decreases |lines|
  {
    if lines == [] then st else RunFrom(Step(st, lines[0]), lines[1..])
  }

  /** The final flush (src/utils/git.ts:91-93). */
  function Finish(st: ParseState): seq<WorktreeInfo> {
    st.worktrees + Emit(st.current)
  }

  /** The records the loop produces from `lines`. */
  function ParseLines(lines: seq<string>): seq<WorktreeInfo> {
    Finish(RunFrom(Start, lines))
  }

  /** `result.text().trim().split("\n")` */
  function Lines(output: string): seq<string> {
    Split(Trim(output), '\n')
  }

  /** Running the loop from index `i` is one step and then the run from `i + 1`. */
  lemma RunFromUnfold(st: ParseState, lines: seq<string>, i: nat)
    requires i < |lines|
    ensures RunFrom(st, lines[i..]) == RunFrom(Step(st, lines[i]), lines[i + 1..])
  {
  }

  /** `listWorktrees`, given the text git printed. */
  method ListWorktrees(output: string) returns (worktrees: seq<WorktreeInfo>)
    ensures worktrees == ParseLines(Lines(output))
  {
    var lines := Split(Trim(output), '\n');
    worktrees := [];
    var current := NoRecord;
    var i := 0;
    while i < |lines|
      invariant 0 <= i <= |lines|
      invariant RunFrom(Start, lines) == RunFrom(ParseState(worktrees, current), lines[i..])
    {
      var line := lines[i];
      ghost var before := ParseState(worktrees, current);
      RunFromUnfold(before, lines, i);
      if StartsWith(line, WorktreePrefix) {
        if HasPath(current) {
          worktrees := worktrees + [ToInfo(current)];
        }
        current := Current(Some(line[|WorktreePrefix|..]), None, None);
      } else if StartsWith(line, HeadPrefix) {
        current := current.(head := Some(line[|HeadPrefix|..]));
      } else if StartsWith(line, BranchPrefix) {
        current := current.(branch := Some(BranchValue(line)));
      } else if line == "" {
        if HasPath(current) {
          worktrees := worktrees + [ToInfo(current)];
          current := NoRecord;
        }
      }
      assert ParseState(worktrees, current) == Step(before, line);
      i := i + 1;
    }
    if HasPath(current) {
      worktrees := worktrees + [ToInfo(current)];
    }
  }

  // ---------------------------------------------------------------------------
  // A block-structured reading of the listing, against which the loop is proved

  predicate IsWorktreeLine(line: string) {
    StartsWith(line, WorktreePrefix)
  }

  /** A blank line or the next `worktree ` line closes the open record. */
  predicate ClosesRecord(line: string) {
    line == "" || IsWorktreeLine(line)
  }

  /** The text after `worktree `. */
  function PathOf(line: string): string
    requires IsWorktreeLine(line)
  {
    line[|WorktreePrefix|..]
  }

  /** The first index at or after `i` of a line that closes a record, or the end. */
  function BlockEnd(lines: seq<string>, i: nat): (e: nat)
    requires i <= |lines|
    ensures i <= e <= |lines|
    ensures forall k :: i <= k < e ==> !ClosesRecord(lines[k])
    ensures e < |lines| ==> ClosesRecord(lines[e])
    decreases |lines| - i
  {
    if i == |lines| || ClosesRecord(lines[i]) then i else BlockEnd(lines, i + 1)
  }

  /** The index of the last line of `body` starting with `prefix`, if any. */
  function LastWith(body: seq<string>, prefix: string): (r: Option<nat>)
    ensures r.None? <==> forall k :: 0 <= k < |body| ==> !StartsWith(body[k], prefix)
    ensures r.Some? ==> r.value < |body| && StartsWith(body[r.value], prefix)
    ensures r.Some? ==> forall m :: r.value < m < |body| ==> !StartsWith(body[m], prefix)
  {
    if body == [] then None
    else
      var rest := LastWith(body[1..], prefix);
      assert forall k :: 0 < k < |body| ==> body[k] == body[1..][k - 1];
      if rest.Some? then Some(rest.value + 1)
      else if StartsWith(body[0], prefix) then Some(0)
      else None
  }

  /** The commit of a record's body: that of its last `HEAD ` line, if any. */
  function HeadOf(body: seq<string>): Option<string> {
    match LastWith(body, HeadPrefix)
    case None => None
    case Some(k) => Some(body[k][|HeadPrefix|..])
  }

  /** The branch of a record's body: that of its last `branch ` line, or `null`
      when it has none. */
  function BranchOf(body: seq<string>): Option<string> {
    match LastWith(body, BranchPrefix)
    case None => None
    case Some(k) => Some(BranchValue(body[k]))
  }

  /** A record's head is the value of its last `HEAD ` line, and absent exactly
      when it has none. */
  lemma HeadOfLast(body: seq<string>)
    ensures HeadOf(body).None? <==> forall k :: 0 <= k < |body| ==> !StartsWith(body[k], HeadPrefix)
    ensures HeadOf(body).Some? ==> exists k :: (0 <= k < |body| && StartsWith(body[k], HeadPrefix)
              && HeadOf(body).value == body[k][|HeadPrefix|..]
              && forall m :: k < m < |body| ==> !StartsWith(body[m], HeadPrefix))
  {
    var r := LastWith(body, HeadPrefix);
    if r.Some? {
      var k := r.value;
      assert HeadOf(body).value == body[k][|HeadPrefix|..];
    }
  }

  /** A record's branch comes from its last `branch ` line, and is null exactly
      when it has none. */
  lemma BranchOfLast(body: seq<string>)
    ensures BranchOf(body).None? <==> forall k :: 0 <= k < |body| ==> !StartsWith(body[k], BranchPrefix)
    ensures BranchOf(body).Some? ==> exists k :: (0 <= k < |body| && StartsWith(body[k], BranchPrefix)
              && BranchOf(body).value == BranchValue(body[k])
              && forall m :: k < m < |body| ==> !StartsWith(body[m], BranchPrefix))
  {
    var r := LastWith(body, BranchPrefix);
    if r.Some? {
      var k := r.value;
      assert BranchOf(body).value == BranchValue(body[k]);
    }
  }

  /** The record that the `worktree ` line at index `j` opens: its path, and the
      `HEAD` and `branch` lines up to the line that closes it. */
  function BlockRecord(lines: seq<string>, j: nat): WorktreeInfo
    requires j < |lines| && IsWorktreeLine(lines[j])
  {
    var body := lines[j + 1..BlockEnd(lines, j + 1)];
    WorktreeInfo(PathOf(lines[j]), HeadOf(body), BranchOf(body))
  }

  /** The records of `lines[i..]`, block by block: every `worktree ` line with a
      non-empty path gives one record; lines outside a block are ignored. */
  function RecordsFrom(lines: seq<string>, i: nat): seq<WorktreeInfo>
    requires i <= |lines|
    decreases |lines| - i
  {
    if i == |lines| then []
    else if !IsWorktreeLine(lines[i]) then RecordsFrom(lines, i + 1)
    else
      (if PathOf(lines[i]) != "" then [BlockRecord(lines, i)] else [])
      + RecordsFrom(lines, BlockEnd(lines, i + 1))
  }

  function Records(lines: seq<string>): seq<WorktreeInfo> {
    RecordsFrom(lines, 0)
  }

  /** No record is open, or the open one has an empty path and will never be emitted. */
  predicate Idle(c: Current) {
    !HasPath(c)
  }

  /** What a record's body lines do to an open record. */
  function Overlay(c: Current, body: seq<string>): Current {
    Current(c.path, Latest(HeadOf(body), c.head), Latest(BranchOf(body), c.branch))
  }

  /** No line starts with both `HEAD ` and `branch `. */
  lemma PrefixesDisjoint(line: string)
    ensures !(StartsWith(line, HeadPrefix) && StartsWith(line, BranchPrefix))
  {
    if StartsWith(line, HeadPrefix) {
      assert line[0] == HeadPrefix[0];
    }
  }

  /** `HeadOf` and `BranchOf` read from the front: a later line overrides the first. */
  lemma OfCons(body: seq<string>)
    requires body != []
    ensures HeadOf(body) == Latest(HeadOf(body[1..]),
              if StartsWith(body[0], HeadPrefix) then Some(body[0][|HeadPrefix|..]) else None)
    ensures BranchOf(body) == Latest(BranchOf(body[1..]),
              if StartsWith(body[0], BranchPrefix) then Some(BranchValue(body[0])) else None)
  {
  }

  /** Body lines only fill in `HEAD` and `branch`, the last of each winning. */
  lemma {:induction false} RunBody(lines: seq<string>, j: nat, e: nat, out: seq<WorktreeInfo>, c: Current)
    requires j <= e <= |lines|
    requires forall k :: j <= k < e ==> !ClosesRecord(lines[k])
    ensures RunFrom(ParseState(out, c), lines[j..]) == RunFrom(ParseState(out, Overlay(c, lines[j..e])), lines[e..])
    decreases e - j
  {
    if j == e {
      assert lines[j..e] == [];
    } else {
      var line := lines[j];
      RunFromUnfold(ParseState(out, c), lines, j);
      var c1 := Step(ParseState(out, c), line).current;
      assert Step(ParseState(out, c), line) == ParseState(out, c1);
      RunBody(lines, j + 1, e, out, c1);
      var body := lines[j..e];
      assert body[1..] == lines[j + 1..e];
      assert body[0] == line;
      OfCons(body);
      PrefixesDisjoint(line);
      assert Overlay(c1, lines[j + 1..e]) == Overlay(c, body);
    }
  }

  /** A `worktree ` line and its body leave the block's record open. */
  lemma RunOpenBlock(lines: seq<string>, i: nat, out: seq<WorktreeInfo>, c: Current) returns (cur: Current)
    requires i < |lines| && IsWorktreeLine(lines[i])
    requires Idle(c)
    ensures RunFrom(ParseState(out, c), lines[i..]) == RunFrom(ParseState(out, cur), lines[BlockEnd(lines, i + 1)..])
    ensures Emit(cur) == if PathOf(lines[i]) != "" then [BlockRecord(lines, i)] else []
    ensures Idle(cur) <==> PathOf(lines[i]) == ""
  {
    var p := PathOf(lines[i]);
    var c0 := Current(Some(p), None, None);
    RunFromUnfold(ParseState(out, c), lines, i);
    assert Step(ParseState(out, c), lines[i]) == ParseState(out, c0);
    var e := BlockEnd(lines, i + 1);
    RunBody(lines, i + 1, e, out, c0);
    cur := Overlay(c0, lines[i + 1..e]);
  }

  /** The loop, started with no emittable record open, appends exactly the
      block-structured records. */
  lemma {:induction false} RunMatchesRecords(lines: seq<string>, i: nat, out: seq<WorktreeInfo>, c: Current)
    requires i <= |lines|
    requires Idle(c)
    ensures Finish(RunFrom(ParseState(out, c), lines[i..])) == out + RecordsFrom(lines, i)
    decreases |lines| - i, 1
  {
    if i == |lines| {
      assert lines[i..] == [];
    } else if !IsWorktreeLine(lines[i]) {
      RunFromUnfold(ParseState(out, c), lines, i);
      var st := Step(ParseState(out, c), lines[i]);
      IdleStep(out, c, lines[i]);
      RunMatchesRecords(lines, i + 1, out, st.current);
    } else {
      RunMatchesBlock(lines, i, out, c);
    }
  }

  /** The case of `RunMatchesRecords` where line `i` opens a block. */
  lemma {:induction false} RunMatchesBlock(lines: seq<string>, i: nat, out: seq<WorktreeInfo>, c: Current)
    requires i < |lines| && IsWorktreeLine(lines[i])
    requires Idle(c)
    ensures Finish(RunFrom(ParseState(out, c), lines[i..])) == out + RecordsFrom(lines, i)
    decreases |lines| - i, 0
  {
    var e := BlockEnd(lines, i + 1);
    var rec := if PathOf(lines[i]) != "" then [BlockRecord(lines, i)] else [];
    var cur := RunOpenBlock(lines, i, out, c);
    RecordsFromAtBlock(lines, i);
    CloseBlock(lines, e, out, cur, rec);
    Regroup(out, rec, RecordsFrom(lines, e));
  }

  /** Outside a block, a line other than `worktree ` emits nothing and leaves no
      emittable record open. */
  lemma IdleStep(out: seq<WorktreeInfo>, c: Current, line: string)
    requires Idle(c) && !IsWorktreeLine(line)
    ensures Step(ParseState(out, c), line).worktrees == out
    ensures Idle(Step(ParseState(out, c), line).current)
  {
  }

  lemma RecordsFromAtBlock(lines: seq<string>, i: nat)
    requires i < |lines| && IsWorktreeLine(lines[i])
    ensures RecordsFrom(lines, i)
         == (if PathOf(lines[i]) != "" then [BlockRecord(lines, i)] else []) + RecordsFrom(lines, BlockEnd(lines, i + 1))
  {
  }

  /** Where a block ends (end of input, blank line or next `worktree ` line) its
      record is emitted once, and the loop is idle again. */
  lemma {:induction false} CloseBlock(lines: seq<string>, e: nat, out: seq<WorktreeInfo>, cur: Current, rec: seq<WorktreeInfo>)
    requires e <= |lines|
    requires e < |lines| ==> ClosesRecord(lines[e])
    requires Emit(cur) == rec
    ensures Finish(RunFrom(ParseState(out, cur), lines[e..])) == out + rec + RecordsFrom(lines, e)
    decreases |lines| - e, 3
  {
    if e == |lines| {
      assert lines[e..] == [];
    } else if lines[e] == "" {
      CloseAtBlank(lines, e, out, cur, rec);
    } else {
      CloseAtNext(lines, e, out, cur, rec);
    }
  }

  /** A blank line emits the open record and leaves the loop idle. */
  lemma {:induction false} CloseAtBlank(lines: seq<string>, e: nat, out: seq<WorktreeInfo>, cur: Current, rec: seq<WorktreeInfo>)
    requires e < |lines| && lines[e] == ""
    requires Emit(cur) == rec
    ensures Finish(RunFrom(ParseState(out, cur), lines[e..])) == out + rec + RecordsFrom(lines, e)
    decreases |lines| - e, 2
  {
    RunFromUnfold(ParseState(out, cur), lines, e);
    var st := Step(ParseState(out, cur), lines[e]);
    assert st.worktrees == out + rec && Idle(st.current);
    assert RecordsFrom(lines, e) == RecordsFrom(lines, e + 1);
    RunMatchesRecords(lines, e + 1, out + rec, st.current);
  }

  /** The next `worktree ` line emits the open record exactly as if it had
      been emitted already. */
  lemma {:induction false} CloseAtNext(lines: seq<string>, e: nat, out: seq<WorktreeInfo>, cur: Current, rec: seq<WorktreeInfo>)
    requires e < |lines| && IsWorktreeLine(lines[e])
    requires Emit(cur) == rec
    ensures Finish(RunFrom(ParseState(out, cur), lines[e..])) == out + rec + RecordsFrom(lines, e)
    decreases |lines| - e, 2
  {
    EmitBeforeOpen(out, cur, rec, lines[e]);
    RunFromSameStep(ParseState(out, cur), ParseState(out + rec, NoRecord), lines, e);
    RunMatchesRecords(lines, e, out + rec, NoRecord);
  }

  /** A `worktree ` line emits the open record before opening the next one. */
  lemma EmitBeforeOpen(out: seq<WorktreeInfo>, cur: Current, rec: seq<WorktreeInfo>, line: string)
    requires IsWorktreeLine(line) && Emit(cur) == rec
    ensures Step(ParseState(out, cur), line) == Step(ParseState(out + rec, NoRecord), line)
  {
    assert out + rec + Emit(NoRecord) == out + rec;
  }

  /** Two states that agree after the next step agree on the rest of the run. */
  lemma RunFromSameStep(s1: ParseState, s2: ParseState, lines: seq<string>, i: nat)
    requires i < |lines| && Step(s1, lines[i]) == Step(s2, lines[i])
    ensures RunFrom(s1, lines[i..]) == RunFrom(s2, lines[i..])
  {
    RunFromUnfold(s1, lines, i);
    RunFromUnfold(s2, lines, i);
  }

  lemma Regroup<T>(a: seq<T>, b: seq<T>, c: seq<T>)
    ensures a + b + c == a + (b + c)
  {
  }

  /** The line loop of `listWorktrees` produces exactly the block-structured records. */
  lemma ParseMatchesRecords(lines: seq<string>)
    ensures ParseLines(lines) == Records(lines)
  {
    RunMatchesRecords(lines, 0, [], NoRecord);
    assert lines[0..] == lines;
  }

  // ---------------------------------------------------------------------------
  // What the parser promises, in terms of the listing's lines

  /** A `worktree ` line whose path is not empty: it opens a record that is emitted. */
  predicate IsRecordLine(lines: seq<string>, j: int) {
    0 <= j < |lines| && IsWorktreeLine(lines[j]) && PathOf(lines[j]) != ""
  }

  /** The indices, at or after `i`, of the lines that open emitted records, in order. */
  function RecordLinesFrom(lines: seq<string>, i: nat): (r: seq<nat>)
    requires i <= |lines|
    ensures forall k :: 0 <= k < |r| ==> i <= r[k] && IsRecordLine(lines, r[k])
    ensures forall k, m :: 0 <= k < m < |r| ==> r[k] < r[m]
    ensures forall j :: i <= j && IsRecordLine(lines, j) ==> j in r
    decreases |lines| - i
  {
    if i == |lines| then []
    else if IsRecordLine(lines, i) then [i] + RecordLinesFrom(lines, i + 1)
    else RecordLinesFrom(lines, i + 1)
  }

  function RecordLines(lines: seq<string>): seq<nat> {
    RecordLinesFrom(lines, 0)
  }

  /** The records opened at the given line indices, in that order. */
  function BlockRecords(lines: seq<string>, idx: seq<nat>): seq<WorktreeInfo>
    requires forall k :: 0 <= k < |idx| ==> IsRecordLine(lines, idx[k])
  {
    if idx == [] then []
    else
      assert IsRecordLine(lines, idx[0]);
      [BlockRecord(lines, idx[0])] + BlockRecords(lines, idx[1..])
  }

  /** Lines inside a block open no record. */
  lemma {:induction false} RecordLinesSkip(lines: seq<string>, i: nat, e: nat)
    requires i <= e <= |lines|
    requires forall k :: i <= k < e ==> !IsWorktreeLine(lines[k])
    ensures RecordLinesFrom(lines, i) == RecordLinesFrom(lines, e)
    decreases e - i
  {
    if i < e {
      RecordLinesSkipOne(lines, i);
      RecordLinesSkip(lines, i + 1, e);
    }
  }

  lemma RecordLinesSkipOne(lines: seq<string>, i: nat)
    requires i < |lines| && !IsWorktreeLine(lines[i])
    ensures RecordLinesFrom(lines, i) == RecordLinesFrom(lines, i + 1)
  {
    assert !IsRecordLine(lines, i);
  }

  lemma {:induction false} RecordsFromByLine(lines: seq<string>, i: nat)
    requires i <= |lines|
    ensures RecordsFrom(lines, i) == BlockRecords(lines, RecordLinesFrom(lines, i))
    decreases |lines| - i
  {
    if i < |lines| {
      if !IsWorktreeLine(lines[i]) {
        RecordsFromByLine(lines, i + 1);
      } else {
        var e := BlockEnd(lines, i + 1);
        RecordLinesSkip(lines, i + 1, e);
        RecordsFromByLine(lines, e);
        if PathOf(lines[i]) != "" {
          var idx := RecordLinesFrom(lines, i);
          assert idx == [i] + RecordLinesFrom(lines, e);
          assert idx[1..] == RecordLinesFrom(lines, e);
        }
      }
    }
  }

  /** The parser emits one record per `worktree ` line with a non-empty path, in
      the order of those lines, and the k-th record is the block that the k-th
      such line opens: its path is the text after `worktree `, its `head` and
      `branch` come from the lines up to the next blank or `worktree ` line. */
  lemma ParsedRecordsByLine(lines: seq<string>)
    ensures ParseLines(lines) == BlockRecords(lines, RecordLines(lines))
  {
    ParseMatchesRecords(lines);
    RecordsFromByLine(lines, 0);
  }

  lemma {:induction false} BlockRecordsAt(lines: seq<string>, idx: seq<nat>, k: nat)
    requires forall m :: 0 <= m < |idx| ==> IsRecordLine(lines, idx[m])
    requires k < |idx|
    ensures |BlockRecords(lines, idx)| == |idx|
    ensures BlockRecords(lines, idx)[k] == BlockRecord(lines, idx[k])
    decreases k
  {
    if k > 0 {
      BlockRecordsAt(lines, idx[1..], k - 1);
    } else {
      BlockRecordsLength(lines, idx);
    }
  }

  lemma {:induction false} BlockRecordsLength(lines: seq<string>, idx: seq<nat>)
    requires forall m :: 0 <= m < |idx| ==> IsRecordLine(lines, idx[m])
    ensures |BlockRecords(lines, idx)| == |idx|
  {
    if idx != [] {
      BlockRecordsLength(lines, idx[1..]);
    }
  }

  /** Record by record: the k-th parsed worktree is the block of the k-th record
      line, so its path is that line's non-empty text after `worktree `. */
  lemma ParsedRecordAt(lines: seq<string>, k: nat)
    requires k < |RecordLines(lines)|
    ensures |ParseLines(lines)| == |RecordLines(lines)|
    ensures ParseLines(lines)[k] == BlockRecord(lines, RecordLines(lines)[k])
    ensures ParseLines(lines)[k].path == PathOf(lines[RecordLines(lines)[k]]) != ""
  {
    ParsedRecordsByLine(lines);
    BlockRecordsAt(lines, RecordLines(lines), k);
  }

  /** The number of records is the number of `worktree ` lines with a path. */
  lemma ParsedCount(lines: seq<string>)
    ensures |ParseLines(lines)| == |RecordLines(lines)|
  {
    ParsedRecordsByLine(lines);
    BlockRecordsLength(lines, RecordLines(lines));
  }

  // ---------------------------------------------------------------------------
  // The current and the main worktree

  /** `cwd === path || cwd.startsWith(path + "/")`: `cwd` is the worktree's
      directory or lies below it. */
  predicate IsWithin(cwd: string, path: string) {
    cwd == path || StartsWith(cwd, path + "/")
  }

  /** Containment is a prefix that ends at a `/` boundary, so `/a/b` does not
      contain `/a/bc`. */
  lemma IsWithinBoundary(cwd: string, path: string)
    ensures IsWithin(cwd, path) <==> StartsWith(cwd, path) && (|cwd| == |path| || cwd[|path|] == '/')
  {
  }

  /** The first worktree, in listing order, that holds `cwd`. */
  function CurrentOf(cwd: string, worktrees: seq<WorktreeInfo>): (r: Option<WorktreeInfo>)
    ensures r.None? <==> forall k :: 0 <= k < |worktrees| ==> !IsWithin(cwd, worktrees[k].path)
    ensures r.Some? ==> exists k :: (0 <= k < |worktrees| && r.value == worktrees[k]
              && IsWithin(cwd, worktrees[k].path)
              && forall j :: 0 <= j < k ==> !IsWithin(cwd, worktrees[j].path))
  {
    if worktrees == [] then None
    else if IsWithin(cwd, worktrees[0].path) then Some(worktrees[0])
    else
      var r := CurrentOf(cwd, worktrees[1..]);
      assert forall k :: 0 < k < |worktrees| ==> worktrees[k] == worktrees[1..][k - 1];
      r
  }

  /** `getCurrentWorktree`, given the working directory and the listing. */
  method CurrentWorktree(cwd: string, worktrees: seq<WorktreeInfo>) returns (r: Option<WorktreeInfo>)
    ensures r == CurrentOf(cwd, worktrees)
  {
    var i := 0;
    while i < |worktrees|
      invariant 0 <= i <= |worktrees|
      invariant CurrentOf(cwd, worktrees) == CurrentOf(cwd, worktrees[i..])
    {
      var wt := worktrees[i];
      assert worktrees[i..][1..] == worktrees[i + 1..];
      if cwd == wt.path || StartsWith(cwd, wt.path + "/") {
        return Some(wt);
      }
      i := i + 1;
    }
    return None;
  }

  /** `getMainWorktreePath`, given the listing and the repository root: the first
      record is the main worktree. */
  function MainWorktreePath(worktrees: seq<WorktreeInfo>, repoRoot: string): string {
    if |worktrees| > 0 then worktrees[0].path else repoRoot
  }

  /** The main worktree path is the path on the first `worktree ` line with a
      path; only a listing with no such line falls back to the root. */
  lemma MainPathIsFirstListed(lines: seq<string>, repoRoot: string)
    ensures RecordLines(lines) != [] ==>
              MainWorktreePath(ParseLines(lines), repoRoot) == PathOf(lines[RecordLines(lines)[0]]) != ""
    ensures RecordLines(lines) == [] ==> MainWorktreePath(ParseLines(lines), repoRoot) == repoRoot
  {
    ParsedCount(lines);
    if RecordLines(lines) != [] {
      ParsedRecordAt(lines, 0);
    }
  }

  /** Every parsed worktree has a non-empty path. */
  lemma ParsedPathsNonEmpty(lines: seq<string>)
    ensures forall k :: 0 <= k < |ParseLines(lines)| ==> ParseLines(lines)[k].path != ""
  {
    ParsedCount(lines);
    forall k | 0 <= k < |ParseLines(lines)|
      ensures ParseLines(lines)[k].path != ""
    {
      ParsedRecordAt(lines, k);
    }
  }
}
