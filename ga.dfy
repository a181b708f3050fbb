/**
 * src/commands/ga.ts: `ga <branch>` creates a sibling worktree
 * `<repo>--<sanitised branch>` on a new branch, optionally installs
 * dependencies, and prints the `cd` line that moves the shell into it.
 */
module Ga {
  import opened Wrappers
  import opened Text
  import Paths
  import opened Git
  import opened Shell
  import opened Process

  // ---------------------------------------------------------------------------
  // Arguments (`parseGaArgs`)

  /** The parsed options; `base` is the raw `--base` value. */
  datatype GaOptions = GaOptions(branch: string, noInstall: bool, base: Option<string>)

  /** The usage errors `parseGaArgs` reports before exiting with status 1. */
  datatype ArgError = BaseNeedsValue | UnknownOption(arg: string) | BranchRequired
  {
    function Message(): string {
      match this
      case BaseNeedsValue => "--base requires a branch name"
      case UnknownOption(arg) => "Unknown option: " + arg
      case BranchRequired => "Branch name required. Usage: ga <branch-name>"
    }
  }

  const NoInstallFlag := "--no-install"
  const BaseFlag := "--base"
  const BaseEq := "--base="

  predicate IsHelp(arg: string) {
    arg == "-h" || arg == "--help"
  }

  /** An argument that does not start with `-` names the branch. */
  predicate IsPositional(arg: string) {
    !StartsWith(arg, "-")
  }

  /** The parser as a recursive function of the position `i` and the values
      gathered so far; `--base` consumes the following argument, and a missing
      or empty value is an error. */
  function ParseFrom(args: seq<string>, i: nat, branch: Option<string>, noInstall: bool, base: Option<string>)
    : ArgsOutcome<GaOptions, ArgError>
    requires i <= |args|
    decreases |args| - i
  {
    if i == |args| then
      if branch.None? || branch.value == "" then Usage(BranchRequired)
      else Options(GaOptions(branch.value, noInstall, base))
    else
      var arg := args[i];
      if arg == NoInstallFlag then ParseFrom(args, i + 1, branch, true, base)
      else if arg == BaseFlag then
        if i + 1 == |args| || args[i + 1] == "" then Usage(BaseNeedsValue)
        else ParseFrom(args, i + 2, branch, noInstall, Some(args[i + 1]))
      else if StartsWith(arg, BaseEq) then ParseFrom(args, i + 1, branch, noInstall, Some(arg[|BaseEq|..]))
      else if IsHelp(arg) then Help
      else if IsPositional(arg) then ParseFrom(args, i + 1, Some(arg), noInstall, base)
      else Usage(UnknownOption(arg))
  }

  function ParseArgs(args: seq<string>): ArgsOutcome<GaOptions, ArgError> {
    ParseFrom(args, 0, None, false, None)
  }

  /** `parseGaArgs`: one pass over the arguments. */
  method ParseGaArgs(args: seq<string>) returns (r: ArgsOutcome<GaOptions, ArgError>)
    ensures r == ParseArgs(args)
  {
    var branch: Option<string> := None;
    var noInstall := false;
    var base: Option<string> := None;
    var i := 0;
    while i < |args|
      invariant 0 <= i <= |args|
      invariant ParseArgs(args) == ParseFrom(args, i, branch, noInstall, base)
    {
      var arg := args[i];
      if arg == NoInstallFlag {
        noInstall := true;
      } else if arg == BaseFlag {
        i := i + 1;
        // `args[++i]` is undefined past the end
        base := if i < |args| then Some(args[i]) else None;
        if base.None? || base.value == "" {
          return Usage(BaseNeedsValue);
        }
      } else if StartsWith(arg, BaseEq) {
        base := Some(arg[|BaseEq|..]);
      } else if IsHelp(arg) {
        return Help;
      } else if IsPositional(arg) {
        branch := Some(arg);
      } else {
        return Usage(UnknownOption(arg));
      }
      i := i + 1;
    }
    if branch.None? || branch.value == "" {
      return Usage(BranchRequired);
    }
    return Options(GaOptions(branch.value, noInstall, base));
  }

  /** A branch the parser accepts is one of the arguments, is non-empty and
      does not look like an option. */
  lemma {:induction false} ParsedBranchFrom(args: seq<string>, i: nat, branch: Option<string>, noInstall: bool, base: Option<string>)
    requires i <= |args|
    requires branch.Some? ==> branch.value in args && IsPositional(branch.value)
    requires noInstall ==> NoInstallFlag in args
    ensures var r := ParseFrom(args, i, branch, noInstall, base);
            r.Options? ==> r.value.branch != "" && r.value.branch in args && IsPositional(r.value.branch)
                           && (r.value.noInstall ==> NoInstallFlag in args)
    decreases |args| - i
  {
    if i < |args| {
      var arg := args[i];
      if arg == NoInstallFlag {
        ParsedBranchFrom(args, i + 1, branch, true, base);
      } else if arg == BaseFlag {
        if i + 1 < |args| && args[i + 1] != "" {
          ParsedBranchFrom(args, i + 2, branch, noInstall, Some(args[i + 1]));
        }
      } else if StartsWith(arg, BaseEq) {
        ParsedBranchFrom(args, i + 1, branch, noInstall, Some(arg[|BaseEq|..]));
      } else if !IsHelp(arg) && IsPositional(arg) {
        ParsedBranchFrom(args, i + 1, Some(arg), noInstall, base);
      }
    }
  }

  lemma ParsedBranchIsValid(args: seq<string>)
    ensures var r := ParseArgs(args);
            r.Options? ==> r.value.branch != "" && r.value.branch in args && !StartsWith(r.value.branch, "-")
                           && (r.value.noInstall ==> NoInstallFlag in args)
  {
    ParsedBranchFrom(args, 0, None, false, None);
  }

  // Without a separate `--base` argument, the outcome depends on the arguments
  // one by one: the first one that stops parsing decides, otherwise the last
  // positional argument is the branch, `--no-install` anywhere sets the flag and
  // the last `--base=` value is the base.

  /** An argument that ends parsing: help, or an option `ga` does not know. */
  predicate IsStop(arg: string) {
    IsHelp(arg) || (StartsWith(arg, "-") && arg != NoInstallFlag && arg != BaseFlag && !StartsWith(arg, BaseEq))
  }

  predicate IsBaseAssignment(arg: string) {
    StartsWith(arg, BaseEq)
  }

  /** The index of the first element satisfying `p`. */
  function FirstWhere(s: seq<string>, p: string -> bool): (r: Option<nat>)
    ensures r.None? <==> forall k :: 0 <= k < |s| ==> !p(s[k])
    ensures r.Some? ==> r.value < |s| && p(s[r.value]) && forall k :: 0 <= k < r.value ==> !p(s[k])
  {
    if s == [] then None
    else if p(s[0]) then Some(0)
    else match FirstWhere(s[1..], p)
      case None => (assert forall k :: 1 <= k < |s| ==> s[k] == s[1..][k - 1]; None)
      case Some(k) => (assert forall m :: 1 <= m < k + 1 ==> s[m] == s[1..][m - 1]; Some(k + 1))
  }

  /** The index of the last element satisfying `p`. */
  function LastWhere(s: seq<string>, p: string -> bool): (r: Option<nat>)
    ensures r.None? <==> forall k :: 0 <= k < |s| ==> !p(s[k])
    ensures r.Some? ==> r.value < |s| && p(s[r.value]) && forall m :: r.value < m < |s| ==> !p(s[m])
  {
    if s == [] then None
    else match LastWhere(s[1..], p)
      case Some(k) => (assert forall m :: k + 1 < m < |s| ==> s[m] == s[1..][m - 1]; Some(k + 1))
      case None => (assert forall k :: 1 <= k < |s| ==> s[k] == s[1..][k - 1]; if p(s[0]) then Some(0) else None)
  }

  /** The last positional argument. */
  function LastPositional(args: seq<string>): Option<string> {
    match LastWhere(args, IsPositional)
    case None => None
    case Some(k) => Some(args[k])
  }

  /** The value of the last `--base=` argument. */
  function LastBaseAssignment(args: seq<string>): Option<string> {
    match LastWhere(args, IsBaseAssignment)
    case None => None
    case Some(k) => Some(args[k][|BaseEq|..])
  }

  /** The outcome for the remaining arguments `rest`, given the values gathered
      before them, stated argument by argument. */
  function DeclaredFrom(rest: seq<string>, branch: Option<string>, noInstall: bool, base: Option<string>)
    : ArgsOutcome<GaOptions, ArgError>
  {
    match FirstWhere(rest, IsStop)
    case Some(k) => if IsHelp(rest[k]) then Help else Usage(UnknownOption(rest[k]))
    case None =>
      Conclude(Latest(LastPositional(rest), branch), noInstall || NoInstallFlag in rest, Latest(LastBaseAssignment(rest), base))
  }

  /** The end of parsing: the options, or the error for a missing or empty branch. */
  function Conclude(branch: Option<string>, noInstall: bool, base: Option<string>): ArgsOutcome<GaOptions, ArgError> {
    if branch.None? || branch.value == "" then Usage(BranchRequired)
    else Options(GaOptions(branch.value, noInstall, base))
  }

  function Declared(args: seq<string>): ArgsOutcome<GaOptions, ArgError> {
    DeclaredFrom(args, None, false, None)
  }

  lemma FirstWhereCons(arg: string, rest: seq<string>, p: string -> bool)
    requires !p(arg)
    ensures FirstWhere([arg] + rest, p) == match FirstWhere(rest, p) case None => None case Some(k) => Some(k + 1)
  {
    assert ([arg] + rest)[1..] == rest;
  }

  lemma LastWhereCons(arg: string, rest: seq<string>, p: string -> bool)
    ensures LastWhere([arg] + rest, p)
         == match LastWhere(rest, p) case Some(k) => Some(k + 1) case None => if p(arg) then Some(0) else None
  {
    assert ([arg] + rest)[1..] == rest;
  }

  lemma LastPositionalCons(arg: string, rest: seq<string>)
    ensures LastPositional([arg] + rest) == Latest(LastPositional(rest), if IsPositional(arg) then Some(arg) else None)
  {
    LastWhereCons(arg, rest, IsPositional);
    var s := [arg] + rest;
    assert forall k :: 0 <= k < |rest| ==> s[k + 1] == rest[k];
  }

  lemma LastBaseAssignmentCons(arg: string, rest: seq<string>)
    ensures LastBaseAssignment([arg] + rest)
         == Latest(LastBaseAssignment(rest), if IsBaseAssignment(arg) then Some(arg[|BaseEq|..]) else None)
  {
    LastWhereCons(arg, rest, IsBaseAssignment);
    var s := [arg] + rest;
    assert forall k :: 0 <= k < |rest| ==> s[k + 1] == rest[k];
  }

  /** Taking off one argument that neither stops parsing nor is `--base`
      moves its effect into the gathered values. */
  lemma DeclaredCons(arg: string, rest: seq<string>, branch: Option<string>, noInstall: bool, base: Option<string>)
    requires !IsStop(arg) && arg != BaseFlag
    ensures DeclaredFrom([arg] + rest, branch, noInstall, base)
         == DeclaredFrom(rest, if IsPositional(arg) then Some(arg) else branch,
                         noInstall || arg == NoInstallFlag,
                         if IsBaseAssignment(arg) then Some(arg[|BaseEq|..]) else base)
  {
    FirstWhereCons(arg, rest, IsStop);
    if FirstWhere(rest, IsStop).Some? {
      StoppedCons(arg, rest, branch, noInstall, base);
    } else {
      GatheredCons(arg, rest, branch, noInstall, base);
    }
  }

  lemma StoppedCons(arg: string, rest: seq<string>, branch: Option<string>, noInstall: bool, base: Option<string>)
    requires !IsStop(arg) && FirstWhere(rest, IsStop).Some?
    ensures forall b, n, bs :: DeclaredFrom([arg] + rest, branch, noInstall, base) == DeclaredFrom(rest, b, n, bs)
  {
    FirstWhereCons(arg, rest, IsStop);
    var k := FirstWhere(rest, IsStop).value;
    assert ([arg] + rest)[k + 1] == rest[k];
  }

  lemma GatheredCons(arg: string, rest: seq<string>, branch: Option<string>, noInstall: bool, base: Option<string>)
    requires !IsStop(arg) && FirstWhere(rest, IsStop).None?
    ensures DeclaredFrom([arg] + rest, branch, noInstall, base)
         == DeclaredFrom(rest, if IsPositional(arg) then Some(arg) else branch,
                         noInstall || arg == NoInstallFlag,
                         if IsBaseAssignment(arg) then Some(arg[|BaseEq|..]) else base)
  {
    var s := [arg] + rest;
    FirstWhereCons(arg, rest, IsStop);
    LastPositionalCons(arg, rest);
    LastBaseAssignmentCons(arg, rest);
    assert NoInstallFlag in s <==> arg == NoInstallFlag || NoInstallFlag in rest;
    var b := if IsPositional(arg) then Some(arg) else branch;
    var n := noInstall || arg == NoInstallFlag;
    var bs := if IsBaseAssignment(arg) then Some(arg[|BaseEq|..]) else base;
    assert DeclaredFrom(s, branch, noInstall, base)
        == Conclude(Latest(LastPositional(s), branch), noInstall || NoInstallFlag in s, Latest(LastBaseAssignment(s), base));
    assert DeclaredFrom(rest, b, n, bs)
        == Conclude(Latest(LastPositional(rest), b), n || NoInstallFlag in rest, Latest(LastBaseAssignment(rest), bs));
  }

  /** Reading one argument that neither stops parsing nor is `--base`. */
  lemma ParseStep(args: seq<string>, i: nat, branch: Option<string>, noInstall: bool, base: Option<string>)
    requires i < |args| && !IsStop(args[i]) && args[i] != BaseFlag
    ensures ParseFrom(args, i, branch, noInstall, base)
         == ParseFrom(args, i + 1, if IsPositional(args[i]) then Some(args[i]) else branch,
                      noInstall || args[i] == NoInstallFlag,
                      if IsBaseAssignment(args[i]) then Some(args[i][|BaseEq|..]) else base)
  {
    var arg := args[i];
    if arg == NoInstallFlag {
      assert !IsBaseAssignment(arg) by { assert arg[2] != BaseEq[2]; }
    }
  }

  lemma {:induction false} ParseFromDeclared(args: seq<string>, i: nat, branch: Option<string>, noInstall: bool, base: Option<string>)
    requires i <= |args|
    requires BaseFlag !in args[i..]
    ensures ParseFrom(args, i, branch, noInstall, base) == DeclaredFrom(args[i..], branch, noInstall, base)
    decreases |args| - i
  {
    if i < |args| {
      var arg := args[i];
      var rest := args[i + 1..];
      assert args[i..] == [arg] + rest;
      assert BaseFlag !in rest by {
        assert args[i..][1..] == rest;
      }
      if IsStop(arg) {
        assert FirstWhere(args[i..], IsStop) == Some(0);
      } else {
        var b := if IsPositional(arg) then Some(arg) else branch;
        var n := noInstall || arg == NoInstallFlag;
        var bs := if IsBaseAssignment(arg) then Some(arg[|BaseEq|..]) else base;
        ParseStep(args, i, branch, noInstall, base);
        DeclaredCons(arg, rest, branch, noInstall, base);
        ParseFromDeclared(args, i + 1, b, n, bs);
      }
    }
  }

  /** When no argument is a separate `--base`, parsing is decided by the first
      help or unknown option; failing that, the branch is the last positional
      argument (an empty one is an error), `--no-install` anywhere sets the
      flag, and the last `--base=` wins. */
  lemma ParseWithoutSeparateBase(args: seq<string>)
    requires BaseFlag !in args
    ensures ParseArgs(args) == Declared(args)
  {
    assert args[0..] == args;
    ParseFromDeclared(args, 0, None, false, None);
  }

  /** Without a separate `--base`, parsing exits with status 0 on help or on
      success, and with status 1 when an unknown option comes first or no
      non-empty branch is given. */
  lemma ParseExitStatus(args: seq<string>)
    requires BaseFlag !in args
    ensures ParseArgs(args).ExitCode()
         == match FirstWhere(args, IsStop)
            case Some(k) => (if IsHelp(args[k]) then 0 else 1)
            case None => (if LastPositional(args).None? || LastPositional(args).value == "" then 1 else 0)
  {
    ParseWithoutSeparateBase(args);
  }

  /** Parsing depends only on the arguments still to read. */
  lemma {:induction false} ParseFromSuffix(a: seq<string>, i: nat, c: seq<string>, j: nat,
                                           branch: Option<string>, noInstall: bool, base: Option<string>)
    requires i <= |a| && j <= |c| && a[i..] == c[j..]
    ensures ParseFrom(a, i, branch, noInstall, base) == ParseFrom(c, j, branch, noInstall, base)
    decreases |a| - i
  {
    assert |a| - i == |c| - j;
    if i < |a| {
      assert a[i] == a[i..][0] == c[j];
      assert a[i + 1..] == a[i..][1..] == c[j..][1..] == c[j + 1..];
      var arg := a[i];
      if arg == NoInstallFlag {
        ParseFromSuffix(a, i + 1, c, j + 1, branch, true, base);
      } else if arg == BaseFlag {
        if i + 1 < |a| {
          assert a[i + 1] == c[j + 1];
          assert a[i + 2..] == a[i + 1..][1..] == c[j + 2..];
          ParseFromSuffix(a, i + 2, c, j + 2, branch, noInstall, Some(a[i + 1]));
        }
      } else if StartsWith(arg, BaseEq) {
        ParseFromSuffix(a, i + 1, c, j + 1, branch, noInstall, Some(arg[|BaseEq|..]));
      } else if IsPositional(arg) {
        ParseFromSuffix(a, i + 1, c, j + 1, Some(arg), noInstall, base);
      }
    }
  }

  /** `--base X` and `--base=X` mean the same for a non-empty `X`, wherever
      they stand after arguments with no separate `--base`. */
  lemma {:induction false} BaseFormsAgreeFrom(pre: seq<string>, x: string, post: seq<string>, i: nat,
                                              branch: Option<string>, noInstall: bool, base: Option<string>)
    requires i <= |pre| && BaseFlag !in pre && x != ""
    ensures ParseFrom(pre + [BaseFlag, x] + post, i, branch, noInstall, base)
         == ParseFrom(pre + [BaseEq + x] + post, i, branch, noInstall, base)
    decreases |pre| - i
  {
    var a := pre + [BaseFlag, x] + post;
    var c := pre + [BaseEq + x] + post;
    if i < |pre| {
      assert a[i] == pre[i] == c[i];
      var arg := pre[i];
      assert arg in pre;
      if arg == NoInstallFlag {
        BaseFormsAgreeFrom(pre, x, post, i + 1, branch, true, base);
      } else if StartsWith(arg, BaseEq) {
        BaseFormsAgreeFrom(pre, x, post, i + 1, branch, noInstall, Some(arg[|BaseEq|..]));
      } else if IsPositional(arg) {
        BaseFormsAgreeFrom(pre, x, post, i + 1, Some(arg), noInstall, base);
      }
    } else {
      var eq := BaseEq + x;
      assert a[i] == BaseFlag && a[i + 1] == x;
      assert c[i] == eq;
      assert eq[2] == 'b';
      assert eq[..|BaseEq|] == BaseEq;
      assert eq[|BaseEq|..] == x;
      assert a[i + 2..] == post == c[i + 1..];
      ParseFromSuffix(a, i + 2, c, i + 1, branch, noInstall, Some(x));
    }
  }

  lemma BaseFormsAgree(pre: seq<string>, x: string, post: seq<string>)
    requires BaseFlag !in pre && x != ""
    ensures ParseArgs(pre + [BaseFlag, x] + post) == ParseArgs(pre + [BaseEq + x] + post)
  {
    BaseFormsAgreeFrom(pre, x, post, 0, None, false, None);
  }

  /** `--base` at the end, or followed by an empty argument, is a usage error
      unless an earlier argument already ended parsing. */
  lemma {:induction false} MissingBaseValueFrom(pre: seq<string>, post: seq<string>, i: nat,
                                              branch: Option<string>, noInstall: bool, base: Option<string>)
    requires i <= |pre| && BaseFlag !in pre
    requires forall k :: i <= k < |pre| ==> !IsStop(pre[k])
    requires post == [] || post[0] == ""
    ensures ParseFrom(pre + [BaseFlag] + post, i, branch, noInstall, base) == Usage(BaseNeedsValue)
    decreases |pre| - i
  {
    var a := pre + [BaseFlag] + post;
    if i < |pre| {
      assert a[i] == pre[i];
      var arg := pre[i];
      assert arg in pre;
      if arg == NoInstallFlag {
        MissingBaseValueFrom(pre, post, i + 1, branch, true, base);
      } else if StartsWith(arg, BaseEq) {
        MissingBaseValueFrom(pre, post, i + 1, branch, noInstall, Some(arg[|BaseEq|..]));
      } else {
        MissingBaseValueFrom(pre, post, i + 1, Some(arg), noInstall, base);
      }
    } else {
      assert a[i] == BaseFlag;
      assert post != [] ==> a[i + 1] == post[0];
    }
  }

  lemma MissingBaseValue(pre: seq<string>, post: seq<string>)
    requires BaseFlag !in pre && FirstWhere(pre, IsStop).None?
    requires post == [] || post[0] == ""
    ensures ParseArgs(pre + [BaseFlag] + post) == Usage(BaseNeedsValue)
  {
    MissingBaseValueFrom(pre, post, 0, None, false, None);
  }

  // ---------------------------------------------------------------------------
  // Where the worktree goes

  /** `${repoName}--${sanitizeBranchForDir(branch)}`. */
  function WorktreeDirName(repoName: string, branch: string): string {
    repoName + "--" + SanitizeBranchForDir(branch)
  }

  /** `path.join(path.dirname(repoRoot), worktreeDirName)`. */
  function WorktreePathFor(repoRoot: string, branch: string): string {
    Paths.Join(Paths.Dirname(repoRoot), WorktreeDirName(RepoName(repoRoot), branch))
  }

  /** For a repository at `parent/name`, the worktree of `branch` is the sibling
      `parent/name--<branch with / as ->`: it has the same parent directory,
      its base name is the directory name, it is neither the repository nor
      inside it, and `gd`'s `--` check accepts its base name. */
  lemma WorktreeIsSibling(parent: string, name: string, branch: string)
    requires Paths.IsChild(parent, name)
    ensures var dir := name + "--" + SanitizeBranchForDir(branch);
            WorktreePathFor(parent + "/" + name, branch) == parent + "/" + dir
    ensures var root := parent + "/" + name;
            var dir := name + "--" + SanitizeBranchForDir(branch);
            var wt := parent + "/" + dir;
            && Paths.Dirname(wt) == Paths.Dirname(root)
            && Paths.Basename(wt) == dir
            && wt != root
            && !IsWithin(wt, root)
            && Includes(Paths.Basename(wt), "--")
  {
    WorktreePathOfChild(parent, name, branch);
    SiblingFacts(parent, name, name + "--" + SanitizeBranchForDir(branch), branch);
  }

  /** The facts behind `WorktreeIsSibling`, about the path `parent/dir`. */
  lemma SiblingFacts(parent: string, name: string, dir: string, branch: string)
    requires Paths.IsChild(parent, name) && dir == name + "--" + SanitizeBranchForDir(branch)
    ensures var root := parent + "/" + name;
            var wt := parent + "/" + dir;
            && Paths.Dirname(wt) == Paths.Dirname(root)
            && Paths.Basename(wt) == dir
            && wt != root
            && !IsWithin(wt, root)
            && Includes(dir, "--")
  {
    DirNameIsSegment(name, branch);
    Paths.SiblingJoin(parent, dir, name);
    Paths.SiblingJoin(parent, name, dir);
    Paths.BasenameOfChild(parent, dir);
    assert dir[|name|] == '-';
    SiblingNotWithin(parent, name, dir);
    IncludesIffOccurs(dir, "--");
  }

  /** For a root `parent/name`, the worktree path is `parent/name--<sanitised>`. */
  lemma WorktreePathOfChild(parent: string, name: string, branch: string)
    requires Paths.IsChild(parent, name)
    ensures var dir := name + "--" + SanitizeBranchForDir(branch);
            WorktreePathFor(parent + "/" + name, branch) == parent + "/" + dir
  {
    var dir := name + "--" + SanitizeBranchForDir(branch);
    RepoNameOfRoot(parent, name);
    Paths.SiblingJoin(parent, name, dir);
    assert WorktreeDirName(RepoName(parent + "/" + name), branch) == dir;
  }

  /** The directory name is one path segment holding `--` right after the
      repository name. */
  lemma DirNameIsSegment(name: string, branch: string)
    requires name != "" && '/' !in name
    ensures var dir := name + "--" + SanitizeBranchForDir(branch);
            '/' !in dir && OccursAt(dir, "--", |name|)
  {
  }

  /** `parent/name--x` is neither `parent/name` nor inside it. */
  lemma SiblingNotWithin(parent: string, name: string, dir: string)
    requires |dir| > |name| && dir[|name|] == '-'
    ensures var root := parent + "/" + name;
            var wt := parent + "/" + dir;
            wt != root && !IsWithin(wt, root)
  {
    var root := parent + "/" + name;
    var wt := parent + "/" + dir;
    assert wt[|root|] == dir[|name|] == '-';
  }

  /** A subfolder path git reports (relative, possibly ending in `/`) lies inside
      the worktree it is joined to. */
  lemma JoinStaysWithin(worktree: string, relative: string)
    requires worktree != "" && worktree[|worktree| - 1] != '/'
    ensures IsWithin(Paths.Join(worktree, relative), worktree)
  {
  }

  // ---------------------------------------------------------------------------
  // The command (`ga`)

  /** What the outside world answers during one run of `ga`. `getRepoRoot` and
      `getRepoName` both read `toplevel`. */
  datatype GaHost = GaHost(
    insideRepo: bool,               // `git rev-parse --git-dir` succeeds
    branches: set<string>,          // names that have `refs/heads/<name>`
    toplevel: Answer,               // `git rev-parse --show-toplevel`
    prefix: Answer,                 // `git rev-parse --show-prefix`
    existing: set<string>,          // paths that exist before the worktree is made
    createError: Option<string>,    // the message of a failing `git worktree add`
    installSucceeds: bool,          // `bun install` exits 0
    existingAfter: set<string>)     // paths that exist once the worktree is made

  /** The errors `ga` reports before exiting with status 1. */
  datatype GaError =
    | NotInRepo
    | BranchExists(branch: string)
    | QueryFailed(message: string)
    | DirectoryExists(path: string)
    | CreateFailed(message: string)
  {
    function Message(): string {
      match this
      case NotInRepo => "Not inside a git repository"
      case BranchExists(branch) => "Branch '" + branch + "' already exists"
      case QueryFailed(message) => message
      case DirectoryExists(path) => "Directory '" + path + "' already exists"
      case CreateFailed(message) => message
    }
  }

  /** Every error message names what went wrong: the offending argument, branch
      or directory, or the message of the git command that failed. */
  lemma MessagesNameTheirSubject(arg: string, branch: string, path: string, message: string)
    ensures Includes(UnknownOption(arg).Message(), arg)
    ensures Includes(BranchExists(branch).Message(), branch)
    ensures Includes(DirectoryExists(path).Message(), path)
    ensures QueryFailed(message).Message() == message && CreateFailed(message).Message() == message
  {
    assert OccursAt(UnknownOption(arg).Message(), arg, 16);
    IncludesIffOccurs(UnknownOption(arg).Message(), arg);
    assert OccursAt(BranchExists(branch).Message(), branch, 8);
    IncludesIffOccurs(BranchExists(branch).Message(), branch);
    assert OccursAt(DirectoryExists(path).Message(), path, 11);
    IncludesIffOccurs(DirectoryExists(path).Message(), path);
  }

  /** The problems `ga` reports and carries on after. */
  datatype GaWarning = InstallFailed | SubfolderMissing(relativeCwd: string)

  /** The worktree path `ga` computes for this host. */
  function PlannedPath(opts: GaOptions, host: GaHost): string
    requires host.toplevel.Output?
  {
    WorktreePathFor(Trim(host.toplevel.text), opts.branch)
  }

  /** The repository checks pass and both queries about it answer. */
  predicate Located(opts: GaOptions, host: GaHost) {
    host.insideRepo && opts.branch !in host.branches && host.toplevel.Output? && host.prefix.Output?
  }

  /** The guards `ga` checks before creating anything all pass: inside a
      repository, the branch does not exist, the repository root and the
      relative directory are known, and the planned directory does not exist. */
  predicate Admitted(opts: GaOptions, host: GaHost) {
    Located(opts, host) && PlannedPath(opts, host) !in host.existing
  }

  /** The directory the shell is sent to: the caller's subfolder inside the new
      worktree when it exists there, the worktree root otherwise. */
  function Target(worktree: string, relativeCwd: string, existingAfter: set<string>): string {
    var subfolder := Paths.Join(worktree, relativeCwd);
    if relativeCwd != "" && subfolder in existingAfter then subfolder else worktree
  }

  /** `ga`: the guards run in order and stop before any command; the worktree is
      created, and a failed create stops there; dependencies are installed
      unless `--no-install`, and a failed install is only a warning; the shell
      is sent to the caller's subfolder in the new worktree when it exists
      there, to its root with a warning otherwise. */
  method Ga(opts: GaOptions, host: GaHost) returns (run: Run<GaError, GaWarning>)
    ensures !host.insideRepo ==> run == Run(Failed(NotInRepo), [], [])
    ensures host.insideRepo && opts.branch in host.branches ==> run == Run(Failed(BranchExists(opts.branch)), [], [])
    ensures host.insideRepo && opts.branch !in host.branches && host.toplevel.Throws? ==>
              run == Run(Failed(QueryFailed(host.toplevel.message)), [], [])
    ensures host.insideRepo && opts.branch !in host.branches && host.toplevel.Output? && host.prefix.Throws? ==>
              run == Run(Failed(QueryFailed(host.prefix.message)), [], [])
    ensures Located(opts, host) && PlannedPath(opts, host) in host.existing ==>
              run == Run(Failed(DirectoryExists(PlannedPath(opts, host))), [], [])
    ensures Admitted(opts, host) && host.createError.Some? ==>
              run == Run(Failed(CreateFailed(host.createError.value)),
                         [CreateWorktree(PlannedPath(opts, host), opts.branch, opts.base)], [])
    ensures Admitted(opts, host) && host.createError.None? ==>
              var wt := PlannedPath(opts, host);
              var rel := Trim(host.prefix.text);
              run == Run(Done(CdLine(Target(wt, rel, host.existingAfter))),
                         [CreateWorktree(wt, opts.branch, opts.base)]
                         + (if opts.noInstall then [] else [InstallDependencies(wt)]),
                         (if !opts.noInstall && !host.installSucceeds then [InstallFailed] else [])
                         + (if rel != "" && Paths.Join(wt, rel) !in host.existingAfter then [SubfolderMissing(rel)] else []))
    ensures run.outcome.ExitCode() == (if Admitted(opts, host) && host.createError.None? then 0 else 1)
  {
    if !host.insideRepo {
      return Run(Failed(NotInRepo), [], []);
    }
    if opts.branch in host.branches {
      return Run(Failed(BranchExists(opts.branch)), [], []);
    }
    if host.toplevel.Throws? {
      return Run(Failed(QueryFailed(host.toplevel.message)), [], []);
    }
    if host.prefix.Throws? {
      return Run(Failed(QueryFailed(host.prefix.message)), [], []);
    }
    var relativeCwd := Trim(host.prefix.text);
    var worktreePath := PlannedPath(opts, host);
    if worktreePath in host.existing {
      return Run(Failed(DirectoryExists(worktreePath)), [], []);
    }
    var effects := [CreateWorktree(worktreePath, opts.branch, opts.base)];
    if host.createError.Some? {
      return Run(Failed(CreateFailed(host.createError.value)), effects, []);
    }
    var installWarnings: seq<GaWarning> := [];
    if !opts.noInstall {
      effects := effects + [InstallDependencies(worktreePath)];
      if !host.installSucceeds {
        installWarnings := [InstallFailed];
      }
    }
    var target := worktreePath;
    var subfolderWarnings: seq<GaWarning> := [];
    if relativeCwd != "" {
      var subfolder := Paths.Join(worktreePath, relativeCwd);
      if subfolder in host.existingAfter {
        target := subfolder;
      } else {
        subfolderWarnings := [SubfolderMissing(relativeCwd)];
      }
    }
    assert target == Target(worktreePath, relativeCwd, host.existingAfter);
    assert effects == [CreateWorktree(worktreePath, opts.branch, opts.base)]
                      + (if opts.noInstall then [] else [InstallDependencies(worktreePath)]);
    var warnings := installWarnings + subfolderWarnings;
    return Run(Done(CdLine(target)), effects, warnings);
  }

  /** For a repository at `parent/name`, a successful `ga` sends the shell into
      the new sibling worktree (its root or a folder inside it). */
  lemma GaLandsInWorktree(parent: string, name: string, branch: string, rel: string, existingAfter: set<string>)
    requires Paths.IsChild(parent, name)
    ensures var wt := WorktreePathFor(parent + "/" + name, branch);
            IsWithin(Target(wt, rel, existingAfter), wt)
  {
    WorktreeIsSibling(parent, name, branch);
    var dir := name + "--" + SanitizeBranchForDir(branch);
    var wt := parent + "/" + dir;
    assert '/' !in dir;
    assert wt[|wt| - 1] == dir[|dir| - 1];
    JoinStaysWithin(wt, rel);
  }
}
