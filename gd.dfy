/**
 * src/commands/gd.ts: `gd` removes the linked worktree the shell is in,
 * deletes its branch from the main worktree, and prints the `cd` line that
 * moves the shell back to the main worktree.
 */
module Gd {
  import opened Wrappers
  import opened Text
  import Paths
  import opened Git
  import opened Shell
  import opened Process

  // ---------------------------------------------------------------------------
  // Arguments (`parseGdArgs`)

  datatype GdOptions = GdOptions(force: bool, keepBranch: bool)

  /** The one usage error `parseGdArgs` reports before exiting with status 1. */
  datatype GdArgError = UnknownOption(arg: string)
  {
    function Message(): string {
      "Unknown option: " + arg
    }
  }

  predicate IsForce(arg: string) {
    arg == "--force" || arg == "-f"
  }

  const KeepBranchFlag := "--keep-branch"

  predicate IsHelp(arg: string) {
    arg == "-h" || arg == "--help"
  }

  /** The parser as a recursive function of the position and the flags so far;
      an argument that does not start with `-` is ignored. */
  function ParseFrom(args: seq<string>, i: nat, force: bool, keepBranch: bool): ArgsOutcome<GdOptions, GdArgError>
    requires i <= |args|
    decreases |args| - i
  {
    if i == |args| then Options(GdOptions(force, keepBranch))
    else
      var arg := args[i];
      if IsForce(arg) then ParseFrom(args, i + 1, true, keepBranch)
      else if arg == KeepBranchFlag then ParseFrom(args, i + 1, force, true)
      else if IsHelp(arg) then Help
      else if StartsWith(arg, "-") then Usage(UnknownOption(arg))
      else ParseFrom(args, i + 1, force, keepBranch)
  }

  function ParseArgs(args: seq<string>): ArgsOutcome<GdOptions, GdArgError> {
    ParseFrom(args, 0, false, false)
  }

  /** `parseGdArgs`: one pass over the arguments. */
  method ParseGdArgs(args: seq<string>) returns (r: ArgsOutcome<GdOptions, GdArgError>)
    ensures r == ParseArgs(args)
  {
    var force := false;
    var keepBranch := false;
    for i := 0 to |args|
      invariant ParseArgs(args) == ParseFrom(args, i, force, keepBranch)
    {
      var arg := args[i];
      if IsForce(arg) {
        force := true;
      } else if arg == KeepBranchFlag {
        keepBranch := true;
      } else if IsHelp(arg) {
        return Help;
      } else if StartsWith(arg, "-") {
        return Usage(UnknownOption(arg));
      }
    }
    return Options(GdOptions(force, keepBranch));
  }

  /** An argument that ends parsing: help, or an option `gd` does not know. */
  predicate IsStop(arg: string) {
    StartsWith(arg, "-") && !IsForce(arg) && arg != KeepBranchFlag
  }

  /** The index of the first argument that ends parsing. */
  function FirstStop(args: seq<string>): (r: Option<nat>)
    ensures r.None? <==> forall k :: 0 <= k < |args| ==> !IsStop(args[k])
    ensures r.Some? ==> r.value < |args| && IsStop(args[r.value]) && forall k :: 0 <= k < r.value ==> !IsStop(args[k])
  {
    if args == [] then None
    else if IsStop(args[0]) then Some(0)
    else match FirstStop(args[1..])
      case None => (assert forall k :: 1 <= k < |args| ==> args[k] == args[1..][k - 1]; None)
      case Some(k) => (assert forall m :: 1 <= m < k + 1 ==> args[m] == args[1..][m - 1]; Some(k + 1))
  }

  /** The outcome stated argument by argument: the first help or unknown option
      decides; otherwise `--force`/`-f` anywhere sets `force`, `--keep-branch`
      anywhere sets `keepBranch`, and every other argument is ignored. */
  function Declared(args: seq<string>): ArgsOutcome<GdOptions, GdArgError> {
    match FirstStop(args)
    case Some(k) => if IsHelp(args[k]) then Help else Usage(UnknownOption(args[k]))
    case None => Options(GdOptions("--force" in args || "-f" in args, KeepBranchFlag in args))
  }

  lemma {:induction false} ParseFromDeclared(args: seq<string>, i: nat, force: bool, keepBranch: bool)
    requires i <= |args|
    ensures var rest := args[i..];
            ParseFrom(args, i, force, keepBranch)
            == (match FirstStop(rest)
                case Some(k) => if IsHelp(rest[k]) then Help else Usage(UnknownOption(rest[k]))
                case None => Options(GdOptions(force || "--force" in rest || "-f" in rest, keepBranch || KeepBranchFlag in rest)))
    decreases |args| - i
  {
    if i < |args| {
      var arg := args[i];
      var rest := args[i..];
      assert rest == [arg] + args[i + 1..];
      assert rest[1..] == args[i + 1..];
      if !IsStop(arg) {
        ParseFromDeclared(args, i + 1, force || IsForce(arg), keepBranch || arg == KeepBranchFlag);
        match FirstStop(args[i + 1..])
        case Some(k) =>
          assert rest[k + 1] == args[i + 1..][k];
        case None =>
      }
    }
  }

  /** The whole parse, stated declaratively. */
  lemma ParseIsDeclared(args: seq<string>)
    ensures ParseArgs(args) == Declared(args)
  {
    assert args[0..] == args;
    ParseFromDeclared(args, 0, false, false);
  }

  /** Parsing exits with status 1 exactly when the first argument that stops it
      is an unknown option; help stops it with status 0. */
  lemma ParseExitStatus(args: seq<string>)
    ensures ParseArgs(args).ExitCode() == 1 <==> FirstStop(args).Some? && !IsHelp(args[FirstStop(args).value])
    ensures ParseArgs(args).Help? <==> FirstStop(args).Some? && IsHelp(args[FirstStop(args).value])
  {
    ParseIsDeclared(args);
  }

  /** Arguments that do not start with `-` never change the outcome. */
  lemma NonOptionsIgnored(args: seq<string>, word: string, k: nat)
    requires k <= |args| && !StartsWith(word, "-")
    ensures ParseArgs(args[..k] + [word] + args[k..]) == ParseArgs(args)
  {
    var a := args[..k] + [word] + args[k..];
    ParseIsDeclared(args);
    ParseIsDeclared(a);
    assert args == args[..k] + args[k..];
    assert forall x :: x != word ==> (x in a <==> x in args);
    assert !IsStop(word);
    FirstStopInsert(args, word, k);
  }

  /** Without a help or unknown option, only which flags occur matters: their
      order and repetition, and every other argument, do not. */
  lemma FlagsOnlyMatter(a: seq<string>, b: seq<string>)
    requires FirstStop(a).None? && FirstStop(b).None?
    requires forall x :: StartsWith(x, "-") ==> (x in a <==> x in b)
    ensures ParseArgs(a) == ParseArgs(b)
  {
    ParseIsDeclared(a);
    ParseIsDeclared(b);
    assert StartsWith("--force", "-") && StartsWith("-f", "-") && StartsWith(KeepBranchFlag, "-");
  }

  lemma {:induction false} FirstStopInsert(args: seq<string>, word: string, k: nat)
    requires k <= |args| && !IsStop(word)
    ensures var a := args[..k] + [word] + args[k..];
            match FirstStop(args)
            case None => FirstStop(a).None?
            case Some(j) => FirstStop(a).Some? && a[FirstStop(a).value] == args[j]
  {
    var a := args[..k] + [word] + args[k..];
    if k == 0 {
      assert a == [word] + args;
      FirstStopCons(word, args);
    } else {
      var t := args[1..];
      var a' := t[..k - 1] + [word] + t[k - 1..];
      FirstStopInsert(t, word, k - 1);
      InsertAfterHead(args, word, k);
      if !IsStop(args[0]) {
        FirstStopCons(args[0], t);
        FirstStopCons(args[0], a');
      }
    }
  }

  /** Inserting after the first element keeps that element in front. */
  lemma InsertAfterHead(args: seq<string>, word: string, k: nat)
    requires 0 < k <= |args|
    ensures args == [args[0]] + args[1..]
    ensures args[..k] + [word] + args[k..] == [args[0]] + (args[1..][..k - 1] + [word] + args[1..][k - 1..])
  {
    assert args[..k] == [args[0]] + args[1..][..k - 1];
    assert args[k..] == args[1..][k - 1..];
  }

  lemma FirstStopCons(arg: string, rest: seq<string>)
    requires !IsStop(arg)
    ensures FirstStop([arg] + rest) == match FirstStop(rest) case None => None case Some(k) => Some(k + 1)
  {
    assert ([arg] + rest)[1..] == rest;
  }

  // ---------------------------------------------------------------------------
  // The command (`gd`)

  /** What the outside world answers during one run of `gd`. Every
      `git worktree list --porcelain` of the run answers `listing`; `toplevel`
      is read only when the listing names no worktree, which the guards rule
      out before it is needed. */
  datatype GdHost = GdHost(
    insideRepo: bool,              // `git rev-parse --git-dir` succeeds
    cwd: string,                   // `process.cwd()`
    listing: Answer,               // `git worktree list --porcelain`
    toplevel: string,              // output of `git rev-parse --show-toplevel`
    confirms: bool,                // the answer to the confirmation prompt
    removeError: Option<string>,   // the message of a failing `git worktree remove`
    deleteStderr: Option<string>)  // the standard error of a failing `git branch -D`

  /** The errors `gd` reports before exiting with status 1. */
  datatype GdError =
    | NotInRepo
    | QueryFailed(message: string)
    | NoCurrentWorktree
    | MainWorktree
    | NotWorktreeDir(dirName: string)
    | NoBranch
    | RemoveFailed(message: string)
  {
    function Message(): string {
      match this
      case NotInRepo => "Not inside a git repository"
      case QueryFailed(message) => message
      case NoCurrentWorktree => "Could not determine current worktree"
      case MainWorktree => "Cannot delete the main worktree. Use 'gd' from a linked worktree directory."
      case NotWorktreeDir(dirName) => "Not in a worktree directory (expected '<repo>--<branch>' format, got '" + dirName + "')"
      case NoBranch => "Could not determine branch name for current worktree"
      case RemoveFailed(message) => message
    }
  }

  /** Every error message names what went wrong: the offending argument or
      directory name, or the message of the git command that failed. */
  lemma MessagesNameTheirSubject(arg: string, dirName: string, message: string)
    ensures Includes(UnknownOption(arg).Message(), arg)
    ensures Includes(NotWorktreeDir(dirName).Message(), dirName)
    ensures QueryFailed(message).Message() == message && RemoveFailed(message).Message() == message
  {
    assert OccursAt(UnknownOption(arg).Message(), arg, 16);
    IncludesIffOccurs(UnknownOption(arg).Message(), arg);
    assert OccursAt(NotWorktreeDir(dirName).Message(), dirName, 70);
    IncludesIffOccurs(NotWorktreeDir(dirName).Message(), dirName);
  }

  /** A failed branch deletion is reported and `gd` carries on. */
  datatype GdWarning = DeleteFailed(message: string)

  /** The message of `deleteBranch`'s error: the trimmed standard error, or a
      fixed text when that is empty. */
  function DeleteMessage(branch: string, stderr: string): (m: string)
    ensures m != ""
    ensures Trim(stderr) != "" ==> m == Trim(stderr)
    ensures Trim(stderr) == "" ==> m == "Failed to delete branch " + branch
  {
    var t := Trim(stderr);
    if t != "" then t else "Failed to delete branch " + branch
  }

  /** The worktrees `gd` sees. */
  function Listed(host: GdHost): seq<WorktreeInfo>
    requires host.listing.Output?
  {
    ParseLines(Lines(host.listing.text))
  }

  /** The guards `gd` checks before asking for confirmation all pass: inside a
      repository, the working directory lies in a listed worktree, that
      worktree is not the first (main) one, its base name contains `--`, and it
      has a non-empty branch. */
  predicate Eligible(host: GdHost) {
    && host.insideRepo
    && host.listing.Output?
    && CurrentOf(host.cwd, Listed(host)).Some?
    && var cur := CurrentOf(host.cwd, Listed(host)).value;
    && cur.path != Listed(host)[0].path
    && Includes(Paths.Basename(cur.path), "--")
    && cur.branch.Some? && cur.branch.value != ""
  }

  /** `gd`: the guards run in order and stop before any command, and a declined
      confirmation stops cleanly; then the current worktree is removed and,
      unless `--keep-branch`, its branch is deleted from the main worktree (a
      failure there is only a warning); the shell is sent to the main worktree.
      The worktree removed is the one holding the working directory and never
      the main one. */
  method Gd(opts: GdOptions, host: GdHost) returns (run: Run<GdError, GdWarning>)
    ensures !host.insideRepo ==> run == Run(Failed(NotInRepo), [], [])
    ensures host.insideRepo && host.listing.Throws? ==> run == Run(Failed(QueryFailed(host.listing.message)), [], [])
    ensures host.insideRepo && host.listing.Output? && CurrentOf(host.cwd, Listed(host)).None? ==>
              run == Run(Failed(NoCurrentWorktree), [], [])
    ensures host.insideRepo && host.listing.Output? && CurrentOf(host.cwd, Listed(host)).Some? ==>
              var cur := CurrentOf(host.cwd, Listed(host)).value;
              var dirName := Paths.Basename(cur.path);
              && (cur.path == Listed(host)[0].path ==> run == Run(Failed(MainWorktree), [], []))
              && (cur.path != Listed(host)[0].path && !Includes(dirName, "--") ==>
                    run == Run(Failed(NotWorktreeDir(dirName)), [], []))
              && (cur.path != Listed(host)[0].path && Includes(dirName, "--") && (cur.branch.None? || cur.branch.value == "") ==>
                    run == Run(Failed(NoBranch), [], []))
    ensures !Eligible(host) ==> run.outcome.Failed? && run.effects == [] && run.warnings == []
    ensures Eligible(host) && !opts.force && !host.confirms ==> run == Run(Cancelled, [], [])
    ensures Eligible(host) && (opts.force || host.confirms) ==>
              var cur := CurrentOf(host.cwd, Listed(host)).value;
              var main := Listed(host)[0].path;
              && IsWithin(host.cwd, cur.path)
              && main != "" && main != cur.path
              && (host.removeError.Some? ==>
                    run == Run(Failed(RemoveFailed(host.removeError.value)), [RemoveWorktree(cur.path)], []))
              && (host.removeError.None? ==>
                    && run.outcome == Done(CdLine(main))
                    && run.effects == [RemoveWorktree(cur.path)]
                                      + (if opts.keepBranch then [] else [DeleteBranch(cur.branch.value, main)])
                    && run.warnings == (if !opts.keepBranch && host.deleteStderr.Some?
                                        then [DeleteFailed(DeleteMessage(cur.branch.value, host.deleteStderr.value))]
                                        else []))
    ensures run.outcome.ExitCode()
         == (if !Eligible(host) || ((opts.force || host.confirms) && host.removeError.Some?) then 1 else 0)
  {
    if !host.insideRepo {
      return Run(Failed(NotInRepo), [], []);
    }
    if host.listing.Throws? {
      return Run(Failed(QueryFailed(host.listing.message)), [], []);
    }
    var worktrees := ListWorktrees(host.listing.text);
    var current := CurrentWorktree(host.cwd, worktrees);
    if current.None? {
      return Run(Failed(NoCurrentWorktree), [], []);
    }
    var wt := current.value;
    if worktrees[0].path == wt.path {
      return Run(Failed(MainWorktree), [], []);
    }
    var dirName := Paths.Basename(wt.path);
    if !Includes(dirName, "--") {
      return Run(Failed(NotWorktreeDir(dirName)), [], []);
    }
    if wt.branch.None? || wt.branch.value == "" {
      return Run(Failed(NoBranch), [], []);
    }
    var branch := wt.branch.value;
    if !opts.force && !host.confirms {
      return Run(Cancelled, [], []);
    }
    ParsedPathsNonEmpty(Lines(host.listing.text));
    var mainPath := MainWorktreePath(worktrees, Trim(host.toplevel));
    var effects := [RemoveWorktree(wt.path)];
    if host.removeError.Some? {
      return Run(Failed(RemoveFailed(host.removeError.value)), effects, []);
    }
    var warnings: seq<GdWarning> := [];
    if !opts.keepBranch {
      // `mainPath || process.cwd()`
      var cwd := if mainPath != "" then mainPath else host.cwd;
      effects := effects + [DeleteBranch(branch, cwd)];
      if host.deleteStderr.Some? {
        warnings := [DeleteFailed(DeleteMessage(branch, host.deleteStderr.value))];
      }
    }
    return Run(Done(CdLine(mainPath)), effects, warnings);
  }
}
