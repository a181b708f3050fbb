# worktree-tools in Dafny

worktree-tools is a pair of shell helpers around `git worktree`:

- `ga <branch>` creates a linked worktree on a new branch. The worktree goes in a sibling directory `<repo>--<branch with / replaced by ->`. It optionally runs `bun install` there, then prints a `cd` line that the calling shell function `eval`s.
- `gd`, run inside a linked worktree, removes that worktree. It deletes the worktree's branch from the main worktree and prints a `cd` line back to the main worktree.

This project models the logic inside that plumbing and proves what it promises:

- the branch-to-directory naming and the sibling path;
- the parser of `git worktree list --porcelain`;
- the lookup of the worktree holding the working directory, and of the main worktree;
- the two argument parsers;
- the guard and effect order of both commands;
- the single-quoting of the printed `cd` line.

Every git query, file-system test, prompt answer and command result is an input of the model. Both commands are methods over a value holding those answers (`Ga.GaHost`, `Gd.GdHost`). Each returns a `Process.Run`:

- the outcome: `Done` with the printed line, `Cancelled`, or `Failed` with the error;
- the commands it ran, in order (`Git.Effect`);
- the warnings it printed.

`exitWithError` and `process.exit` become the `Failed` outcome and the `ArgsOutcome` values `Help` and `Usage`. A git query run through Bun's `$` is a `Process.Answer`: its output, or the message of the error it throws. The commands do not catch that error, and the top-level handler in src/cli.ts prints it and exits with status 1. The model turns it into a `Failed` outcome that carries the message.

Modules, one per file:

- `Wrappers`: the `Option` type.
- `Text`: the JavaScript string operations the core relies on. These are `startsWith`, `includes`, replacing the first occurrence of a string, `split` on one character, and `trim` with the ECMAScript white-space set.
- `Paths`: `dirname`, `join` and `basename` for absolute, normalised paths.
- `Git`: the sanitiser, the repository name, the porcelain parser, the worktree lookup, the main worktree path, and the commands run.
- `Shell`: the `cd` line, plus the POSIX quote removal it has to survive.
- `Process`: outcomes and exit codes.
- `Ga`: the `ga` command.
- `Gd`: the `gd` command.

The porcelain parser is proved twice over:

- The method `Git.ListWorktrees` keeps the source's loop with its mutable current record. It is proved equal to a left fold of one step per line.
- That fold is proved equal to an independent reading (`Git.ParseMatchesRecords`, `Git.ParsedRecordsByLine`). That reading says there is one record per `worktree ` line with a non-empty path, in order, and that each record carries the last `HEAD `/`branch ` values of its block.

Each argument parser is a loop method proved equal to a recursive specification. The specification is in turn characterised argument by argument.

## Model

| member | source | states |
|---|---|---|
| Text.IndexOf | src/commands/gd.ts:44 | the search behind `includes`: the first index where the pattern occurs, or none exactly when it occurs nowhere |
| Text.IncludesIffOccurs | src/commands/gd.ts:44 | `includes` holds exactly when the pattern occurs at some index |
| Text.ReplaceFirstAbsent | src/utils/git.ts:83 | replacing a string pattern that does not occur leaves the text unchanged |
| Text.ReplaceFirstOfPrefix | src/utils/git.ts:83 | removing the first occurrence of a pattern the text starts with leaves the rest of the text |
| Text.Split | src/utils/git.ts:69 | `split("\n")` gives at least one part; no part contains the separator; joining the parts with it gives back the text |
| Text.SplitJoin | src/utils/git.ts:69 | splitting the join of separator-free parts gives back exactly those parts |
| Text.TrimDropsOnlySpace | src/utils/git.ts:69 | `trim` keeps a contiguous slice, drops only ECMAScript white space before and after it, and leaves no white space at either end |
| Text.TrimIdempotent | src/utils/git.ts:26 | a string with no white space at its ends is its own trim, and trimming twice equals trimming once |
| Paths.LastSegment | src/utils/git.ts:34 | `split("/").pop()` is a suffix without `/`, preceded by `/` whenever it is shorter than the input |
| Paths.LastSegmentOfChild | src/utils/git.ts:34 | the last segment of `parent/name` is `name` |
| Paths.DirnameOfChild | src/commands/ga.ts:43 | the directory of `parent/name` is `parent`, or `/` when the parent is the file-system root |
| Paths.SiblingJoin | src/commands/ga.ts:43 | the directory of `parent/name` joined with another name gives `parent/other` |
| Paths.BasenameOfChild | src/commands/gd.ts:43 | the base name of `parent/name` is `name` |
| Git.SanitizeBranchForDir | src/utils/git.ts:60-62 | the length is kept, every `/` becomes `-`, and every other character is unchanged |
| Git.SanitizedHasNoSlash | src/utils/git.ts:60-62 | the result contains no `/` |
| Git.SanitizeIdempotent | src/utils/git.ts:60-62 | sanitising twice equals sanitising once; a name without `/` is unchanged |
| Git.SanitizeExamples | src/utils/git.test.ts:5-31 | the seven examples of the unit tests, including the empty string and leading and trailing slashes |
| Git.RepoName | src/utils/git.ts:34 | the result is the whole root, or the last `/`-separated segment of it; it is the whole root when the root has no `/` or ends in `/` |
| Git.RepoNameOfRoot | src/utils/git.ts:34 | for a root `parent/name`, the repository name is `name` |
| Git.EmptyBaseIsHead | src/utils/git.ts:122-126 | an empty base runs the same `git worktree add` as no base; a non-empty base is passed as the last argument |
| Git.BranchValueOfRef | src/utils/git.ts:81-83 | `branch refs/heads/<name>` yields `<name>` |
| Git.ListWorktrees | src/utils/git.ts:68-96 | the loop over the trimmed output's lines, with its mutable current record, returns exactly the fold of the per-line step |
| Git.BlockEnd | src/utils/git.ts:74-89 | a record's lines run up to, not including, the next blank or `worktree ` line |
| Git.HeadOfLast | src/utils/git.ts:80-81 | a record's head is the value of its last `HEAD ` line, and absent exactly when it has none |
| Git.BranchOfLast | src/utils/git.ts:78-83 | a record's branch comes from its last `branch ` line, and is null exactly when it has none |
| Git.ParseMatchesRecords | src/utils/git.ts:72-93 | the stateful loop equals the block-by-block reading of the lines |
| Git.RecordLinesFrom | src/utils/git.ts:74-78 | the indices of `worktree ` lines with a non-empty path are listed completely and in increasing order |
| Git.ParsedRecordsByLine | src/utils/git.ts:72-95 | the records are one per `worktree ` line with a non-empty path, in line order, none twice; a `worktree ` line with an empty path gives no record |
| Git.ParsedRecordAt | src/utils/git.ts:74-93 | record k is the block of the k-th such line, and its path is that line's non-empty text after `worktree ` |
| Git.ParsedCount | src/utils/git.ts:72-95 | there are as many records as `worktree ` lines with a non-empty path |
| Git.ParsedPathsNonEmpty | src/utils/git.ts:75-93 | every parsed record has a non-empty path |
| Git.IsWithinBoundary | src/utils/git.ts:107 | a directory lies in a worktree exactly when the worktree path is a prefix followed by the end or by `/`, so `/a/bc` is not in `/a/b` |
| Git.CurrentOf | src/utils/git.ts:106-111 | the result is absent exactly when no record contains the directory; otherwise it is the first record that does |
| Git.CurrentWorktree | src/utils/git.ts:101-112 | the search loop with early return computes `CurrentOf` |
| Git.MainPathIsFirstListed | src/utils/git.ts:172-179 | the main path is the path on the first `worktree ` line with a path, and is the repository root only when there is none |
| Shell.EscapeLength | src/utils/shell.ts:7 | escaping adds three characters per `'` and changes nothing else in length |
| Shell.EscapeWithoutQuotes | src/utils/shell.ts:7-8 | a path without `'` appears verbatim: the line is `cd '<path>'` |
| Shell.UnquoteEscaped | src/utils/shell.ts:7 | inside an open single quote, the escaped path plus the closing quote reads back as the path |
| Shell.CdLineRoundTrip | src/utils/shell.ts:5-9 | the line is `cd ` and one word whose value after POSIX quote removal is exactly the path, whatever characters it holds |
| Ga.ParseGaArgs | src/commands/ga.ts:93-124 | the index loop with `--base` look-ahead computes the recursive specification of the parser |
| Ga.ParsedBranchIsValid | src/commands/ga.ts:112-123 | an accepted branch is a non-empty argument not starting with `-`; `noInstall` implies `--no-install` was given |
| Ga.ParseWithoutSeparateBase | src/commands/ga.ts:98-123 | without a separate `--base`, the first help or unknown option decides; otherwise the branch is the last non-dash argument (an empty one is an error), `--no-install` anywhere sets the flag, and the last `--base=` value wins |
| Ga.ParseExitStatus | src/commands/ga.ts:98-121 | without a separate `--base`: help exits 0, an unknown option before any help exits 1, and otherwise the exit is 1 exactly when no non-empty branch was given |
| Ga.MessagesNameTheirSubject | src/commands/ga.ts:27-58 | the printed errors name the branch or directory at fault, and a failing git command's own message is printed unchanged |
| Ga.BaseFormsAgree | src/commands/ga.ts:102-108 | `--base X` and `--base=X` give the same result for non-empty X |
| Ga.MissingBaseValue | src/commands/ga.ts:102-106 | `--base` at the end, or followed by an empty argument, is the "requires a branch name" error |
| Ga.WorktreeIsSibling | src/commands/ga.ts:41-43 | for a root `parent/name` the worktree is `parent/name--<sanitised>`: same parent, that base name, not the root and not inside it, and its base name contains `--` |
| Ga.DirNameIsSegment | src/commands/ga.ts:41-42 | the directory name has no `/` and holds `--` right after the repository name |
| Ga.JoinStaysWithin | src/commands/ga.ts:75 | joining a relative subfolder to the worktree gives a directory inside the worktree |
| Ga.Ga | src/commands/ga.ts:22-91 | guards in order (not a repository, branch exists, a throwing repository-root or relative-directory query, directory exists) stop before any command; a failed create stops after the create alone; otherwise the create runs, then install unless `--no-install`, and a failed install is only a warning; the `cd` targets the caller's subfolder when it exists in the new worktree, else the worktree root with a warning; the exit status is 0 exactly when the guards pass and the create succeeds |
| Ga.GaLandsInWorktree | src/commands/ga.ts:72-81 | the `cd` target always lies inside the new worktree |
| Gd.ParseGdArgs | src/commands/gd.ts:105-123 | the flag loop computes the recursive specification of the parser |
| Gd.ParseIsDeclared | src/commands/gd.ts:109-120 | the first help or unknown option decides; otherwise `force` is set by `--force`/`-f` anywhere and `keepBranch` by `--keep-branch` anywhere |
| Gd.ParseExitStatus | src/commands/gd.ts:109-120 | parsing exits 1 exactly when the first help or unknown option is an unknown option, and stops with help exactly when it is a help flag |
| Gd.MessagesNameTheirSubject | src/commands/gd.ts:43-77 | the printed errors name the unknown option or the directory name at fault, and a failing git command's own message is printed unchanged |
| Gd.NonOptionsIgnored | src/commands/gd.ts:117-119 | inserting an argument that does not start with `-` never changes the result |
| Gd.FlagsOnlyMatter | src/commands/gd.ts:110-113 | without help or unknown options, the order and repetition of the flags do not change the result |
| Gd.DeleteMessage | src/utils/git.ts:148-150 | the deletion error is the trimmed standard error, or a fixed text when that is empty; it is never empty |
| Gd.Gd | src/commands/gd.ts:18-103 | guards in order stop before any command: not a repository, a throwing `git worktree list`, no containing worktree, the main worktree, base name without `--`, no branch. A declined prompt without `--force` exits cleanly with nothing run. Otherwise the containing worktree, which is never the main one, is removed. The branch is then deleted in the main worktree, unless `--keep-branch`, and only if the removal succeeded. A failed delete is only a warning. The `cd` goes to the main worktree. The exit status is 1 exactly when a guard stops the run or the removal fails; a declined prompt exits 0 |

## Left out

- Subprocesses and the file system: every `git` and `bun` invocation and `pathExists` are inputs of the host values. The model fixes the command line each effect would run (`Git.Effect.Argv`) but not what git does.
- Each query returns the same answer every time within one run. `getRepoRoot` is read twice by `ga`, and `gd` lists the worktrees three times. A query that answers once and then throws on a later call is not modelled. For example, a `git worktree list` that fails only at gd.ts:67, after the prompt, ends the real run with status 1 and no removal. The model runs that query's failure at its first call, gd.ts:27.
- `gd` reads `getRepoRoot` only when the listing names no worktree, which its guards have already excluded. So `GdHost.toplevel` is an answer that cannot throw.
- Branch existence is membership in a set of names. git's own rules for valid ref names are not modelled.
- Terminal UI in src/utils/ui.ts is not modelled: spinners, colours, the banner lines written to standard error, and the help text of `printGaHelp`/`printGdHelp`. The confirmation prompt is one boolean answer.
- src/cli.ts is not part of this model: the dispatch on the script name and sub-command, and the top-level error handler.
- `Paths.Dirname`, `Paths.Join`, `Paths.Basename`: Node's `path` functions are modelled for absolute, normalised paths only. `.`/`..` segments and repeated slashes are not normalised.
- `Git.ListWorktrees`: `current` is a value. The source pushes the object itself but never changes it after the push, so no aliasing is observable.
- `Git.ListWorktrees`: a field that was never set (`undefined`) and `null` are both `None`. They differ only on a record with no `worktree ` line, and such a record is never emitted.
- Thrown values that are not `Error` objects (ga.ts:57, gd.ts:76 and 89) are not modelled. The commands raise only `Error`s, so the failure message is given as a string.
- Asynchrony: the flows are strictly sequential and are modelled as such.
