/** The `git_prompt` command as a whole (`GitPrompt::run`): the guards on
    the working directory, snapshot collection, and rendering. The host's
    current directory, the directory checks and the size walk over `.git`
    are inputs. */
module Prompt {
  import opened Wrappers
  import opened Status
  import opened Renderer
  import opened Collect

  /** Above this many bytes of files under `.git`, the prompt gives up. */
  const MaxGitDirBytes: nat := 1_000_000_000

  /** What the host and the file system report about the current directory:
      whether it is a directory, and the sizes of the regular files the walk
      over its `.git` directory found (`None` when there is no `.git` directory). */
  datatype Directory = Directory(isDir: bool, gitDirFiles: Option<seq<nat>>)

  function Sum(sizes: seq<nat>): nat {
    if |sizes| == 0 then 0 else sizes[0] + Sum(sizes[1..])
  }

  /** True when the `.git` directory is too large to inspect on every prompt. */
  predicate Oversized(dir: Directory) {
    dir.gitDirFiles.Some? && Sum(dir.gitDirFiles.value) > MaxGitDirBytes
  }

  /** The string `GitPrompt::run` returns. `cwd` is `None` when the host
      cannot report a current directory; `repo` is `None` when no repository
      opens there. */
  function GitPromptLine(cwd: Option<Directory>, repo: Option<Repository>): (line: string)
    ensures line == "" || line[0] == ' '
  {
    if cwd.None? || !cwd.value.isDir then ""
    else if Oversized(cwd.value) then ""
    else
      match Init(repo)
      case None => ""
      case Some(s) => Render(s)
  }

  /** The prompt is empty exactly when a guard fails or no snapshot can be
      collected; otherwise it is the rendered snapshot. */
  lemma GitPromptEmptyIff(cwd: Option<Directory>, repo: Option<Repository>)
    ensures GitPromptLine(cwd, repo) == "" <==>
              || cwd.None? || !cwd.value.isDir || Oversized(cwd.value)
              || repo.None? || repo.value.statuses.None?
    ensures cwd.Some? && cwd.value.isDir && !Oversized(cwd.value) && Init(repo).Some? ==>
              GitPromptLine(cwd, repo) == Render(Init(repo).value)
  {
  }
}
