/**
 * The configuration constants of repo_concatenate.py and its inclusion
 * predicate `should_include_file`.
 */
module Inclusion {
  import opened Paths

  /** The directory the tool is run on. */
  const RepoDir: string := "."
  const OutputFileSuffix: string := ".txt"
  const GitignoreFilename: string := ".gitignore"
  /** The version-control directory, pruned from every walk. */
  const GitDir: string := ".git"

  /** The names the tool derives from its environment: REPO_NAME is the base
      name of the absolute path of the repository directory and SCRIPT_NAME the
      base name of the running script. */
  datatype Config = Config(repoName: string, scriptName: string) {
    /** OUTPUT_FILE: the report's file name. */
    function OutputFile(): string {
      repoName + OutputFileSuffix
    }
  }

  /** The parsed `.gitignore`: either absent, or a matcher that accepts the
      paths to ignore. The matcher's pattern language belongs to the
      `gitignore_parser` library and is left uninterpreted. */
  datatype Gitignore = NoGitignore | Gitignore(matches: string -> bool)

  /** `gitignore is not None and gitignore(path)`. */
  predicate Ignored(m: Gitignore, path: string) {
    m.Gitignore? && m.matches(path)
  }

  /** `should_include_file(file_path, gitignore)`. The first test compares the
      whole path with the bare output file name. */
  predicate ShouldInclude(cfg: Config, m: Gitignore, path: string) {
    && path != cfg.OutputFile()
    && Basename(path) != cfg.scriptName
    && Basename(path) != GitignoreFilename
    && !Ignored(m, path)
  }

  /** For a path the walk builds by joining a directory and an entry name, the
      predicate reduces to: the joined path is not the output file name, the
      entry is neither the script nor the ignore file, and the matcher does not
      accept the joined path. */
  lemma IncludeJoined(cfg: Config, m: Gitignore, top: string, name: string)
    requires IsName(name)
    ensures ShouldInclude(cfg, m, Join(top, name)) <==>
      && Join(top, name) != cfg.OutputFile()
      && name != cfg.scriptName
      && name != GitignoreFilename
      && !Ignored(m, Join(top, name))
  {
    BasenameOfJoin(top, name);
  }

  /** The whole-path test against OUTPUT_FILE never rejects a path the walk
      builds: such a path holds a separator and REPO_NAME, being a base name,
      holds none. So a file named OUTPUT_FILE is excluded only if its name is
      also SCRIPT_NAME or ".gitignore", or the matcher accepts it. */
  lemma OutputTestNeverFires(cfg: Config, m: Gitignore, top: string, name: string)
    requires IsDirPath(top) && IsName(name) && Sep !in cfg.repoName
    ensures Join(top, name) != cfg.OutputFile()
    ensures ShouldInclude(cfg, m, Join(top, name)) <==>
      name != cfg.scriptName && name != GitignoreFilename && !Ignored(m, Join(top, name))
  {
    assert Join(top, name)[|top|] == Sep;
    assert Sep !in cfg.OutputFile();
    IncludeJoined(cfg, m, top, name);
  }
}
