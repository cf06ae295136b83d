/** The checks `init` makes before it starts looking for files
    (main.js, lines 15-44): the token, the current branch, and the glob
    pattern built from the `directory` input. */
module RunEntry {
  import opened Results

  /** The branch the action writes to, and whose runs it skips. */
  const OutputBranch := "minified_branch"

  /** What `github.context.ref` carries before the branch name. */
  const HeadsPrefix := "refs/heads/"

  /** The part of the glob pattern that follows the directory. */
  const GlobSuffix := "**/*.{css,js}"

  /** The ambient inputs of a run: the `directory` action input, the
      `GITHUB_TOKEN` environment variable and the git ref of the workflow
      (`None` stands for `undefined` or `null`). */
  datatype Env = Env(directory: Option<string>, token: Option<string>, ref: string)

  /** How a run continues after its entry checks. */
  datatype Start =
    | TokenNotFound
    | AlreadyMinified
    | Discover(branch: string, pattern: string)

  /** The token check: an undefined or empty token stops the run. */
  predicate TokenMissing(token: Option<string>) {
    token.None? || |token.value| == 0
  }

  /** `ref.slice(11)`: the ref without its first eleven characters, or ""
      when the ref is no longer than that. */
  function CurrentBranch(ref: string): (branch: string)
    ensures |ref| <= |HeadsPrefix| ==> branch == ""
    ensures |ref| > |HeadsPrefix| ==> |branch| == |ref| - |HeadsPrefix| && ref[|HeadsPrefix|..] == branch
  {
    if |ref| <= 11 then "" else ref[11..]
  }

  /** A branch ref gives back the branch it names. */
  lemma CurrentBranchOfHeadsRef(branch: string)
    ensures CurrentBranch(HeadsPrefix + branch) == branch
  {
    var ref := HeadsPrefix + branch;
    if |branch| > 0 {
      assert ref[11..] == branch;
    }
  }

  /** A run on `refs/heads/<b>` is skipped exactly when `b` is the output branch. */
  lemma SkipsExactlyOutputBranch(branch: string)
    ensures CurrentBranch(HeadsPrefix + branch) == OutputBranch <==> branch == OutputBranch
  {
    CurrentBranchOfHeadsRef(branch);
  }

  predicate StartsWithDot(s: string) {
    |s| > 0 && s[0] == '.'
  }

  /** The directory the pattern starts with: the input itself, unless it is
      missing or starts with '.', in which case the repository root "". */
  function NormalizedDirectory(directory: Option<string>): (dir: string)
    ensures !StartsWithDot(dir)
    ensures dir == "" || (directory.Some? && dir == directory.value)
    ensures directory.Some? && !StartsWithDot(directory.value) ==> dir == directory.value
  {
    if directory.None? || StartsWithDot(directory.value) then "" else directory.value
  }

  /** Feeding a normalised directory back in changes nothing. */
  lemma NormalizedDirectoryIdempotent(directory: Option<string>)
    ensures NormalizedDirectory(Some(NormalizedDirectory(directory))) == NormalizedDirectory(directory)
  {
  }

  /** The glob pattern: the directory immediately followed by the suffix,
      with no separator in between. */
  function Pattern(dir: string): (pattern: string)
    ensures |pattern| == |dir| + |GlobSuffix|
    ensures pattern[..|dir|] == dir && pattern[|dir|..] == GlobSuffix
  {
    dir + GlobSuffix
  }

  /** The entry of `init`: the token check comes first, then the branch is
      read and a run on the output branch stops, and only then is the
      directory input normalised into the glob pattern. */
  method Init(env: Env) returns (start: Start)
    ensures start == TokenNotFound <==> TokenMissing(env.token)
    ensures start.AlreadyMinified? <==> !TokenMissing(env.token) && CurrentBranch(env.ref) == OutputBranch
    ensures start.Discover? ==> start.branch == CurrentBranch(env.ref) != OutputBranch
    ensures start.Discover? ==> start.pattern == Pattern(NormalizedDirectory(env.directory))
  {
    var directory := env.directory;
    if TokenMissing(env.token) {
      return TokenNotFound;
    }
    var currentBranch := CurrentBranch(env.ref);
    if currentBranch == OutputBranch {
      return AlreadyMinified;
    }
    if directory.None? || StartsWithDot(directory.value) {
      directory := Some("");
    }
    var pattern := directory.value + GlobSuffix;
    start := Discover(currentBranch, pattern);
  }
}
