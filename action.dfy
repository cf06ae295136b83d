/** One whole run of the action (main.js, lines 13-102): the entry checks,
    file discovery with the glob pattern, one minification task per file,
    and the callbacks that may publish. Discovery, the file system, the
    minifiers and the order in which the tasks settle are all parameters. */
module Action {
  import opened Results
  import RunEntry
  import Minify
  import Paths
  import Payload
  import Gate

  /** How a run ends: thrown for a missing token, returned early on the
      output branch, thrown when discovery fails, or carried through with
      the requests the callbacks published (possibly none). */
  datatype Outcome =
    | MissingToken
    | SkippedOutputBranch
    | FileNotFound
    | Finished(published: seq<Payload.PullRequest>)

  /** How each discovered file's `minifyFile` promise settles: one task per
      file, in discovery order. A task fails only when its file cannot be
      read or its minifier fails, and it resolves with content only for a
      `.js` or `.css` file. */
  function Tasks(
    files: seq<string>,
    readFile: string -> Result<string>,
    minifyJs: string -> Result<string>,
    minifyCss: string -> Result<string>
  ): (results: seq<Result<Option<string>>>)
    ensures |results| == |files|
    ensures forall i :: 0 <= i < |files| ==>
      results[i] == Minify.MinifyFile(files[i], readFile, minifyJs, minifyCss)
    ensures forall i :: 0 <= i < |files| && results[i].Err? ==>
      readFile(files[i]).Err? ||
      (Paths.Extname(files[i]) == ".js" && minifyJs(readFile(files[i]).value).Err?) ||
      (Paths.Extname(files[i]) == ".css" && minifyCss(readFile(files[i]).value).Err?)
    ensures forall i :: 0 <= i < |files| && results[i].Ok? && results[i].value.Some? ==>
      Paths.Extname(files[i]) in {".js", ".css"}
  {
    seq(|files|, i requires 0 <= i < |files| => Minify.MinifyFile(files[i], readFile, minifyJs, minifyCss))
  }

  /** The files discovery finds for a run's `directory` input. */
  function Discovered(env: RunEntry.Env, glob: string -> Option<seq<string>>): Option<seq<string>> {
    glob(RunEntry.Pattern(RunEntry.NormalizedDirectory(env.directory)))
  }

  /** The run gets past the entry checks: a token is set and the branch is
      not the output branch. */
  predicate Proceeds(env: RunEntry.Env) {
    !RunEntry.TokenMissing(env.token) && RunEntry.CurrentBranch(env.ref) != RunEntry.OutputBranch
  }

  /** A run. A missing token ends it before anything else; a run on the
      output branch returns before discovery; otherwise the files found for
      the pattern are minified and published only if every one of them
      resolved and there is at least one, each publication carrying all
      of them. */
  method Execute(
    env: RunEntry.Env,
    owner: string,
    repo: string,
    glob: string -> Option<seq<string>>,
    readFile: string -> Result<string>,
    minifyJs: string -> Result<string>,
    minifyCss: string -> Result<string>,
    events: seq<Gate.Event>
  ) returns (outcome: Outcome)
    requires Proceeds(env) && Discovered(env, glob).Some? ==>
      Gate.Distinct(Discovered(env, glob).value) &&
      Gate.ValidSchedule(events, Tasks(Discovered(env, glob).value, readFile, minifyJs, minifyCss))
    ensures outcome == MissingToken <==> RunEntry.TokenMissing(env.token)
    ensures outcome == SkippedOutputBranch <==>
      !RunEntry.TokenMissing(env.token) && RunEntry.CurrentBranch(env.ref) == RunEntry.OutputBranch
    ensures outcome == FileNotFound <==> Proceeds(env) && Discovered(env, glob).None?
    ensures outcome.Finished? <==> Proceeds(env) && Discovered(env, glob).Some?
    ensures outcome.Finished? ==>
      var files := Discovered(env, glob).value;
      var results := Tasks(files, readFile, minifyJs, minifyCss);
      && (outcome.published == [] <==> files == [] || !Gate.AllResolved(results))
      && forall p :: p in outcome.published ==> Gate.Complete(p, owner, repo, files, results)
  {
    var start := RunEntry.Init(env);
    match start {
      case TokenNotFound =>
        return MissingToken;
      case AlreadyMinified =>
        return SkippedOutputBranch;
      case Discover(currentBranch, pattern) =>
        var found := glob(pattern);
        if found.None? {
          return FileNotFound;
        }
        var files := found.value;
        var results := Tasks(files, readFile, minifyJs, minifyCss);
        var published := Gate.Simulate(files, currentBranch, owner, repo, results, events);
        return Finished(published);
    }
  }
}
