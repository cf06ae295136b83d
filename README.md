# Minify action, modelled in Dafny

This project models `main.js`, a GitHub Action that minifies the `.js` and
`.css` files of a repository and opens a pull request with the results on the
branch `minified_branch`. The model covers these parts of the action:

- the entry checks: the `GITHUB_TOKEN` must be present, and a run on
  `minified_branch` itself stops early;
- the directory input and the glob pattern built from it;
- `minifyFile`, which dispatches on the file extension (Node's
  `path.extname`);
- the completion accumulator: one task per discovered file, a `then`
  callback that appends to `final`, and a `finally` callback that publishes
  once `final` is as long as the file list;
- the pull-request payload: the file map, the Markdown description, and the
  title and commit message.

Modules:

- `Results`: `Option` (where `None` is JavaScript's `undefined`) and `Result`.
- `Decimal`: how a count is written in the title.
- `Paths`: `path.extname`.
- `RunEntry`: the token, the branch, the directory and the pattern.
- `Minify`: `minifyFile`.
- `Payload`: what `createPullRequest` receives.
- `Gate`: the class `Run`, holding the shared `final` array and both
  callbacks, and `Simulate`, which plays the callbacks in any order that the
  promises can settle in.
- `Action`: one whole run.

Several things become parameters of the model:

- the environment (`directory` input, token, `github.context.ref`);
- the repository owner and name;
- file discovery, a function from pattern to file list or failure;
- `fs.readFileSync`, terser and csso, each a function that yields a value
  or an error;
- the order in which callbacks run.

## Model

| member | source | states |
|---|---|---|
| RunEntry.Init | main.js:15-44 | A missing or empty token gives "token not found" whatever the branch. Otherwise the run stops exactly when the sliced ref is `minified_branch`. Otherwise discovery uses that branch and the pattern built from the normalised directory. |
| RunEntry.CurrentBranch | main.js:23 | The branch is the ref without its first 11 characters (the length of `refs/heads/`). A ref of 11 characters or fewer gives the empty string. |
| RunEntry.CurrentBranchOfHeadsRef | main.js:23 | For a ref `refs/heads/<b>`, the branch is exactly `<b>`. |
| RunEntry.SkipsExactlyOutputBranch | main.js:23-28 | A push to `refs/heads/<b>` is skipped if and only if `<b>` is `minified_branch`. |
| RunEntry.NormalizedDirectory | main.js:36-42 | The directory never starts with `.`. It is either "" or the given input. An input that is present and does not start with `.` is kept unchanged. |
| RunEntry.NormalizedDirectoryIdempotent | main.js:36-42 | Normalising an already normalised directory changes nothing. |
| RunEntry.Pattern | main.js:44 | The pattern is the directory followed directly by `**/*.{css,js}`, with no separator added. |
| Paths.Extname | main.js:111 | A non-empty extension starts with `.`, has no other `.` and no `/`, and ends the last path component after at least one other character. |
| Paths.ExtnameIs | main.js:111 | For an extension such as `.js`, `extname(p)` equals it if and only if the last path component (trailing slashes dropped) is longer than the extension and ends with it. |
| Paths.ExtnameJs | main.js:111-114 | `extname(p) == ".js"` if and only if the last component ends in `.js` after at least one other character. |
| Paths.ExtnameCss | main.js:111-119 | `extname(p) == ".css"` if and only if the last component ends in `.css` after at least one other character. |
| Paths.DotFileHasNoExtension | main.js:111 | A dot file such as `dir/.js` has no extension, so it is neither minifier's input. |
| Action.Tasks | main.js:56-57 | There is one task per discovered file, in discovery order, and each settles with `minifyFile` of its file. A task fails only when its file cannot be read or its minifier fails. It resolves with content only for a `.js` or `.css` file. |
| Minify.MinifyFile | main.js:109-122 | The call succeeds only if the read succeeds. Content is present only when the extension is `.js` and terser produced it, or the extension is `.css` and csso produced it. The result is `undefined` exactly when the read succeeded and the extension is neither. |
| Minify.JsFilesUseJsMinifier | main.js:114-118 | A `.js` file's result is what the JS minifier makes of its content, whatever the CSS minifier would do. |
| Minify.CssFilesUseCssMinifier | main.js:119-120 | A `.css` file's result is what csso makes of its content, whatever the JS minifier would do. |
| Minify.OtherFilesHaveNoContent | main.js:109-122 | Any other file resolves with `undefined` when it can be read, and fails with the read error otherwise. |
| Payload.FileMap | main.js:65-69 | The keys of the file map are exactly the accumulated paths. |
| Payload.FileMapLastWins | main.js:67-69 | A path's value in the map is the content of its last entry. |
| Payload.FileMapOfDistinct | main.js:67-69 | When paths are distinct, every entry's content is its path's value in the map. |
| Payload.Description | main.js:72-75 | The description starts with `Changes in these files:` and a newline, and ends with a newline. It is at least 8 characters longer per file than the heading line: each `- **f** ` line and its newline take at least 8 characters. |
| Payload.LinesSnoc | main.js:73-75 | Appending a file to the list appends `- **f** ` and a newline to the description. |
| Payload.DescriptionLines | main.js:72-75 | When no path contains a newline, splitting the description at newlines gives the heading `Changes in these files:`, then one line `- **f** ` per file in order, then an empty last line. |
| Payload.DescriptionSnoc | main.js:73-75 | Adding a file to the list adds `- **f** ` and a newline at the end of the description. |
| Payload.Title | main.js:81 | The title is `Minified `, then a count written without a leading zero, then ` files`. |
| Payload.TitleAnnouncesCount | main.js:81 | The title `Minified N files` can be read back to exactly N. |
| Payload.TitleOfCount | main.js:81 | A title that announces N is exactly the title for N. No other text, such as `Minified 02 files`, announces the same count. |
| Payload.Request | main.js:78-88 | The request goes to the given owner and repo with head `minified_branch` and one change carrying the file map. The commit message equals the title. The title is `Minified N files`, with N the number of files written in decimal. The body is the description of the files. |
| Decimal.NatToStringRoundTrip | main.js:81 | The decimal text of the count reads back to the count. |
| Decimal.CanonicalRoundTrip | main.js:81 | Digits without a leading zero are exactly the decimal text of the number they denote. |
| Gate.Run.constructor | main.js:54 | A run starts with an empty `final`. |
| Gate.Run.OnThen | main.js:58-63 | A `then` callback appends exactly the file and its content to `final`, so `final` only grows. |
| Gate.Run.OnFinally | main.js:64-92 | A request is built if and only if `final` is as long as the file list, the branch is not `minified_branch` and there is at least one file. The request is built from the file map of `final`, and `final` is left unchanged. |
| Gate.EncodeStructure | main.js:65-69 | The loop fills `encodedStructure` with exactly the file map of `final`. |
| Gate.Describe | main.js:72-75 | The `+=` loop builds exactly the description of the files. |
| Gate.Simulate | main.js:52-98 | In any order the callbacks can run in:<br>- one failed task means nothing is published;<br>- on the output branch, or with no files, nothing is published;<br>- when every task resolves, there is at least one file and the branch is not `minified_branch`, at least one request is published;<br>- every published request holds each discovered file with its resolved content, and nothing else. |
| Gate.FinalAtMostResolved | main.js:56-63 | `final` is never longer than the number of tasks that resolved. |
| Gate.FailureKeepsGateShut | main.js:66 | When a task failed, `final` stays shorter than the file list, so the gate never opens. |
| Gate.LastCallbackSeesAll | main.js:56-66 | When every task resolves, `final` is full by the time the last callback runs. |
| Gate.FullFinalIsComplete | main.js:65-88 | A full `final` means every task resolved, and the request built from it is complete. |
| Gate.BothFinallyCallbacksPublish | main.js:64-92 | Two `then` callbacks followed by both `finally` callbacks build the same request twice. Nothing records that a request was already sent. |
| Action.Execute | main.js:13-102 | A whole run:<br>- it ends with "token not found" if and only if the token is missing or empty;<br>- with a token, it returns before discovery if and only if the branch is `minified_branch`;<br>- past those checks, it ends in "File not found" if and only if discovery fails, and otherwise runs the callbacks;<br>- a run that gets to the callbacks publishes nothing exactly when there are no files or some task failed;<br>- every published request is complete. |

## Left out

- File discovery (`glob` with `dot: true` and the `node_modules` ignore) is a parameter. The model assumes it returns distinct paths.
- `fs.readFileSync`, terser and csso are parameters. Each may succeed or fail; what they compute is not modelled.
- Terser's asynchronous `minify` is modelled by its settled outcome, and a task's `Promise.all` by its single result.
- The call to Octokit's `createPullRequest` and the network stop at the request payload. An exception it throws is not modelled.
- `core.getInput`, `process.env`, `github.context` and `console.log` are inputs or are dropped. Logging has no effect on the model.
- The missing-token error, thrown inside the outer `try`, becomes the run's outcome value. The "File not found" error is thrown inside the asynchronous glob callback, which the outer `try` never catches. It too is modelled as an outcome value, although in JavaScript it is an uncaught exception.
- A task's failure is rethrown by its `.catch` but never reaches the run. The run still ends as `Finished`, and nothing is published. What the rejection then does is not modelled.
- `webpack.config.js` is build configuration and is not part of this model.
- Paths.ExtnameIs: `path.extname` is modelled from Node's documented POSIX behaviour. Windows separators are not modelled.
- Gate.Simulate: it does not promise a single publication. When two tasks resolve before either `finally` callback runs, both callbacks publish; `Gate.BothFinallyCallbacksPublish` shows this.
- RunEntry.CurrentBranch: it drops the first 11 characters of the ref. JavaScript's `slice` counts UTF-16 code units, so the two differ only for refs with characters outside the Basic Multilingual Plane in their first 11 positions.
- RunEntry.Env: `github.context.ref` is always a string here. An undefined ref, which throws a `TypeError` in JavaScript, cannot be expressed.
- Gate.Simulate: each callback is modelled as one indivisible step, as on JavaScript's single event loop. Nothing else runs between callbacks.
