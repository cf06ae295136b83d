/** The completion accumulator and publish gate of the glob callback
    (main.js, lines 54-70). Every discovered file gets a task whose `then`
    callback appends its result to `final` and whose `finally` callback
    publishes once `final` is as long as the list of files. JavaScript runs
    each callback to completion on one thread, so the callbacks are modelled
    as methods called one after another, in whatever order the tasks settle. */
module Gate {
  import opened Results
  import RunEntry
  import opened Payload

  /** The state shared by the callbacks of one run. */
  class Run {
    const files: seq<string>
    const currentBranch: string
    const owner: string
    const repo: string
    var final: seq<Entry>

    constructor (files: seq<string>, currentBranch: string, owner: string, repo: string)
      ensures this.files == files && this.currentBranch == currentBranch
      ensures this.owner == owner && this.repo == repo
      ensures final == []
    {
      this.files := files;
      this.currentBranch := currentBranch;
      this.owner := owner;
      this.repo := repo;
      final := [];
    }

    /** A task's `then` callback: the resolved file is appended to `final`. */
    method OnThen(file: string, content: Option<string>)
      modifies this
      ensures final == old(final) + [Entry(file, content)]
    {
      final := final + [Entry(file, content)];
    }

    /** A task's `finally` callback: when every file has an entry, there is at
        least one file and the run is not on the output branch, it yields the
        request to publish; otherwise nothing. It changes no state. */
    method OnFinally() returns (request: Option<PullRequest>)
      ensures request.Some? <==>
        |final| == |files| && currentBranch != RunEntry.OutputBranch && |files| != 0
      ensures request.Some? ==> request.value == Request(owner, repo, files, FileMap(final))
    {
      if |final| == |files| && currentBranch != RunEntry.OutputBranch && |files| != 0 {
        var encodedStructure := EncodeStructure(final);
        var prDescription := Describe(files);
        var title := Title(|files|);
        request := Some(PullRequest(owner, repo, title, prDescription, RunEntry.OutputBranch,
                                    [Change(encodedStructure, title)]));
      } else {
        request := None;
      }
    }
  }

  /** The `forEach` that fills `encodedStructure`: each entry's path is set to
      its content, a later entry for the same path overwriting an earlier one. */
  method EncodeStructure(final: seq<Entry>) returns (encodedStructure: map<string, Option<string>>)
    ensures encodedStructure == FileMap(final)
  {
    encodedStructure := map[];
    var i := 0;
    while i < |final|
      invariant 0 <= i <= |final|
      invariant encodedStructure == FileMap(final[..i])
    {
      assert final[..i + 1][..i] == final[..i];
      encodedStructure := encodedStructure[final[i].path := final[i].content];
      i := i + 1;
    }
    assert final[..i] == final;
  }

  /** The `forEach` that builds `prDescription` with `+=`, one line per file. */
  method Describe(files: seq<string>) returns (prDescription: string)
    ensures prDescription == Description(files)
  {
    prDescription := Heading + "\n";
    var k := 0;
    while k < |files|
      invariant 0 <= k <= |files|
      invariant prDescription == Description(files[..k])
    {
      assert files[..k + 1] == files[..k] + [files[k]];
      DescriptionSnoc(files[..k], files[k]);
      assert "- **" + files[k] + "** \n" == FileLine(files[k]) + "\n";
      prDescription := prDescription + ("- **" + files[k] + "** \n");
      k := k + 1;
    }
    assert files[..k] == files;
  }

  /** A callback run: the `then` or the `finally` callback of the task for
      the file with that index. */
  datatype Event = Then(task: nat) | Finally(task: nat)

  /** The orders in which callbacks can run, given how each task's
      minification settled: every callback runs at most once; `then` runs
      exactly for the tasks that resolved; `finally` runs for every task; and
      a task's `then` runs before its own `finally`. */
  ghost predicate ValidSchedule(events: seq<Event>, results: seq<Result<Option<string>>>) {
    && (forall k :: 0 <= k < |events| ==> events[k].task < |results|)
    && (forall k, l :: 0 <= k < l < |events| ==> events[k] != events[l])
    && (forall k :: 0 <= k < |events| && events[k].Then? ==> results[events[k].task].Ok?)
    && (forall i :: 0 <= i < |results| ==> Finally(i) in events)
    && (forall i :: 0 <= i < |results| && results[i].Ok? ==> Then(i) in events)
    && (forall k, l :: 0 <= k < |events| && 0 <= l < |events| && events[k].Then? && events[l] == Finally(events[k].task) ==> k < l)
  }

  predicate Distinct<T(==)>(s: seq<T>) {
    forall i, j :: 0 <= i < j < |s| ==> s[i] != s[j]
  }

  predicate AllResolved(results: seq<Result<Option<string>>>) {
    forall i :: 0 <= i < |results| ==> results[i].Ok?
  }

  /** A published request carries every discovered file with the content its
      task resolved with, and nothing else. */
  ghost predicate Complete(pr: PullRequest, owner: string, repo: string, files: seq<string>, results: seq<Result<Option<string>>>)
    requires |results| == |files|
  {
    && |pr.changes| == 1
    && pr == Request(owner, repo, files, pr.changes[0].files)
    && pr.changes[0].files.Keys == (set i | 0 <= i < |files| :: files[i])
    && forall i :: 0 <= i < |files| ==> results[i].Ok? && pr.changes[0].files[files[i]] == results[i].value
  }

  /** How the callbacks seen so far (`seen`) account for `final`: `order`
      lists the task behind each entry, with no task twice, and a task has
      an entry exactly when its `then` callback has run. */
  ghost predicate Tracks(final: seq<Entry>, order: seq<nat>, files: seq<string>, results: seq<Result<Option<string>>>, seen: seq<Event>)
    requires |results| == |files|
  {
    && |order| == |final|
    && Distinct(order)
    && (forall j :: 0 <= j < |order| ==>
          order[j] < |files| && results[order[j]].Ok? &&
          final[j] == Entry(files[order[j]], results[order[j]].value))
    && (forall i :: 0 <= i < |files| ==> (Then(i) in seen <==> i in order))
  }

  /** Runs the callbacks of one run's tasks in the order `events` gives and
      returns the requests the `finally` callbacks publish. Publication needs
      every task to have resolved: one failed task and nothing is ever
      published. When every task resolves, at least the last callback
      publishes, and each published request holds exactly the discovered
      files with their contents. */
  method Simulate(
    files: seq<string>,
    currentBranch: string,
    owner: string,
    repo: string,
    results: seq<Result<Option<string>>>,
    events: seq<Event>
  ) returns (published: seq<PullRequest>)
    requires |results| == |files|
    requires Distinct(files)
    requires ValidSchedule(events, results)
    ensures !AllResolved(results) ==> published == []
    ensures currentBranch == RunEntry.OutputBranch || files == [] ==> published == []
    ensures AllResolved(results) && files != [] && currentBranch != RunEntry.OutputBranch ==> published != []
    ensures forall p :: p in published ==> Complete(p, owner, repo, files, results)
  {
    var run := new Run(files, currentBranch, owner, repo);
    published := [];
    ghost var order: seq<nat> := [];
    if files != [] {
      assert Finally(0) in events;
    }
    var k := 0;
    while k < |events|
      invariant 0 <= k <= |events|
      invariant fresh(run)
      invariant Tracks(run.final, order, files, results, events[..k])
      invariant !AllResolved(results) ==> published == []
      invariant currentBranch == RunEntry.OutputBranch || files == [] ==> published == []
      invariant AllResolved(results) && files != [] && currentBranch != RunEntry.OutputBranch && k == |events| ==> published != []
      invariant forall p :: p in published ==> Complete(p, owner, repo, files, results)
      decreases |events| - k
    {
      match events[k] {
        case Then(i) =>
          TrackThen(run.final, order, files, results, events, k);
          run.OnThen(files[i], results[i].value);
          order := order + [i];
        case Finally(i) =>
          TrackFinally(run.final, order, files, results, events, k);
          if k == |events| - 1 && AllResolved(results) {
            LastCallbackSeesAll(run.final, order, files, results, events);
          }
          if !AllResolved(results) {
            FailureKeepsGateShut(run.final, order, files, results, events[..k]);
          }
          var request := run.OnFinally();
          if request.Some? {
            FullFinalIsComplete(owner, repo, run.final, order, files, results, events[..k]);
            published := published + [request.value];
          }
      }
      k := k + 1;
    }
  }

  lemma TrackThen(final: seq<Entry>, order: seq<nat>, files: seq<string>, results: seq<Result<Option<string>>>, events: seq<Event>, k: nat)
    requires |results| == |files|
    requires ValidSchedule(events, results)
    requires k < |events| && events[k].Then?
    requires Tracks(final, order, files, results, events[..k])
    ensures k < |events| - 1
    ensures events[k].task < |files| && results[events[k].task].Ok?
    ensures Tracks(final + [Entry(files[events[k].task], results[events[k].task].value)],
                   order + [events[k].task], files, results, events[..k + 1])
  {
    var i := events[k].task;
    assert events[..k + 1] == events[..k] + [events[k]];
    assert Then(i) !in events[..k];
    var l :| 0 <= l < |events| && events[l] == Finally(i);
    assert k < l;
  }

  lemma TrackFinally(final: seq<Entry>, order: seq<nat>, files: seq<string>, results: seq<Result<Option<string>>>, events: seq<Event>, k: nat)
    requires |results| == |files|
    requires k < |events| && events[k].Finally?
    requires Tracks(final, order, files, results, events[..k])
    ensures Tracks(final, order, files, results, events[..k + 1])
  {
    assert events[..k + 1] == events[..k] + [events[k]];
  }

  /** When the last callback runs and every task resolved, every `then`
      callback has already run, so `final` holds one entry per file. */
  lemma LastCallbackSeesAll(final: seq<Entry>, order: seq<nat>, files: seq<string>, results: seq<Result<Option<string>>>, events: seq<Event>)
    requires |results| == |files|
    requires ValidSchedule(events, results)
    requires |events| > 0 && events[|events| - 1].Finally?
    requires AllResolved(results)
    requires Tracks(final, order, files, results, events[..|events| - 1])
    ensures |final| == |files|
  {
    var k := |events| - 1;
    forall t | 0 <= t < |files| ensures t in order {
      var l :| 0 <= l < |events| && events[l] == Then(t);
      assert l != k;
      assert events[..k][l] == Then(t);
    }
    FullWhenAllEntered(order, |files|);
  }

  /** A task that failed never gets an entry, so `final` stays shorter than
      the list of files. */
  lemma FailureKeepsGateShut(final: seq<Entry>, order: seq<nat>, files: seq<string>, results: seq<Result<Option<string>>>, seen: seq<Event>)
    requires |results| == |files|
    requires Tracks(final, order, files, results, seen)
    requires !AllResolved(results)
    ensures |final| < |files|
  {
    var bad :| 0 <= bad < |files| && results[bad].Err?;
    assert bad !in order;
    ShortWhenOneMissing(order, |files|, bad);
  }

  /** The tasks whose minification resolved. */
  function Resolved(results: seq<Result<Option<string>>>): set<nat> {
    set i: nat | i < |results| && results[i].Ok?
  }

  /** Only resolved tasks get an entry, each at most once, so `final` is never
      longer than the number of tasks that resolved. */
  lemma FinalAtMostResolved(final: seq<Entry>, order: seq<nat>, files: seq<string>, results: seq<Result<Option<string>>>, seen: seq<Event>)
    requires |results| == |files|
    requires Tracks(final, order, files, results, seen)
    ensures |final| <= |Resolved(results)|
  {
    DistinctCard(order);
    SubsetCard(Elements(order), Resolved(results));
  }

  /** Once `final` holds one entry per file, every task resolved and the
      request built from `final` is complete. */
  lemma FullFinalIsComplete(owner: string, repo: string, final: seq<Entry>, order: seq<nat>, files: seq<string>, results: seq<Result<Option<string>>>, seen: seq<Event>)
    requires |results| == |files| && Distinct(files)
    requires Tracks(final, order, files, results, seen)
    requires |final| == |files|
    ensures AllResolved(results)
    ensures Complete(Request(owner, repo, files, FileMap(final)), owner, repo, files, results)
  {
    AllEntered(order, |files|);
    PublishedIsComplete(owner, repo, final, order, files, results);
  }

  /** The request `OnFinally` builds from a full `final` is complete. */
  lemma PublishedIsComplete(owner: string, repo: string, final: seq<Entry>, order: seq<nat>, files: seq<string>, results: seq<Result<Option<string>>>)
    requires |results| == |files| && Distinct(files)
    requires |order| == |final| == |files|
    requires Distinct(order)
    requires forall j :: 0 <= j < |order| ==>
      order[j] < |files| && results[order[j]].Ok? &&
      final[j] == Entry(files[order[j]], results[order[j]].value)
    requires forall i :: 0 <= i < |files| ==> i in order
    ensures Complete(Request(owner, repo, files, FileMap(final)), owner, repo, files, results)
  {
    forall t | 0 <= t < |files|
      ensures results[t].Ok? && files[t] in FileMap(final) && FileMap(final)[files[t]] == results[t].value
    {
      TaskEntry(final, order, files, results, t);
    }
  }

  lemma TaskEntry(final: seq<Entry>, order: seq<nat>, files: seq<string>, results: seq<Result<Option<string>>>, t: nat)
    requires |results| == |files| && Distinct(files)
    requires |order| == |final| == |files|
    requires Distinct(order)
    requires forall j :: 0 <= j < |order| ==>
      order[j] < |files| && results[order[j]].Ok? &&
      final[j] == Entry(files[order[j]], results[order[j]].value)
    requires forall i :: 0 <= i < |files| ==> i in order
    requires t < |files|
    ensures results[t].Ok?
    ensures files[t] in FileMap(final)
    ensures FileMap(final)[files[t]] == results[t].value
  {
    var j := IndexOf(order, t);
    forall a, b | 0 <= a < b < |final| ensures final[a].path != final[b].path {
      assert order[a] != order[b];
    }
    FileMapOfDistinct(final, j);
  }

  lemma IndexOf(s: seq<nat>, x: nat) returns (j: nat)
    requires x in s
    ensures j < |s| && s[j] == x
  {
    j :| 0 <= j < |s| && s[j] == x;
  }

  function Below(n: nat): (r: set<nat>)
    ensures forall i: nat :: i in r <==> i < n
  {
    if n == 0 then {} else Below(n - 1) + {n - 1}
  }

  function Elements(s: seq<nat>): set<nat> {
    set x | x in s
  }

  lemma {:induction false} BelowCard(n: nat)
    ensures |Below(n)| == n
  {
    if n > 0 {
      BelowCard(n - 1);
    }
  }

  lemma {:induction false} DistinctCard(s: seq<nat>)
    requires Distinct(s)
    ensures |Elements(s)| == |s|
  {
    if |s| > 0 {
      var init := s[..|s| - 1];
      assert Elements(s) == Elements(init) + {s[|s| - 1]};
      assert s[|s| - 1] !in Elements(init);
      DistinctCard(init);
    }
  }

  lemma SubsetCard(a: set<nat>, b: set<nat>)
    requires a <= b
    ensures |a| <= |b|
  {
    assert b == a + (b - a);
  }

  /** A duplicate-free list of task indices below `n` that leaves one out is
      shorter than `n`. */
  lemma ShortWhenOneMissing(order: seq<nat>, n: nat, missing: nat)
    requires Distinct(order)
    requires forall j :: 0 <= j < |order| ==> order[j] < n
    requires missing < n && missing !in order
    ensures |order| < n
  {
    DistinctCard(order);
    BelowCard(n);
    SubsetCard(Elements(order), Below(n) - {missing});
  }

  /** A duplicate-free list of `n` task indices below `n` holds every one of them. */
  lemma AllEntered(order: seq<nat>, n: nat)
    requires Distinct(order) && |order| == n
    requires forall j :: 0 <= j < |order| ==> order[j] < n
    ensures forall i :: 0 <= i < n ==> i in order
  {
    forall i | 0 <= i < n ensures i in order {
      if i !in order {
        ShortWhenOneMissing(order, n, i);
      }
    }
  }

  /** A duplicate-free list of task indices below `n` that holds every one of them has length `n`. */
  lemma FullWhenAllEntered(order: seq<nat>, n: nat)
    requires Distinct(order)
    requires forall j :: 0 <= j < |order| ==> order[j] < n
    requires forall i :: 0 <= i < n ==> i in order
    ensures |order| == n
  {
    DistinctCard(order);
    BelowCard(n);
    assert Elements(order) == Below(n);
  }

  /** Two `then` callbacks before either `finally`: both `finally` callbacks
      pass the test and each yields a request, so the same change is
      published twice. Nothing in the callbacks records a publication. */
  method BothFinallyCallbacksPublish() returns (first: Option<PullRequest>, second: Option<PullRequest>)
    ensures first.Some? && second.Some? && first == second
  {
    var run := new Run(["a.js", "b.css"], "main", "owner", "repo");
    run.OnThen("a.js", Some("a"));
    run.OnThen("b.css", Some("b"));
    first := run.OnFinally();
    second := run.OnFinally();
  }
}
