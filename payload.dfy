/** What the publish step hands to `createPullRequest` (main.js, lines 65-88):
    the path-to-content map, the Markdown description and the title and
    commit message. */
module Payload {
  import opened Results
  import Decimal
  import RunEntry

  /** One element of `final`: a file and what its minification resolved with. */
  datatype Entry = Entry(path: string, content: Option<string>)

  /** One element of `changes`: the files to write and the commit message. */
  datatype Change = Change(files: map<string, Option<string>>, commit: string)

  /** The request `createPullRequest` receives. */
  datatype PullRequest = PullRequest(
    owner: string,
    repo: string,
    title: string,
    body: string,
    head: string,
    changes: seq<Change>)

  function EntryPaths(entries: seq<Entry>): set<string> {
    set j | 0 <= j < |entries| :: entries[j].path
  }

  /** `encodedStructure`: every entry of `final`, in order, assigned to its path. */
  function FileMap(entries: seq<Entry>): (m: map<string, Option<string>>)
    ensures m.Keys == EntryPaths(entries)
  {
    if |entries| == 0 then map[]
    else
      var last := entries[|entries| - 1];
      var init := entries[..|entries| - 1];
      assert EntryPaths(entries) == EntryPaths(init) + {last.path} by {
        forall p | p in EntryPaths(entries) ensures p in EntryPaths(init) + {last.path} {
          var j :| 0 <= j < |entries| && entries[j].path == p;
          if j < |init| { assert init[j] == entries[j]; }
        }
        forall p | p in EntryPaths(init) ensures p in EntryPaths(entries) {
          var j :| 0 <= j < |init| && init[j].path == p;
          assert entries[j] == init[j];
        }
      }
      FileMap(init)[last.path := last.content]
  }

  /** A path maps to the content of the last entry that has it. */
  lemma {:induction false} FileMapLastWins(entries: seq<Entry>, k: nat)
    requires k < |entries|
    requires forall j :: k < j < |entries| ==> entries[j].path != entries[k].path
    ensures FileMap(entries)[entries[k].path] == entries[k].content
    decreases |entries|
  {
    if k < |entries| - 1 {
      var init := entries[..|entries| - 1];
      assert init[k] == entries[k];
      FileMapLastWins(init, k);
    }
  }

  /** With no path repeated, the map sends every entry's path to its content. */
  lemma FileMapOfDistinct(entries: seq<Entry>, k: nat)
    requires k < |entries|
    requires forall i, j :: 0 <= i < j < |entries| ==> entries[i].path != entries[j].path
    ensures FileMap(entries)[entries[k].path] == entries[k].content
  {
    FileMapLastWins(entries, k);
  }

  /** The first line of the description. */
  const Heading := "Changes in these files:"

  /** The description's line for one file, without its newline. */
  function FileLine(f: string): string {
    "- **" + f + "** "
  }

  function Lines(files: seq<string>): (l: string)
    ensures |l| >= 8 * |files|
    ensures files == [] <==> l == ""
    ensures l != "" ==> l[|l| - 1] == '\n'
  {
    if |files| == 0 then "" else FileLine(files[0]) + "\n" + Lines(files[1..])
  }

  /** `prDescription`: the heading, then one line per discovered file, in order. */
  function Description(files: seq<string>): (d: string)
    ensures |d| >= |Heading| + 1 + 8 * |files|
    ensures d[..|Heading| + 1] == Heading + "\n"
    ensures d[|d| - 1] == '\n'
  {
    Heading + "\n" + Lines(files)
  }

  /** Appending a file appends its line: the shape of the loop that builds the
      description with `+=`. */
  lemma {:induction false} LinesSnoc(files: seq<string>, f: string)
    ensures Lines(files + [f]) == Lines(files) + FileLine(f) + "\n"
    decreases |files|
  {
    if |files| > 0 {
      assert (files + [f])[1..] == files[1..] + [f];
      LinesSnoc(files[1..], f);
    }
  }

  /** Appending a file to the list appends its line to the description. */
  lemma DescriptionSnoc(files: seq<string>, f: string)
    ensures Description(files + [f]) == Description(files) + (FileLine(f) + "\n")
  {
    LinesSnoc(files, f);
  }

  /** A string cut at every newline. */
  function SplitLines(s: string): (parts: seq<string>)
    ensures |parts| >= 1
    decreases |s|
  {
    if |s| == 0 then [""]
    else if s[0] == '\n' then [""] + SplitLines(s[1..])
    else
      var rest := SplitLines(s[1..]);
      [[s[0]] + rest[0]] + rest[1..]
  }

  lemma {:induction false} SplitLinesAfterLine(line: string, rest: string)
    requires '\n' !in line
    ensures SplitLines(line + "\n" + rest) == [line] + SplitLines(rest)
    decreases |line|
  {
    var s := line + "\n" + rest;
    if |line| == 0 {
      assert s[1..] == rest;
    } else {
      assert s[1..] == line[1..] + "\n" + rest;
      SplitLinesAfterLine(line[1..], rest);
      assert [line[0]] + line[1..] == line;
    }
  }

  /** Cut at its newlines, the description is the heading, then exactly one
      line per file in discovery order, then the empty text after the last
      newline. */
  lemma {:induction false} DescriptionLines(files: seq<string>)
    requires forall i :: 0 <= i < |files| ==> '\n' !in files[i]
    ensures SplitLines(Description(files)) ==
      [Heading] + seq(|files|, i requires 0 <= i < |files| => FileLine(files[i])) + [""]
  {
    SplitLinesAfterLine(Heading, Lines(files));
    LinesSplit(files);
  }

  lemma {:induction false} LinesSplit(files: seq<string>)
    requires forall i :: 0 <= i < |files| ==> '\n' !in files[i]
    ensures SplitLines(Lines(files)) ==
      seq(|files|, i requires 0 <= i < |files| => FileLine(files[i])) + [""]
    decreases |files|
  {
    if |files| > 0 {
      assert '\n' !in FileLine(files[0]) by {
        assert FileLine(files[0]) == "- **" + files[0] + "** ";
      }
      SplitLinesAfterLine(FileLine(files[0]), Lines(files[1..]));
      LinesSplit(files[1..]);
    }
  }

  /** `Minified ${n} files`: the title, and also the commit message. */
  function Title(n: nat): (t: string)
    ensures |t| >= 15 && t[..9] == "Minified " && t[|t| - 6..] == " files"
    ensures Decimal.IsCanonical(t[9..|t| - 6])
  {
    var t := "Minified " + Decimal.NatToString(n) + " files";
    assert t[9..|t| - 6] == Decimal.NatToString(n);
    t
  }

  /** The file count a title of that shape announces, with the count written
      as a template literal writes a number: digits without a leading zero. */
  function CountInTitle(title: string): Option<nat> {
    if |title| >= 15 && title[..9] == "Minified " && title[|title| - 6..] == " files" &&
       Decimal.IsCanonical(title[9..|title| - 6])
    then Some(Decimal.DigitsValue(title[9..|title| - 6]))
    else None
  }

  /** The title announces exactly the number of discovered files. */
  lemma TitleAnnouncesCount(n: nat)
    ensures CountInTitle(Title(n)) == Some(n)
  {
    var t := Title(n);
    assert t[9..|t| - 6] == Decimal.NatToString(n);
    Decimal.NatToStringRoundTrip(n);
  }

  /** A title that announces `n` is the title for `n`: no other text, such
      as one with a leading zero, announces the same count. */
  lemma TitleOfCount(title: string, n: nat)
    requires CountInTitle(title) == Some(n)
    ensures title == Title(n)
  {
    var digits := title[9..|title| - 6];
    Decimal.CanonicalRoundTrip(digits);
    assert title == title[..9] + digits + title[|title| - 6..];
  }

  /** The request built once the gate opens: title and commit message both
      announce the number of discovered files, the description lists them,
      and the head branch is always the output branch. */
  function Request(owner: string, repo: string, files: seq<string>, fileMap: map<string, Option<string>>): (pr: PullRequest)
    ensures pr.owner == owner && pr.repo == repo
    ensures pr.head == RunEntry.OutputBranch
    ensures |pr.changes| == 1 && pr.changes[0].files == fileMap
    ensures pr.changes[0].commit == pr.title
    ensures CountInTitle(pr.title) == Some(|files|)
    ensures pr.title == "Minified " + Decimal.NatToString(|files|) + " files"
    ensures pr.body == Description(files)
  {
    TitleAnnouncesCount(|files|);
    PullRequest(owner, repo, Title(|files|), Description(files), RunEntry.OutputBranch,
                [Change(fileMap, Title(|files|))])
  }
}
