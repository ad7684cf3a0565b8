/**
 * The scan of the proposals repository: files of open pull requests first, then files added
 * by commits, newest commit first. Commits pass over the names seen before; pull requests do
 * not, so each file comes once exactly when no two pull requests propose a file of one name and
 * no commit names twice a file that only it contributes.
 */
module ProposalScan {
  import opened Wrappers
  import opened ProposalFile

  datatype PullFile = PullFile(fileName: string, added: bool, content: Option<string>)

  /** An open pull request; its file list is missing when it could not be fetched. */
  datatype PullRequest = PullRequest(head: string, files: Option<seq<PullFile>>)

  /** A commit, the names it adds against its first parent, and what can be read of them at that commit. */
  datatype Commit = Commit(hash: string, hasParent: bool, added: seq<string>, contents: map<string, string>)

  datatype GithubProposal = GithubProposal(
    commitHash: string, fileName: string, fileContent: FileContent, prMerged: bool)

  const FOLDER: string := "proposals/"

  predicate EndsWithMd(f: string) {
    |f| >= 3 && f[|f| - 3..] == ".md"
  }

  function Lower(s: string): string {
    seq(|s|, i requires 0 <= i < |s| => if 'A' <= s[i] <= 'Z' then s[i] - 'A' + 'a' else s[i])
  }

  predicate InFolder(f: string) {
    EndsWithMd(f) && IsPrefix(FOLDER, f)
  }

  predicate IsProposal(f: string) {
    InFolder(f) && !Contains(Lower(f), "readme")
  }

  /** The word stands at this place, in letters of either case. */
  predicate ReadmeAt(f: string, i: nat) {
    && i + 6 <= |f|
    && f[i] in {'r', 'R'} && f[i + 1] in {'e', 'E'} && f[i + 2] in {'a', 'A'}
    && f[i + 3] in {'d', 'D'} && f[i + 4] in {'m', 'M'} && f[i + 5] in {'e', 'E'}
  }

  lemma InFolderIs(f: string)
    ensures InFolder(f) <==> |f| >= 10 && f[..10] == "proposals/" && f[|f| - 3..] == ".md"
  {
  }

  /** A proposal is a Markdown file of the folder whose name has no readme in it. */
  lemma IsProposalIs(f: string)
    ensures IsProposal(f) <==>
            |f| >= 10 && f[..10] == "proposals/" && f[|f| - 3..] == ".md" && forall i: nat :: !ReadmeAt(f, i)
  {
    InFolderIs(f);
    ContainsIs(Lower(f), "readme");
    forall i: nat
      ensures OccursAt(Lower(f), "readme", i) <==> ReadmeAt(f, i)
    {
      ReadmeOccurs(f, i);
    }
  }

  lemma ReadmeOccurs(f: string, i: nat)
    ensures OccursAt(Lower(f), "readme", i) <==> ReadmeAt(f, i)
  {
    if i + 6 <= |f| {
      var part := Lower(f)[i..i + 6];
      assert part == [Lower(f)[i], Lower(f)[i + 1], Lower(f)[i + 2], Lower(f)[i + 3], Lower(f)[i + 4], Lower(f)[i + 5]];
    }
  }

  function Names(results: seq<GithubProposal>): set<string> {
    set r | r in results :: r.fileName
  }

  // ----- Pull requests -----

  function AddedFiles(files: seq<PullFile>): seq<PullFile> {
    if files == [] then []
    else
      var last := files[|files| - 1];
      AddedFiles(files[..|files| - 1]) + if AddsProposal(last) then [last] else []
  }

  /** A pull request counts when it adds exactly one proposal file that can be fetched and parsed. */
  function PullResult(pr: PullRequest): Option<GithubProposal> {
    if pr.files.None? then None
    else
      var added := AddedFiles(pr.files.value);
      if |added| != 1 || added[0].content.None? then None
      else
        match Parse(added[0].content.value)
        case Err(_) => None
        case Ok(content) => Some(GithubProposal(pr.head, added[0].fileName, content, false))
  }

  function PullResults(prs: seq<PullRequest>): seq<GithubProposal> {
    if prs == [] then []
    else
      var r := PullResult(prs[|prs| - 1]);
      PullResults(prs[..|prs| - 1]) + if r.Some? then [r.value] else []
  }

  predicate AddsProposal(f: PullFile) {
    f.added && InFolder(f.fileName)
  }

  /** The file at this place is the only proposal that the pull request adds. */
  predicate AddsOnly(files: seq<PullFile>, i: nat) {
    i < |files| && AddsProposal(files[i]) && forall j | 0 <= j < |files| && j != i :: !AddsProposal(files[j])
  }

  /** The pull request adds this one proposal, which can be fetched and parsed. */
  predicate Proposes(pr: PullRequest, i: nat, r: GithubProposal) {
    && pr.files.Some? && AddsOnly(pr.files.value, i)
    && pr.files.value[i].fileName == r.fileName && pr.files.value[i].content.Some?
    && Parse(pr.files.value[i].content.value) == Ok(r.fileContent)
    && r.commitHash == pr.head && !r.prMerged
  }

  lemma {:induction false} NoneAdded(files: seq<PullFile>)
    ensures AddedFiles(files) == [] <==> forall j | 0 <= j < |files| :: !AddsProposal(files[j])
  {
    if files != [] {
      var most, last := files[..|files| - 1], files[|files| - 1];
      NoneAdded(most);
      forall j | 0 <= j < |most|
        ensures most[j] == files[j]
      {
      }
      if AddsProposal(last) {
        assert AddedFiles(files) == AddedFiles(most) + [last];
      } else {
        assert AddedFiles(files) == AddedFiles(most);
      }
    }
  }

  lemma {:induction false} OneAdded(files: seq<PullFile>)
    ensures |AddedFiles(files)| == 1 <==> exists i: nat :: AddsOnly(files, i)
    ensures forall i: nat | AddsOnly(files, i) :: AddedFiles(files) == [files[i]]
  {
    if files != [] {
      var n := |files| - 1;
      var most := files[..n];
      OneAdded(most);
      NoneAdded(most);
      if AddsProposal(files[n]) {
        assert AddedFiles(most) == [] <==> AddsOnly(files, n);
      } else if i: nat :| AddsOnly(most, i) {
        assert AddsOnly(files, i);
      }
      forall i: nat | AddsOnly(files, i)
        ensures AddedFiles(files) == [files[i]]
      {
        assert i < n ==> AddsOnly(most, i);
      }
    }
  }

  ghost predicate ProposedBy(pr: PullRequest, r: GithubProposal) {
    exists i: nat :: Proposes(pr, i, r)
  }

  /** A pull request has a result exactly when it adds just one proposal file that can be fetched and parsed. */
  lemma PullResultIs(pr: PullRequest, r: GithubProposal)
    ensures PullResult(pr) == Some(r) <==> ProposedBy(pr, r)
  {
    if pr.files.Some? {
      var files := pr.files.value;
      OneAdded(files);
      if PullResult(pr) == Some(r) {
        var i: nat :| AddsOnly(files, i);
        assert AddedFiles(files) == [files[i]];
        assert Proposes(pr, i, r);
      }
    }
  }

  lemma PullResultsSnoc(prs: seq<PullRequest>, pr: PullRequest)
    ensures PullResults(prs + [pr]) == PullResults(prs) + if PullResult(pr).Some? then [PullResult(pr).value] else []
  {
    assert (prs + [pr])[..|prs|] == prs;
  }

  lemma PullResultsLast(most: seq<PullRequest>, pr: PullRequest, r: GithubProposal)
    ensures r in PullResults(most + [pr]) <==> r in PullResults(most) || ProposedBy(pr, r)
  {
    PullResultsSnoc(most, pr);
    InWithOption(PullResults(most), PullResult(pr), r);
    PullResultIs(pr, r);
  }

  lemma InWithOption<T>(s: seq<T>, o: Option<T>, x: T)
    ensures x in s + (if o.Some? then [o.value] else []) <==> x in s || o == Some(x)
  {
  }

  lemma ProposedSnoc(most: seq<PullRequest>, pr: PullRequest, r: GithubProposal)
    ensures (exists k :: 0 <= k < |most + [pr]| && ProposedBy((most + [pr])[k], r)) <==>
            (exists k :: 0 <= k < |most| && ProposedBy(most[k], r)) || ProposedBy(pr, r)
  {
    var prs := most + [pr];
    assert prs[|most|] == pr;
    if k :| 0 <= k < |most| && ProposedBy(most[k], r) {
      assert prs[k] == most[k];
    }
    if k :| 0 <= k < |prs| && ProposedBy(prs[k], r) {
      assert k < |most| ==> most[k] == prs[k];
    }
  }

  /** The results from pull requests are what the pull requests propose. */
  lemma {:induction false} PullResultsAre(prs: seq<PullRequest>, r: GithubProposal)
    ensures r in PullResults(prs) <==> exists k :: 0 <= k < |prs| && ProposedBy(prs[k], r)
  {
    if prs != [] {
      var most, pr := prs[..|prs| - 1], prs[|prs| - 1];
      PullResultsAre(most, r);
      PullResultsLast(most, pr, r);
      ProposedSnoc(most, pr, r);
      MostAndLast(prs);
    }
  }

  // ----- When pull requests clash -----

  /** The results that there are. */
  function Present(outcomes: seq<Option<GithubProposal>>): seq<GithubProposal> {
    if outcomes == [] then []
    else
      var last := outcomes[|outcomes| - 1];
      Present(outcomes[..|outcomes| - 1]) + if last.Some? then [last.value] else []
  }

  function Outcomes(prs: seq<PullRequest>): (outcomes: seq<Option<GithubProposal>>)
    ensures |outcomes| == |prs| && forall i | 0 <= i < |prs| :: outcomes[i] == PullResult(prs[i])
  {
    seq(|prs|, i requires 0 <= i < |prs| => PullResult(prs[i]))
  }

  lemma {:induction false} ResultsArePresent(prs: seq<PullRequest>)
    ensures PullResults(prs) == Present(Outcomes(prs))
  {
    if prs != [] {
      var n := |prs| - 1;
      ResultsArePresent(prs[..n]);
      assert Outcomes(prs)[..n] == Outcomes(prs[..n]);
    }
  }

  predicate NoClash(outcomes: seq<Option<GithubProposal>>) {
    forall i, j | 0 <= i < j < |outcomes| && outcomes[i].Some? && outcomes[j].Some? ::
      outcomes[i].value.fileName != outcomes[j].value.fileName
  }

  lemma DistinctSnoc(results: seq<GithubProposal>, r: GithubProposal)
    ensures DistinctFiles(results + [r]) <==> DistinctFiles(results) && r.fileName !in Names(results)
  {
    var all := results + [r];
    if DistinctFiles(all) {
      forall i, j | 0 <= i < j < |results|
        ensures results[i].fileName != results[j].fileName
      {
        assert all[i].fileName != all[j].fileName;
      }
      forall i | 0 <= i < |results|
        ensures results[i].fileName != r.fileName
      {
        assert all[i].fileName != all[|results|].fileName;
      }
    }
  }

  lemma {:induction false} PresentNames(outcomes: seq<Option<GithubProposal>>, f: string)
    ensures f in Names(Present(outcomes)) <==>
            exists i :: 0 <= i < |outcomes| && outcomes[i].Some? && outcomes[i].value.fileName == f
  {
    if outcomes != [] {
      var n := |outcomes| - 1;
      var most, last := outcomes[..n], outcomes[n];
      PresentNames(most, f);
      NamesConcat(Present(most), if last.Some? then [last.value] else []);
      if i :| 0 <= i < |most| && most[i].Some? && most[i].value.fileName == f {
        assert outcomes[i] == most[i];
      }
      if i :| 0 <= i < |outcomes| && outcomes[i].Some? && outcomes[i].value.fileName == f {
        assert i < n ==> most[i] == outcomes[i];
      }
    }
  }

  lemma NoClashSnoc(most: seq<Option<GithubProposal>>, last: Option<GithubProposal>)
    ensures NoClash(most + [last]) <==>
            NoClash(most) && (last.Some? ==> last.value.fileName !in Names(Present(most)))
  {
    var all := most + [last];
    if last.Some? {
      PresentNames(most, last.value.fileName);
    }
    if NoClash(all) {
      forall i, j | 0 <= i < j < |most| && most[i].Some? && most[j].Some?
        ensures most[i].value.fileName != most[j].value.fileName
      {
        assert all[i] == most[i] && all[j] == most[j];
      }
      forall i | 0 <= i < |most| && most[i].Some? && last.Some?
        ensures most[i].value.fileName != last.value.fileName
      {
        assert all[i] == most[i] && all[|most|] == last;
      }
    }
  }

  lemma {:induction false} PresentDistinctExactly(outcomes: seq<Option<GithubProposal>>)
    ensures DistinctFiles(Present(outcomes)) <==> NoClash(outcomes)
  {
    if outcomes != [] {
      var n := |outcomes| - 1;
      var most, last := outcomes[..n], outcomes[n];
      PresentDistinctExactly(most);
      NoClashSnoc(most, last);
      assert outcomes == most + [last];
      if last.Some? {
        DistinctSnoc(Present(most), last.value);
      } else {
        assert Present(outcomes) == Present(most);
      }
    }
  }

  /** The results from pull requests have distinct file names exactly when no two of them propose a file of one name. */
  lemma PullResultsDistinctExactly(prs: seq<PullRequest>)
    ensures DistinctFiles(PullResults(prs)) <==>
            forall i, j | 0 <= i < j < |prs| && PullResult(prs[i]).Some? && PullResult(prs[j]).Some? ::
              PullResult(prs[i]).value.fileName != PullResult(prs[j]).value.fileName
  {
    var outcomes := Outcomes(prs);
    ResultsArePresent(prs);
    PresentDistinctExactly(outcomes);
    if !NoClash(outcomes) {
      var i, j :| 0 <= i < j < |outcomes| && outcomes[i].Some? && outcomes[j].Some?
        && outcomes[i].value.fileName == outcomes[j].value.fileName;
      assert PullResult(prs[i]) == outcomes[i] && PullResult(prs[j]) == outcomes[j];
    }
  }

  /** Two pull requests that propose a file of one name give two results. */
  lemma SameNameTwice(a: PullRequest, b: PullRequest)
    requires PullResult(a).Some? && PullResult(b).Some? && PullResult(a).value.fileName == PullResult(b).value.fileName
    ensures !DistinctFiles(PullResults([a, b]))
  {
    var prs := [a, b];
    PullResultsDistinctExactly(prs);
    assert PullResult(prs[0]) == PullResult(a) && PullResult(prs[1]) == PullResult(b);
  }

  // ----- Commits -----

  /** What reading a file at a commit gives, if the file is still there and can be read and parsed. */
  function ReadAt(c: Commit, existing: set<string>, f: string): Option<GithubProposal> {
    if f !in existing || f !in c.contents then None
    else
      match Parse(c.contents[f])
      case Err(_) => None
      case Ok(content) => Some(GithubProposal(c.hash, f, content, true))
  }

  /** A commit that has a parent, adds the file as a proposal, and lets it be read and parsed. */
  predicate Usable(c: Commit, existing: set<string>, f: string) {
    c.hasParent && f in c.added && IsProposal(f) && ReadAt(c, existing, f).Some?
  }

  function Unseen(names: seq<string>, seen: set<string>): (r: seq<string>)
    ensures forall f :: f in r <==> f in names && IsProposal(f) && f !in seen
  {
    if names == [] then []
    else
      var last := names[|names| - 1];
      assert names == names[..|names| - 1] + [last];
      Unseen(names[..|names| - 1], seen) + if IsProposal(last) && last !in seen then [last] else []
  }

  function ReadAll(c: Commit, existing: set<string>, files: seq<string>): seq<GithubProposal> {
    if files == [] then []
    else
      var r := ReadAt(c, existing, files[|files| - 1]);
      ReadAll(c, existing, files[..|files| - 1]) + if r.Some? then [r.value] else []
  }

  function CommitResults(c: Commit, existing: set<string>, seen: set<string>): seq<GithubProposal> {
    if c.hasParent then ReadAll(c, existing, Unseen(c.added, seen)) else []
  }

  function LogResults(log: seq<Commit>, existing: set<string>, seen: set<string>): seq<GithubProposal> {
    if log == [] then []
    else
      var newer := LogResults(log[..|log| - 1], existing, seen);
      newer + CommitResults(log[|log| - 1], existing, seen + Names(newer))
  }

  lemma NamesConcat(a: seq<GithubProposal>, b: seq<GithubProposal>)
    ensures Names(a + b) == Names(a) + Names(b)
  {
  }

  method GetGithubProposalsRaw(prs: seq<PullRequest>, log: seq<Commit>, existing: set<string>)
    returns (results: seq<GithubProposal>)
    ensures results == PullResults(prs) + LogResults(log, existing, Names(PullResults(prs)))
  {
    var pulls, seenFiles := ScanPullRequests(prs);
    results := pulls;
    for i := 0 to |log|
      invariant results == pulls + LogResults(log[..i], existing, Names(pulls)) && seenFiles == Names(results)
    {
      var commit := log[i];
      if commit.hasParent {
        var found := ScanCommit(commit, existing, seenFiles);
        NamesConcat(results, found);
        results := results + found;
        seenFiles := seenFiles + Names(found);
      }
      LogResultsSnoc(log, i, existing, pulls);
    }
    assert log[..|log|] == log;
  }

  lemma LogResultsSnoc(log: seq<Commit>, i: nat, existing: set<string>, pulls: seq<GithubProposal>)
    requires i < |log|
    ensures var before := pulls + LogResults(log[..i], existing, Names(pulls));
      pulls + LogResults(log[..i + 1], existing, Names(pulls)) ==
      before + CommitResults(log[i], existing, Names(before))
  {
    assert log[..i + 1][..i] == log[..i];
    NamesConcat(pulls, LogResults(log[..i], existing, Names(pulls)));
  }

  method ScanPullRequests(prs: seq<PullRequest>) returns (results: seq<GithubProposal>, seenFiles: set<string>)
    ensures results == PullResults(prs) && seenFiles == Names(results)
  {
    seenFiles := {};
    results := [];
    for i := 0 to |prs|
      invariant results == PullResults(prs[..i]) && seenFiles == Names(results)
    {
      assert prs[..i + 1][..i] == prs[..i];
      var r := ScanPullRequest(prs[i]);
      if r.Some? {
        NamesConcat(results, [r.value]);
        results := results + [r.value];
        seenFiles := seenFiles + {r.value.fileName};
      }
    }
    assert prs[..|prs|] == prs;
  }

  method ScanPullRequest(pr: PullRequest) returns (r: Option<GithubProposal>)
    ensures r == PullResult(pr)
  {
    r := None;
    if pr.files.Some? {
      var addedFiles := AddedFiles(pr.files.value);
      if |addedFiles| == 1 && addedFiles[0].content.Some? {
        var content := Parse(addedFiles[0].content.value);
        if content.Ok? {
          r := Some(GithubProposal(pr.head, addedFiles[0].fileName, content.value, false));
        }
      }
    }
  }

  /** The files of one commit: those unseen before it are read in turn, and the unreadable ones passed over. */
  method ScanCommit(commit: Commit, existing: set<string>, seenFiles: set<string>) returns (found: seq<GithubProposal>)
    requires commit.hasParent
    ensures found == CommitResults(commit, existing, seenFiles)
  {
    var files := Unseen(commit.added, seenFiles);
    found := [];
    for j := 0 to |files|
      invariant found == ReadAll(commit, existing, files[..j])
    {
      assert files[..j + 1][..j] == files[..j];
      var file := files[j];
      if file in existing && file in commit.contents {
        var content := Parse(commit.contents[file]);
        if content.Ok? {
          found := found + [GithubProposal(commit.hash, file, content.value, true)];
        }
      }
    }
    assert files[..|files|] == files;
  }

  // ----- What the commits contribute -----

  lemma {:induction false} ReadAllAre(c: Commit, existing: set<string>, files: seq<string>, r: GithubProposal)
    ensures r in ReadAll(c, existing, files) <==> r.fileName in files && ReadAt(c, existing, r.fileName) == Some(r)
  {
    if files != [] {
      var last := files[|files| - 1];
      ReadAllAre(c, existing, files[..|files| - 1], r);
      assert files == files[..|files| - 1] + [last];
    }
  }

  /** The newest commit of the log that makes the file usable. */
  function Newest(log: seq<Commit>, existing: set<string>, f: string): (r: Option<nat>)
    ensures r.Some? ==> r.value < |log|
  {
    if log == [] then None
    else
      var r := Newest(log[..|log| - 1], existing, f);
      if r.Some? then r
      else if Usable(log[|log| - 1], existing, f) then Some(|log| - 1)
      else None
  }

  /** It is usable, and no newer one is; if there is none, no commit is usable. */
  lemma {:induction false} NewestIsFirstUsable(log: seq<Commit>, existing: set<string>, f: string, j: nat)
    requires j < |log|
    ensures var r := Newest(log, existing, f);
      && (r == Some(j) ==> Usable(log[j], existing, f))
      && (r.None? || j < r.value ==> !Usable(log[j], existing, f))
  {
    if j < |log| - 1 {
      NewestIsFirstUsable(log[..|log| - 1], existing, f, j);
    }
  }

  /**
   * A result comes from the log exactly when its file was not seen before and it is what the
   * newest commit that adds the file, and lets it be read and parsed, holds of it.
   */
  lemma {:induction false} LogResultsAre(log: seq<Commit>, existing: set<string>, seen: set<string>, r: GithubProposal)
    ensures r in LogResults(log, existing, seen) <==>
            var i := Newest(log, existing, r.fileName);
            r.fileName !in seen && i.Some? && ReadAt(log[i.value], existing, r.fileName) == Some(r)
    decreases |log|, 0
  {
    if log != [] {
      var most, last := log[..|log| - 1], log[|log| - 1];
      var newer := LogResults(most, existing, seen);
      LogResultsAre(most, existing, seen, r);
      NamedExactlyIfUsable(most, existing, seen, r.fileName);
      ReadAllAre(last, existing, Unseen(last.added, seen + Names(newer)), r);
    }
  }

  /** The result tells the commit and the file, and holds what the file says at that commit. */
  predicate ReadsAs(c: Commit, existing: set<string>, r: GithubProposal) {
    && r.fileName in existing && r.fileName in c.contents
    && Parse(c.contents[r.fileName]) == Ok(r.fileContent)
    && r.commitHash == c.hash && r.prMerged
  }

  lemma ReadAtIs(c: Commit, existing: set<string>, f: string, r: GithubProposal)
    ensures ReadAt(c, existing, f) == Some(r) <==> r.fileName == f && ReadsAs(c, existing, r)
  {
  }

  /** The commit has a parent and adds the file, a proposal that is still there and can be read and parsed. */
  predicate AddsReadable(c: Commit, existing: set<string>, f: string) {
    && c.hasParent && f in c.added && IsProposal(f)
    && f in existing && f in c.contents && Parse(c.contents[f]).Ok?
  }

  lemma UsableIs(c: Commit, existing: set<string>, f: string)
    ensures Usable(c, existing, f) <==> AddsReadable(c, existing, f)
  {
  }

  /** This commit is the newest of the log that adds the file readably. */
  predicate IsNewest(log: seq<Commit>, existing: set<string>, f: string, i: nat) {
    i < |log| && AddsReadable(log[i], existing, f) && forall j | 0 <= j < i :: !AddsReadable(log[j], existing, f)
  }

  lemma NewestReadable(log: seq<Commit>, existing: set<string>, f: string)
    ensures var i := Newest(log, existing, f);
      && (i.Some? ==> AddsReadable(log[i.value], existing, f))
      && forall j | 0 <= j < (if i.Some? then i.value else |log|) :: !AddsReadable(log[j], existing, f)
  {
    var i := Newest(log, existing, f);
    if i.Some? {
      NewestIsFirstUsable(log, existing, f, i.value);
      UsableIs(log[i.value], existing, f);
    }
    forall j | 0 <= j < (if i.Some? then i.value else |log|)
      ensures !AddsReadable(log[j], existing, f)
    {
      NewestIsFirstUsable(log, existing, f, j);
      UsableIs(log[j], existing, f);
    }
  }

  lemma NewestIs(log: seq<Commit>, existing: set<string>, f: string, k: nat)
    ensures IsNewest(log, existing, f, k) <==> Newest(log, existing, f) == Some(k)
  {
    NewestReadable(log, existing, f);
    var i := Newest(log, existing, f);
    if i.Some? {
      assert IsNewest(log, existing, f, i.value);
      OneNewest(log, existing, f, i.value, k);
    }
  }

  lemma OneNewest(log: seq<Commit>, existing: set<string>, f: string, i: nat, k: nat)
    requires IsNewest(log, existing, f, i)
    ensures IsNewest(log, existing, f, k) <==> i == k
  {
  }

  /** Commit, name and content of every result are those of the newest commit that adds the file readably. */
  lemma LogResultsHold(log: seq<Commit>, existing: set<string>, seen: set<string>, r: GithubProposal)
    ensures r in LogResults(log, existing, seen) <==>
            && r.fileName !in seen
            && exists i: nat :: IsNewest(log, existing, r.fileName, i) && ReadsAs(log[i], existing, r)
  {
    LogResultsAre(log, existing, seen, r);
    var i := Newest(log, existing, r.fileName);
    if i.Some? {
      NewestIs(log, existing, r.fileName, i.value);
      ReadAtIs(log[i.value], existing, r.fileName, r);
    }
    forall k: nat | IsNewest(log, existing, r.fileName, k)
      ensures i == Some(k)
    {
      NewestIs(log, existing, r.fileName, k);
    }
  }

  /**
   * The log contributes a result for each file not seen before that some commit makes usable, and
   * for no other.
   */
  lemma {:induction false} NamedExactlyIfUsable(log: seq<Commit>, existing: set<string>, seen: set<string>, f: string)
    ensures f in Names(LogResults(log, existing, seen)) <==> f !in seen && Newest(log, existing, f).Some?
    decreases |log|, 1
  {
    forall r | r in LogResults(log, existing, seen) {
      LogResultsAre(log, existing, seen, r);
    }
    var i := Newest(log, existing, f);
    if f !in seen && i.Some? {
      NewestIsFirstUsable(log, existing, f, i.value);
      var r := ReadAt(log[i.value], existing, f).value;
      LogResultsAre(log, existing, seen, r);
      assert r.fileName == f;
    }
  }

  predicate DistinctFiles(results: seq<GithubProposal>) {
    forall i, j | 0 <= i < j < |results| :: results[i].fileName != results[j].fileName
  }

  predicate DistinctNames(names: seq<string>) {
    forall i, j | 0 <= i < j < |names| :: names[i] != names[j]
  }

  lemma {:induction false} UnseenDistinct(names: seq<string>, seen: set<string>)
    requires DistinctNames(names)
    ensures DistinctNames(Unseen(names, seen))
  {
    if names != [] {
      UnseenDistinct(names[..|names| - 1], seen);
    }
  }

  lemma {:induction false} ReadAllDistinct(c: Commit, existing: set<string>, files: seq<string>)
    requires DistinctNames(files)
    ensures DistinctFiles(ReadAll(c, existing, files))
  {
    if files != [] {
      var most, last := files[..|files| - 1], files[|files| - 1];
      ReadAllDistinct(c, existing, most);
      forall r | r in ReadAll(c, existing, most)
        ensures r.fileName != last
      {
        ReadAllAre(c, existing, most, r);
      }
    }
  }

  lemma DistinctConcat(a: seq<GithubProposal>, b: seq<GithubProposal>)
    requires DistinctFiles(a) && DistinctFiles(b) && Names(a) !! Names(b)
    ensures DistinctFiles(a + b)
  {
    forall i, j | 0 <= i < |a| && 0 <= j < |b|
      ensures a[i].fileName != b[j].fileName
    {
      assert a[i].fileName in Names(a) && b[j].fileName in Names(b);
    }
  }

  /**
   * While no commit names a file twice, the results from commits have distinct file names,
   * none of them the name of a result from a pull request.
   */
  lemma {:induction false} LogResultsDistinct(log: seq<Commit>, existing: set<string>, seen: set<string>)
    requires forall c | c in log :: DistinctNames(c.added)
    ensures DistinctFiles(LogResults(log, existing, seen)) && Names(LogResults(log, existing, seen)) !! seen
  {
    if log != [] {
      var most, last := log[..|log| - 1], log[|log| - 1];
      LogResultsDistinct(most, existing, seen);
      var newer := LogResults(most, existing, seen);
      var files := Unseen(last.added, seen + Names(newer));
      UnseenDistinct(last.added, seen + Names(newer));
      ReadAllDistinct(last, existing, files);
      var found := CommitResults(last, existing, seen + Names(newer));
      forall r | r in found
        ensures r.fileName !in seen + Names(newer)
      {
        ReadAllAre(last, existing, files, r);
      }
      DistinctConcat(newer, found);
      NamesConcat(newer, found);
    }
  }

  lemma DistinctParts(a: seq<GithubProposal>, b: seq<GithubProposal>)
    requires DistinctFiles(a + b)
    ensures DistinctFiles(a)
  {
    forall i, j | 0 <= i < j < |a|
      ensures a[i].fileName != a[j].fileName
    {
      assert (a + b)[i] == a[i] && (a + b)[j] == a[j];
    }
  }

  // ----- When commits clash -----

  /** A name that a commit which adds it contributes. */
  predicate Contributes(c: Commit, existing: set<string>, seen: set<string>, f: string) {
    IsProposal(f) && f !in seen && ReadAt(c, existing, f).Some?
  }

  /** The names hold no file to contribute at two places. */
  predicate NamedOnce(c: Commit, existing: set<string>, seen: set<string>, names: seq<string>) {
    forall i, j | 0 <= i < j < |names| && names[i] == names[j] :: !Contributes(c, existing, seen, names[j])
  }

  lemma NamedOnceSnoc(c: Commit, existing: set<string>, seen: set<string>, most: seq<string>, last: string)
    ensures NamedOnce(c, existing, seen, most + [last]) <==>
            && NamedOnce(c, existing, seen, most)
            && (last in most ==> !Contributes(c, existing, seen, last))
  {
    var all := most + [last];
    forall i | 0 <= i < |most|
      ensures all[i] == most[i]
    {
    }
    if NamedOnce(c, existing, seen, all) && last in most {
      var i :| 0 <= i < |most| && most[i] == last;
      assert all[i] == all[|most|];
    }
  }

  lemma UnseenSnoc(most: seq<string>, last: string, seen: set<string>)
    ensures Unseen(most + [last], seen) ==
            if IsProposal(last) && last !in seen then Unseen(most, seen) + [last] else Unseen(most, seen)
  {
    assert (most + [last])[..|most|] == most;
  }

  lemma ReadAllSnoc(c: Commit, existing: set<string>, files: seq<string>, f: string)
    ensures var r := ReadAt(c, existing, f);
      ReadAll(c, existing, files + [f]) == ReadAll(c, existing, files) + if r.Some? then [r.value] else []
  {
    assert (files + [f])[..|files|] == files;
  }

  lemma ReadUnseenSnoc(c: Commit, existing: set<string>, seen: set<string>, most: seq<string>, last: string)
    ensures ReadAll(c, existing, Unseen(most + [last], seen)) ==
            if Contributes(c, existing, seen, last)
            then ReadAll(c, existing, Unseen(most, seen)) + [ReadAt(c, existing, last).value]
            else ReadAll(c, existing, Unseen(most, seen))
  {
    UnseenSnoc(most, last, seen);
    ReadAllSnoc(c, existing, Unseen(most, seen), last);
    WithNone(ReadAll(c, existing, Unseen(most, seen)));
  }

  lemma WithNone<T>(s: seq<T>)
    ensures s + [] == s
  {
  }

  lemma ReadUnseenNames(c: Commit, existing: set<string>, seen: set<string>, names: seq<string>, f: string)
    ensures f in Names(ReadAll(c, existing, Unseen(names, seen))) <==> f in names && Contributes(c, existing, seen, f)
  {
    var files := Unseen(names, seen);
    forall r | r in ReadAll(c, existing, files)
      ensures r.fileName in files && ReadAt(c, existing, r.fileName) == Some(r)
    {
      ReadAllAre(c, existing, files, r);
    }
    if f in files && ReadAt(c, existing, f).Some? {
      ReadAllAre(c, existing, files, ReadAt(c, existing, f).value);
    }
  }

  lemma NameOfRead(c: Commit, existing: set<string>, f: string)
    ensures ReadAt(c, existing, f).Some? ==> ReadAt(c, existing, f).value.fileName == f
  {
  }

  lemma {:induction false} ReadDistinctExactly(c: Commit, existing: set<string>, seen: set<string>, names: seq<string>)
    ensures DistinctFiles(ReadAll(c, existing, Unseen(names, seen))) <==> NamedOnce(c, existing, seen, names)
  {
    if names != [] {
      var most, last := names[..|names| - 1], names[|names| - 1];
      MostAndLast(names);
      ReadDistinctExactly(c, existing, seen, most);
      NextDistinctExactly(c, existing, seen, most, last);
    }
  }

  lemma MostAndLast<T>(s: seq<T>)
    requires s != []
    ensures s[..|s| - 1] + [s[|s| - 1]] == s
  {
  }

  lemma NextDistinctExactly(c: Commit, existing: set<string>, seen: set<string>, most: seq<string>, last: string)
    requires DistinctFiles(ReadAll(c, existing, Unseen(most, seen))) <==> NamedOnce(c, existing, seen, most)
    ensures DistinctFiles(ReadAll(c, existing, Unseen(most + [last], seen))) <==>
            NamedOnce(c, existing, seen, most + [last])
  {
    NamedOnceSnoc(c, existing, seen, most, last);
    ReadUnseenSnoc(c, existing, seen, most, last);
    ReadUnseenNames(c, existing, seen, most, last);
    NameOfRead(c, existing, last);
    if Contributes(c, existing, seen, last) {
      DistinctSnoc(ReadAll(c, existing, Unseen(most, seen)), ReadAt(c, existing, last).value);
    }
  }

  /** A commit is the newest to make the file usable, of those up to it, exactly when the file is not seen before it. */
  lemma NewestHere(log: seq<Commit>, existing: set<string>, seen: set<string>, f: string)
    requires log != []
    ensures var n := |log| - 1;
      f !in seen && Newest(log, existing, f) == Some(n) <==>
      f !in seen + Names(LogResults(log[..n], existing, seen)) && Usable(log[n], existing, f)
  {
    NamedExactlyIfUsable(log[..|log| - 1], existing, seen, f);
  }

  /** This commit of the log does not name at two places an unseen file of which it is the newest usable one. */
  predicate OnceAt(log: seq<Commit>, existing: set<string>, seen: set<string>, i: nat)
    requires i < |log|
  {
    forall p, q | 0 <= p < q < |log[i].added| && log[i].added[p] == log[i].added[q] ::
      log[i].added[q] in seen || Newest(log, existing, log[i].added[q]) != Some(i)
  }

  predicate NoneTwice(log: seq<Commit>, existing: set<string>, seen: set<string>) {
    forall i | 0 <= i < |log| :: OnceAt(log, existing, seen, i)
  }

  lemma OnceAtPrefix(log: seq<Commit>, existing: set<string>, seen: set<string>, i: nat)
    requires i < |log| - 1
    ensures OnceAt(log, existing, seen, i) <==> OnceAt(log[..|log| - 1], existing, seen, i)
  {
    var most := log[..|log| - 1];
    assert most[i] == log[i];
    forall f: string
      ensures Newest(log, existing, f) == Some(i) <==> Newest(most, existing, f) == Some(i)
    {
    }
  }

  lemma NoneTwiceLast(log: seq<Commit>, existing: set<string>, seen: set<string>)
    requires log != []
    ensures NoneTwice(log, existing, seen) <==>
            NoneTwice(log[..|log| - 1], existing, seen) && OnceAt(log, existing, seen, |log| - 1)
  {
    var n := |log| - 1;
    var most := log[..n];
    if NoneTwice(log, existing, seen) {
      forall i | 0 <= i < n
        ensures OnceAt(most, existing, seen, i)
      {
        assert OnceAt(log, existing, seen, i);
        OnceAtPrefix(log, existing, seen, i);
      }
    }
    if NoneTwice(most, existing, seen) {
      forall i | 0 <= i < n
        ensures OnceAt(log, existing, seen, i)
      {
        assert OnceAt(most, existing, seen, i);
        OnceAtPrefix(log, existing, seen, i);
      }
    }
  }

  lemma LastCommitDistinctExactly(log: seq<Commit>, existing: set<string>, seen: set<string>)
    requires log != []
    ensures var n := |log| - 1;
      DistinctFiles(CommitResults(log[n], existing, seen + Names(LogResults(log[..n], existing, seen)))) <==>
      OnceAt(log, existing, seen, |log| - 1)
  {
    var n := |log| - 1;
    var c, before := log[n], seen + Names(LogResults(log[..n], existing, seen));
    ReadDistinctExactly(c, existing, before, c.added);
    forall q | 0 <= q < |c.added| {
      NewestHere(log, existing, seen, c.added[q]);
    }
  }

  lemma DistinctConcatExactly(a: seq<GithubProposal>, b: seq<GithubProposal>)
    requires Names(a) !! Names(b)
    ensures DistinctFiles(a + b) <==> DistinctFiles(a) && DistinctFiles(b)
  {
    if DistinctFiles(a + b) {
      DistinctParts(a, b);
      forall i, j | 0 <= i < j < |b|
        ensures b[i].fileName != b[j].fileName
      {
        assert (a + b)[|a| + i] == b[i] && (a + b)[|a| + j] == b[j];
      }
    } else if DistinctFiles(a) && DistinctFiles(b) {
      DistinctConcat(a, b);
    }
  }

  /** The results from commits never have the name of one seen before, even if commits name files twice. */
  lemma LogResultsUnseen(log: seq<Commit>, existing: set<string>, seen: set<string>)
    ensures Names(LogResults(log, existing, seen)) !! seen
  {
    forall f | f in Names(LogResults(log, existing, seen))
      ensures f !in seen
    {
      NamedExactlyIfUsable(log, existing, seen, f);
    }
  }

  /**
   * The results from commits have distinct names exactly when no commit names twice a file of
   * which it is the newest usable one.
   */
  lemma {:induction false} LogResultsDistinctExactly(log: seq<Commit>, existing: set<string>, seen: set<string>)
    ensures DistinctFiles(LogResults(log, existing, seen)) <==> NoneTwice(log, existing, seen)
  {
    if log != [] {
      var n := |log| - 1;
      var newer := LogResults(log[..n], existing, seen);
      var found := CommitResults(log[n], existing, seen + Names(newer));
      LogResultsDistinctExactly(log[..n], existing, seen);
      NoneTwiceLast(log, existing, seen);
      LastCommitDistinctExactly(log, existing, seen);
      FoundIsUnseen(log[n], existing, seen + Names(newer));
      DistinctConcatExactly(newer, found);
    }
  }

  lemma FoundIsUnseen(c: Commit, existing: set<string>, seen: set<string>)
    ensures Names(CommitResults(c, existing, seen)) !! seen
  {
    forall f | f in Names(CommitResults(c, existing, seen))
      ensures f !in seen
    {
      ReadUnseenNames(c, existing, seen, c.added, f);
    }
  }

  /**
   * All results of the scan have distinct file names exactly when no two pull requests propose
   * a file of one name, and no commit names twice a file that only it is to contribute.
   */
  lemma ScanDistinctExactly(prs: seq<PullRequest>, log: seq<Commit>, existing: set<string>)
    ensures var seen := Names(PullResults(prs));
      DistinctFiles(PullResults(prs) + LogResults(log, existing, seen)) <==>
      && (forall i, j | 0 <= i < j < |prs| && PullResult(prs[i]).Some? && PullResult(prs[j]).Some? ::
            PullResult(prs[i]).value.fileName != PullResult(prs[j]).value.fileName)
      && NoneTwice(log, existing, seen)
  {
    var pulls := PullResults(prs);
    PullResultsDistinctExactly(prs);
    LogResultsUnseen(log, existing, Names(pulls));
    LogResultsDistinctExactly(log, existing, Names(pulls));
    DistinctConcatExactly(pulls, LogResults(log, existing, Names(pulls)));
  }
}
