/** The glue of the application entry point: the comma lists read from the
    environment, the polling configuration built from them, the allow-list
    gate in front of the printer, the mapping of a push webhook to commit
    events, adding a repository to the monitored list, and the forced commit
    check of the debug endpoint. Environment variables arrive as optional
    strings. */
module App {
  import opened Wrappers
  import opened Text
  import opened GitHubTypes
  import opened Classify
  import opened Poller
  import opened Printer

  const DefaultIssueActions: string := "opened,reopened"
  const DefaultCommitActions: string := "pushed"

  /** `env || fallback`: an unset or empty variable takes the fallback. */
  function OrFallback(env: Option<string>, fallback: string): (r: string)
    ensures env.Some? && env.value != "" ==> r == env.value
    ensures env.None? || env.value == "" ==> r == fallback
  {
    if env.Some? && env.value != "" then env.value else fallback
  }

  /** `(env || fallback).split(',').map(a => a.trim())`. */
  function ActionList(env: Option<string>, fallback: string): (r: seq<string>)
    ensures |r| >= 1
    ensures forall i :: 0 <= i < |r| ==> HasTrimmedEdges(r[i]) && ',' !in r[i]
    ensures |r| == |Split(OrFallback(env, fallback), ',')|
    ensures forall i :: 0 <= i < |r| ==> r[i] == Trim(Split(OrFallback(env, fallback), ',')[i])
  {
    SplitTrim(OrFallback(env, fallback), ',')
  }

  /** A list written out with commas is read back as written, when the entries
      carry no commas or edge whitespace and the text is not empty. */
  lemma ActionListRoundTrip(xs: seq<string>, fallback: string)
    requires |xs| >= 1
    requires forall i :: 0 <= i < |xs| ==> ',' !in xs[i] && HasTrimmedEdges(xs[i])
    requires Join(xs, ",") != ""
    ensures ActionList(Some(Join(xs, ",")), fallback) == xs
  {
    SplitTrimJoin(xs, ',');
  }

  /** With nothing set, issues and pull requests pass on `opened` and
      `reopened`. */
  lemma DefaultIssueActionList()
    ensures ActionList(None, DefaultIssueActions) == [Opened, Reopened]
  {
    var xs := [Opened, Reopened];
    assert HasTrimmedEdges(xs[0]) && HasTrimmedEdges(xs[1]);
    assert Join(xs, ",") == DefaultIssueActions by {
      assert Join(xs[1..], ",") == Reopened;
    }
    ActionListRoundTrip(xs, DefaultIssueActions);
  }

  /** With nothing set, commits pass on `pushed`. */
  lemma DefaultCommitActionList()
    ensures ActionList(None, DefaultCommitActions) == [Pushed]
  {
    assert HasTrimmedEdges(Pushed);
    assert Join([Pushed], ",") == DefaultCommitActions;
    ActionListRoundTrip([Pushed], DefaultCommitActions);
  }

  /** The entries that contain a `/`, in order. */
  function WithSlash(xs: seq<string>): (r: seq<string>)
    ensures forall x :: x in r <==> x in xs && '/' in x
    ensures |r| <= |xs|
    decreases |xs|
  {
    if |xs| == 0 then []
    else (if '/' in xs[0] then [xs[0]] else []) + WithSlash(xs[1..])
  }

  /** Filtering two stretches one after the other keeps each stretch's
      entries in place: the filter keeps input order. */
  lemma {:induction false} WithSlashAppend(a: seq<string>, b: seq<string>)
    ensures WithSlash(a + b) == WithSlash(a) + WithSlash(b)
    decreases |a|
  {
    if |a| == 0 {
      assert a + b == b;
    } else {
      assert (a + b)[0] == a[0];
      assert (a + b)[1..] == a[1..] + b;
      WithSlashAppend(a[1..], b);
    }
  }

  /** `(env || '').split(',').map(trim).filter(r => r.includes('/'))`. */
  function RepositoryList(env: Option<string>): (r: seq<string>)
    ensures forall x :: x in r <==> x in SplitTrim(OrFallback(env, ""), ',') && '/' in x
    ensures forall x :: x in r ==> HasTrimmedEdges(x) && ',' !in x
  {
    WithSlash(SplitTrim(OrFallback(env, ""), ','))
  }

  lemma {:induction false} WithSlashKeepsAll(xs: seq<string>)
    requires forall i :: 0 <= i < |xs| ==> '/' in xs[i]
    ensures WithSlash(xs) == xs
    decreases |xs|
  {
    if |xs| > 0 {
      WithSlashKeepsAll(xs[1..]);
    }
  }

  /** A list of `owner/name` entries written with commas is read back as
      written. */
  lemma RepositoryListRoundTrip(xs: seq<string>)
    requires |xs| >= 1
    requires forall i :: 0 <= i < |xs| ==> ',' !in xs[i] && HasTrimmedEdges(xs[i]) && '/' in xs[i]
    ensures RepositoryList(Some(Join(xs, ","))) == xs
  {
    assert Join(xs, ",") != "" by {
      assert '/' in xs[0];
      if |xs| == 1 { assert Join(xs, ",") == xs[0]; }
    }
    SplitTrimJoin(xs, ',');
    WithSlashKeepsAll(xs);
  }

  /** An unset variable gives no repositories. */
  lemma RepositoryListUnset()
    ensures RepositoryList(None) == []
  {
    assert Split("", ',') == [""];
    assert SplitTrim("", ',') == [""];
  }

  /** The variables the API mode reads. The interval is given already parsed. */
  datatype Environment = Environment(
    issueActions: Option<string>,
    commitActions: Option<string>,
    repositories: Option<string>,
    token: Option<string>,
    pollingInterval: int)

  /** Why API mode refuses to start. */
  datatype StartupError = NoRepositories | NoToken

  /** The polling configuration of API mode. No repository is checked
      first, then the token. Pull requests reuse the issue action list. */
  function ApiConfig(env: Environment): (r: Result<Config, StartupError>)
    ensures |RepositoryList(env.repositories)| == 0 ==> r == Failure(NoRepositories)
    ensures r.Failure? <==> |RepositoryList(env.repositories)| == 0 || OrFallback(env.token, "") == ""
    ensures r.Success? ==> r.value.prActions == r.value.issueActions
    ensures r.Success? ==> r.value.issueActions == ActionList(env.issueActions, DefaultIssueActions)
                           && r.value.commitActions == ActionList(env.commitActions, DefaultCommitActions)
    ensures r.Success? ==> r.value.repositories == RepositoryList(env.repositories)
    ensures r.Success? ==> r.value.pollingInterval == env.pollingInterval
    ensures r.Success? ==> |r.value.repositories| > 0 && forall x :: x in r.value.repositories ==> '/' in x
  {
    var repositories := RepositoryList(env.repositories);
    var issueActions := ActionList(env.issueActions, DefaultIssueActions);
    if |repositories| == 0 then Failure(NoRepositories)
    else if OrFallback(env.token, "") == "" then Failure(NoToken)
    else Success(Config(repositories, env.pollingInterval, issueActions, issueActions,
                        ActionList(env.commitActions, DefaultCommitActions)))
  }

  /** The gate of `handleGitHubEvent`: issue and pull request events pass on
      the issue list, commit events on the commit list. */
  predicate Forwards(event: Event, issueActions: seq<string>, commitActions: seq<string>) {
    match event
    case IssueEvent(action, _, _, _) => action in issueActions
    case PullRequestEvent(action, _, _, _) => action in issueActions
    case CommitEvent(action, _, _, _, _) => action in commitActions
  }

  /** `handleGitHubEvent`: a gated event is dropped before the printer is
      touched; a forwarded one is printed. */
  function HandleEvent(event: Event, issueActions: seq<string>, commitActions: seq<string>,
                       printer: PrinterConfig, deviceOpens: bool, printedAt: string): (r: Option<PrintOutcome>)
    ensures r.None? <==> !Forwards(event, issueActions, commitActions)
    ensures r.Some? ==> r.value == PrintEvent(printer, event, deviceOpens, printedAt)
    ensures (event.IssueEvent? || event.PullRequestEvent?) && event.action !in issueActions ==> r.None?
    ensures event.CommitEvent? && event.action !in commitActions ==> r.None?
  {
    if Forwards(event, issueActions, commitActions) then Some(PrintEvent(printer, event, deviceOpens, printedAt)) else None
  }

  /** Every event one repository's visit yields passes the gate when pull
      requests share the issue list. */
  lemma VisitEventsPassGate(s: PollerState, repo: string, now: int, resp: Responses)
    requires s.config.prActions == s.config.issueActions
    ensures forall e :: e in VisitEvents(s, repo, now, resp) ==> Forwards(e, s.config.issueActions, s.config.commitActions)
  {
    forall e | e in VisitEvents(s, repo, now, resp) ensures Forwards(e, s.config.issueActions, s.config.commitActions) {
      if resp.commits.Fetched? && e in CommitEvents(resp.commits.records, s.config.commitActions, resp.commits.repository) {
        assert Pushed in s.config.commitActions;
      }
    }
  }

  /** The gate never drops a polled event: the checks already filter on the
      same lists, so under the configuration `ApiConfig` builds every event a
      tick hands to `handleGitHubEvent` is forwarded. */
  lemma {:induction false} TickEventsPassGate(s: PollerState, snapshot: seq<string>, responses: seq<Responses>, now: int)
    requires |responses| == |snapshot|
    requires s.config.prActions == s.config.issueActions
    ensures forall e :: e in TickFrom(s, snapshot, responses, now).events ==> Forwards(e, s.config.issueActions, s.config.commitActions)
    decreases |snapshot|
  {
    if |snapshot| > 0 {
      var v := Visit(s, snapshot[0], now, responses[0]);
      VisitEventsPassGate(s, snapshot[0], now, responses[0]);
      TickEventsPassGate(v.state, snapshot[1..], responses[1..], now);
    }
  }

  const HeadsPrefix: string := "refs/heads/"

  /** `ref.replace('refs/heads/', '')`: only the first occurrence goes. */
  function BranchOfRef(ref: string): (b: string)
    ensures |b| <= |ref|
    ensures (forall j :: 0 <= j ==> !OccursAt(ref, HeadsPrefix, j)) ==> b == ref
    ensures forall i :: OccursAt(ref, HeadsPrefix, i) && (forall j :: 0 <= j < i ==> !OccursAt(ref, HeadsPrefix, j))
                     ==> b == ref[..i] + ref[i + |HeadsPrefix|..]
  {
    ReplaceFirst(ref, HeadsPrefix, "")
  }

  /** The branch of a `refs/heads/` reference is the rest of it, even when the
      rest contains `refs/heads/` again. */
  lemma BranchOfHeadsRef(branch: string)
    ensures BranchOfRef(HeadsPrefix + branch) == branch
  {
    ReplaceFirstAfter("", HeadsPrefix, branch, "");
    assert "" + HeadsPrefix + branch == HeadsPrefix + branch;
  }

  const Scheme: string := "https://"
  const ApiHost: string := "api.github.com/repos"
  const WebHost: string := "github.com"
  const CommitsSegment: string := "/commits/"
  const CommitSegment: string := "/commit/"

  /** The web link of a pushed commit: the first `api.github.com/repos`
      becomes `github.com`, then the first `/commits/` becomes `/commit/`. */
  function CommitHtmlUrl(url: string): string {
    ReplaceFirst(ReplaceFirst(url, ApiHost, WebHost), CommitsSegment, CommitSegment)
  }

  /** A position whose character differs from the pattern's first one does
      not start an occurrence. */
  lemma NoOccurrenceAt(s: string, p: string, j: int)
    requires 0 <= j < |s| && |p| > 0 && s[j] != p[0]
    ensures !OccursAt(s, p, j)
  {
    if j + |p| <= |s| {
      assert s[j..j + |p|][0] == s[j];
    }
  }

  /** The scheme holds no `a`, so the host pattern cannot start in it. */
  lemma NoApiHostInScheme(path: string)
    ensures forall j :: 0 <= j < |Scheme| ==> !OccursAt(Scheme + ApiHost + path, ApiHost, j)
  {
    var s := Scheme + ApiHost + path;
    forall j | 0 <= j < |Scheme| ensures !OccursAt(s, ApiHost, j) {
      assert s[j] == Scheme[j];
      NoOccurrenceAt(s, ApiHost, j);
    }
  }

  /** On an API URL the first replacement swaps the host and keeps the path,
      whatever the path holds. */
  lemma ApiHostReplaced(path: string)
    ensures ReplaceFirst(Scheme + ApiHost + path, ApiHost, WebHost) == Scheme + WebHost + path
  {
    NoApiHostInScheme(path);
    ReplaceFirstAfter(Scheme, ApiHost, path, WebHost);
  }

  /** A position where the text differs from the pattern at offset `k` does
      not start an occurrence. */
  lemma NoOccurrenceWhereDiffers(s: string, p: string, j: int, k: int)
    requires 0 <= j && 0 <= k < |p| && j + k < |s| && s[j + k] != p[k]
    ensures !OccursAt(s, p, j)
  {
    if j + |p| <= |s| {
      assert s[j..j + |p|][k] == s[j + k];
    }
  }

  /** A `/`-delimited path segment other than `commits` does not start a
      `/commits/` occurrence at its leading slash. */
  lemma SegmentNotCommits(x: string, w: string, y: string)
    requires '/' !in w && w != "commits"
    ensures !OccursAt(x + "/" + w + "/" + y, CommitsSegment, |x|)
  {
    var s := x + "/" + w + "/" + y;
    if |w| < 7 {
      assert s[|x| + 1 + |w|] == '/';
      NoOccurrenceWhereDiffers(s, CommitsSegment, |x|, 1 + |w|);
    } else if |w| > 7 {
      assert s[|x| + 8] == w[7];
      NoOccurrenceWhereDiffers(s, CommitsSegment, |x|, 8);
    } else {
      var i :| 0 <= i < 7 && w[i] != CommitsSegment[1 + i];
      assert s[|x| + 1 + i] == w[i];
      NoOccurrenceWhereDiffers(s, CommitsSegment, |x|, 1 + i);
    }
  }

  /** No `/commits/` starts inside `https://github.com`. */
  lemma NoCommitsSegmentInHost(rest: string)
    ensures forall j :: 0 <= j < |Scheme + WebHost| ==> !OccursAt(Scheme + WebHost + rest, CommitsSegment, j)
  {
    var h := Scheme + WebHost;
    var s := h + rest;
    forall j | 0 <= j < |h| ensures !OccursAt(s, CommitsSegment, j) {
      assert s[j] == h[j];
      if s[j] != '/' {
        NoOccurrenceAt(s, CommitsSegment, j);
      } else {
        assert s[j + 1] == h[j + 1] && h[j + 1] != 'c';
        NoOccurrenceWhereDiffers(s, CommitsSegment, j, 1);
      }
    }
  }

  /** `/owner/name`, the path of a repository. */
  function RepoPath(owner: string, name: string): string {
    "/" + owner + "/" + name
  }

  /** After a prefix in which no `/commits/` starts, none starts in the
      repository path either, when owner and name are single path segments
      other than `commits`. */
  lemma NoCommitsSegmentInRepoPath(h: string, owner: string, name: string, tail: string)
    requires '/' !in owner && '/' !in name && owner != "commits" && name != "commits"
    requires forall j :: 0 <= j < |h| ==> !OccursAt(h + RepoPath(owner, name) + CommitsSegment + tail, CommitsSegment, j)
    ensures forall j :: 0 <= j < |h + RepoPath(owner, name)| ==>
              !OccursAt(h + RepoPath(owner, name) + CommitsSegment + tail, CommitsSegment, j)
  {
    var s := h + RepoPath(owner, name) + CommitsSegment + tail;
    var k := |h| + 1 + |owner|;
    forall j | 0 <= j < |h + RepoPath(owner, name)| ensures !OccursAt(s, CommitsSegment, j) {
      if j == |h| {
        assert s == h + "/" + owner + "/" + (name + CommitsSegment + tail);
        SegmentNotCommits(h, owner, name + CommitsSegment + tail);
      } else if |h| < j < k {
        assert s[j] == owner[j - |h| - 1];
        NoOccurrenceAt(s, CommitsSegment, j);
      } else if j == k {
        assert s == (h + "/" + owner) + "/" + name + "/" + (CommitsSegment[1..] + tail);
        SegmentNotCommits(h + "/" + owner, name, CommitsSegment[1..] + tail);
      } else if k < j {
        assert s[j] == name[j - k - 1];
        NoOccurrenceAt(s, CommitsSegment, j);
      }
    }
  }

  /** In `https://github.com/owner/name` no `/commits/` starts. */
  lemma NoCommitsSegmentBefore(owner: string, name: string, tail: string)
    requires '/' !in owner && '/' !in name && owner != "commits" && name != "commits"
    ensures var b := Scheme + WebHost + RepoPath(owner, name);
            forall j :: 0 <= j < |b| ==> !OccursAt(b + CommitsSegment + tail, CommitsSegment, j)
  {
    var h := Scheme + WebHost;
    assert h + RepoPath(owner, name) + CommitsSegment + tail == h + (RepoPath(owner, name) + CommitsSegment + tail);
    NoCommitsSegmentInHost(RepoPath(owner, name) + CommitsSegment + tail);
    NoCommitsSegmentInRepoPath(h, owner, name, tail);
  }

  /** The two replacements on an API URL whose web form is `b`, followed by
      the first `/commits/`, then `tail`. */
  lemma CommitHtmlUrlSteps(path: string, b: string, tail: string)
    requires Scheme + WebHost + path == b + CommitsSegment + tail
    requires forall j :: 0 <= j < |b| ==> !OccursAt(b + CommitsSegment + tail, CommitsSegment, j)
    ensures CommitHtmlUrl(Scheme + ApiHost + path) == b + CommitSegment + tail
  {
    ApiHostReplaced(path);
    ReplaceFirstAfter(b, CommitsSegment, tail, CommitSegment);
  }

  /** On an API commit URL of a repository `owner/name` the two replacements
      give the web URL, unless owner or name is itself `commits`, in which
      case the first-occurrence replace rewrites that segment instead. */
  lemma CommitHtmlUrlOfApiUrl(owner: string, name: string, sha: string)
    requires '/' !in owner && '/' !in name && owner != "commits" && name != "commits"
    ensures CommitHtmlUrl(Scheme + ApiHost + RepoPath(owner, name) + CommitsSegment + sha)
            == Scheme + WebHost + RepoPath(owner, name) + CommitSegment + sha
  {
    var path := RepoPath(owner, name) + CommitsSegment + sha;
    assert Scheme + ApiHost + RepoPath(owner, name) + CommitsSegment + sha == Scheme + ApiHost + path;
    var b := Scheme + WebHost + RepoPath(owner, name);
    assert Scheme + WebHost + path == b + CommitsSegment + sha;
    NoCommitsSegmentBefore(owner, name, sha);
    CommitHtmlUrlSteps(path, b, sha);
  }

  /** For an owner named `commits` the first `/commits/` is the owner's
      segment, so that one is rewritten and the real one is kept. */
  lemma CommitsOwnerRewritten(name: string, sha: string)
    ensures CommitHtmlUrl(Scheme + ApiHost + RepoPath("commits", name) + CommitsSegment + sha)
            == Scheme + WebHost + CommitSegment + name + CommitsSegment + sha
  {
    var path := RepoPath("commits", name) + CommitsSegment + sha;
    var tail := name + CommitsSegment + sha;
    assert Scheme + ApiHost + RepoPath("commits", name) + CommitsSegment + sha == Scheme + ApiHost + path;
    assert Scheme + WebHost + path == (Scheme + WebHost) + CommitsSegment + tail;
    NoCommitsSegmentInHost(CommitsSegment + tail);
    assert (Scheme + WebHost) + CommitsSegment + tail == (Scheme + WebHost) + (CommitsSegment + tail);
    CommitHtmlUrlSteps(path, Scheme + WebHost, tail);
  }

  /** Name and e-mail of a push commit's author or committer. */
  datatype PushPerson = PushPerson(name: string, email: string)

  /** One commit of a push payload; the file lists may be missing. */
  datatype PushCommit = PushCommit(
    id: string,
    message: string,
    url: string,
    author: PushPerson,
    committer: PushPerson,
    timestamp: string,
    distinct: bool,
    added: Option<seq<string>>,
    modified: Option<seq<string>>,
    removed: Option<seq<string>>)

  datatype PushPayload = PushPayload(ref: string, repository: Repository, sender: User, commits: seq<PushCommit>)

  /** The `GitHubCommit` built from a push commit: the id doubles as sha, both
      signatures carry the push timestamp, the tree is unknown, and a missing
      file list is empty. */
  function PushCommitOf(c: PushCommit): (r: Commit)
    ensures r.id == c.id && r.sha == c.id && r.distinct == c.distinct
    ensures r.message == c.message && r.url == c.url && r.htmlUrl == CommitHtmlUrl(c.url)
    ensures r.author.name == c.author.name && r.author.email == c.author.email && r.author.date == c.timestamp
    ensures r.committer.name == c.committer.name && r.committer.email == c.committer.email
            && r.committer.date == c.timestamp
    ensures r.tree.sha == "" && r.tree.url == ""
    ensures r.files.Some?
    ensures r.files.value.added == c.added.GetOr([]) && r.files.value.modified == c.modified.GetOr([])
            && r.files.value.removed == c.removed.GetOr([])
  {
    Commit(c.id, c.id, c.message, c.url, CommitHtmlUrl(c.url),
           Signature(c.author.name, c.author.email, c.timestamp),
           Signature(c.committer.name, c.committer.email, c.timestamp),
           Tree("", ""), c.distinct,
           Some(FileChanges(c.added.GetOr([]), c.modified.GetOr([]), c.removed.GetOr([]))))
  }

  /** The event a push commit yields: `pushed`, on the branch of the push,
      with the push's repository and sender. */
  function PushEventOf(p: PushPayload, c: PushCommit): (e: Event)
    ensures e.CommitEvent? && e.action == Pushed && e.commit == PushCommitOf(c)
    ensures e.repository == p.repository && e.sender == p.sender && e.branch == BranchOfRef(p.ref)
  {
    CommitEvent(Pushed, PushCommitOf(c), p.repository, p.sender, BranchOfRef(p.ref))
  }

  /** Number of distinct commits. */
  function DistinctCount(commits: seq<PushCommit>): nat
    decreases |commits|
  {
    if |commits| == 0 then 0 else (if commits[0].distinct then 1 else 0) + DistinctCount(commits[1..])
  }

  /** The events a push hands to `handleGitHubEvent`: one `pushed` event per
      distinct commit, in payload order, all on the branch of the push. */
  function PushEvents(p: PushPayload, commits: seq<PushCommit>): (es: seq<Event>)
    ensures |es| == DistinctCount(commits)
    ensures forall e :: e in es ==> e.CommitEvent? && e.action == Pushed && e.branch == BranchOfRef(p.ref)
                                    && e.repository == p.repository && e.sender == p.sender
                                    && e.commit.distinct && e.commit.files.Some?
    ensures forall c :: c in commits && c.distinct ==> PushEventOf(p, c) in es
    ensures forall e :: e in es ==> exists c :: c in commits && c.distinct && e == PushEventOf(p, c)
    decreases |commits|
  {
    if |commits| == 0 then []
    else
      var rest := PushEvents(p, commits[1..]);
      if commits[0].distinct then [PushEventOf(p, commits[0])] + rest else rest
  }

  /** The events of a push split at any point are the events of the two
      parts one after the other: payload order is kept. */
  lemma {:induction false} PushEventsAppend(p: PushPayload, a: seq<PushCommit>, b: seq<PushCommit>)
    ensures PushEvents(p, a + b) == PushEvents(p, a) + PushEvents(p, b)
    decreases |a|
  {
    if |a| == 0 {
      assert a + b == b;
    } else {
      assert (a + b)[0] == a[0];
      assert (a + b)[1..] == a[1..] + b;
      PushEventsAppend(p, a[1..], b);
    }
  }

  /** A single commit yields its event exactly when it is distinct; with
      `PushEventsAppend` this fixes the events of every payload. */
  lemma PushEventsSingle(p: PushPayload, c: PushCommit)
    ensures PushEvents(p, [c]) == if c.distinct then [PushEventOf(p, c)] else []
  {
    assert [c][1..] == [];
  }

  /** The webhook's push handling: the events come from the payload's own
      commit list, one per distinct commit, each built from such a commit. */
  function PushEventsOf(p: PushPayload): (es: seq<Event>)
    ensures |es| == DistinctCount(p.commits)
    ensures forall c :: c in p.commits && c.distinct ==> PushEventOf(p, c) in es
    ensures forall e :: e in es ==> exists c :: c in p.commits && c.distinct && e == PushEventOf(p, c)
  {
    PushEvents(p, p.commits)
  }

  /** `xs.includes(x) ? xs : [...xs, x]`. */
  function AddIfAbsent(xs: seq<string>, x: string): (r: seq<string>)
    ensures x in r
    ensures forall y :: y in r <==> y in xs || y == x
    ensures x in xs ==> r == xs
    ensures x !in xs ==> r == xs + [x]
  {
    if x in xs then xs else xs + [x]
  }

  predicate NoDuplicates(xs: seq<string>) {
    forall i, j :: 0 <= i < j < |xs| ==> xs[i] != xs[j]
  }

  /** Adding if absent never makes a duplicate, however often it is repeated. */
  lemma AddIfAbsentKeepsDistinct(xs: seq<string>, x: string)
    requires NoDuplicates(xs)
    ensures NoDuplicates(AddIfAbsent(xs, x))
  {
    if x !in xs {
      var r := xs + [x];
      forall i, j | 0 <= i < j < |r| ensures r[i] != r[j] {
        if j == |xs| {
          assert r[i] == xs[i];
        }
      }
    }
  }

  lemma AddIfAbsentIdempotent(xs: seq<string>, x: string)
    ensures AddIfAbsent(AddIfAbsent(xs, x), x) == AddIfAbsent(xs, x)
  {
  }

  /** The answers of `/repositories/monitor` that are not a success. */
  datatype MonitorError = MissingName | NotAccessible

  /** `/repositories/monitor`: a missing or empty name is refused; the name is
      probed alone, and unless it answers 200 it is refused; otherwise it is
      added to the configured list if absent. The valid list and the cursors
      are not touched, so the repository is polled only after the next
      validation. */
  function MonitorRepository(s: PollerState, name: Option<string>, probe: Probe): (r: Result<PollerState, MonitorError>)
    ensures name.None? || name.value == "" ==> r == Failure(MissingName)
    ensures name.Some? && name.value != "" ==> (r.Success? <==> Accepted([name.value], [probe]) == [name.value])
    ensures r.Failure? && r.error == NotAccessible ==> Accepted([name.value], [probe]) == []
    ensures r.Success? ==> r.value == s.(config := s.config.(repositories := AddIfAbsent(s.config.repositories, name.value)))
  {
    if name.None? || name.value == "" then Failure(MissingName)
    else if |Accepted([name.value], [probe])| == 0 then Failure(NotAccessible)
    else Success(s.(config := s.config.(repositories := AddIfAbsent(s.config.repositories, name.value))))
  }

  /** A repository added while polling runs is not visited by the following
      ticks: the valid list still lacks it. */
  lemma MonitoredRepositoryNotYetPolled(s: PollerState, name: string, probe: Probe)
    requires name != "" && name !in s.valid
    requires MonitorRepository(s, Some(name), probe).Success?
    ensures name !in MonitorRepository(s, Some(name), probe).value.valid
    ensures name in MonitorRepository(s, Some(name), probe).value.config.repositories
  {
  }

  /** What `/debug/commits` reports, with the state after it. */
  datatype DebugReport = DebugReport(state: PollerState, lastChecked: Option<int>, monitored: bool, events: seq<Event>)

  /** `/debug/commits`: a name without `/` is refused. The commit cursor is
      read first; with `force` and a name on the configured list (not the
      valid list) a commit check runs, and its events are handled. */
  function DebugCommits(s: PollerState, repo: Option<string>, force: bool, now: int, fetch: Fetch<CommitRecord>): (r: Option<DebugReport>)
    ensures r.None? <==> repo.None? || '/' !in repo.value
    ensures r.Some? ==> r.value.lastChecked == LastCheckedCommits(s, repo.value)
                        && (r.value.monitored <==> repo.value in s.config.repositories)
    ensures r.Some? && force && repo.value in s.config.repositories ==>
              r.value.state == CheckCommits(s, repo.value, now, fetch).state
              && r.value.events == CheckCommits(s, repo.value, now, fetch).events
    ensures r.Some? && !(force && repo.value in s.config.repositories) ==> r.value.state == s && r.value.events == []
  {
    if repo.None? || '/' !in repo.value then None
    else
      var name := repo.value;
      var monitored := name in s.config.repositories;
      if force && monitored then
        var c := CheckCommits(s, name, now, fetch);
        Some(DebugReport(c.state, LastCheckedCommits(s, name), monitored, c.events))
      else Some(DebugReport(s, LastCheckedCommits(s, name), monitored, []))
  }

  /** The forced check runs on a configured repository that the poller has
      dropped from its valid list, and stamps its commit cursor. */
  lemma DebugForceIgnoresValidList(s: PollerState, repo: string, now: int, fetch: Fetch<CommitRecord>)
    requires '/' in repo && repo in s.config.repositories && repo !in s.valid
    ensures var r := DebugCommits(s, Some(repo), true, now, fetch);
            r.Some? && LastCheckedCommits(r.value.state, repo) == Some(now)
  {
  }

  /** The reported time is the one before the forced check: a repository
      never checked reports none, yet has a cursor afterwards. */
  lemma DebugReportsCursorBeforeCheck(s: PollerState, repo: string, now: int, fetch: Fetch<CommitRecord>)
    requires '/' in repo && repo in s.config.repositories && repo !in s.commitsChecked
    ensures var r := DebugCommits(s, Some(repo), true, now, fetch);
            r.Some? && r.value.lastChecked.None? && LastCheckedCommits(r.value.state, repo) == Some(now)
  {
  }
}
