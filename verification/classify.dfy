/** Turning fetched records into events: the verb chosen for an issue or a
    pull request against the category's cursor, the allow-list, and the commit
    event with its branch, sender and file lists. */
module Classify {
  import opened Wrappers
  import opened GitHubTypes

  const Opened: string := "opened"
  const Closed: string := "closed"
  const Reopened: string := "reopened"
  const Updated: string := "updated"
  const Pushed: string := "pushed"

  /** The issue was closed after the cursor: `closed_at` is present and later. */
  predicate ClosedSince(issue: Issue, cursor: int) {
    issue.closedAt.Some? && issue.closedAt.value > cursor
  }

  /** The verb of an issue record. The first rule that applies wins: created
      after the cursor is `opened` whatever its state; closed after the cursor
      is `closed`; open with a closing date is `reopened`; anything else is
      `updated`. */
  function IssueAction(issue: Issue, cursor: int): (a: string)
    ensures a in {Opened, Closed, Reopened, Updated}
    ensures a == Opened <==> issue.createdAt > cursor
    ensures a == Closed <==> issue.createdAt <= cursor && issue.state == "closed" && ClosedSince(issue, cursor)
    ensures a == Reopened <==> (issue.createdAt <= cursor && !(issue.state == "closed" && ClosedSince(issue, cursor))
                                && issue.state == "open" && issue.closedAt.Some?)
  {
    if issue.createdAt > cursor then Opened
    else if issue.state == "closed" && ClosedSince(issue, cursor) then Closed
    else if issue.state == "open" && issue.closedAt.Some? then Reopened
    else Updated
  }

  /** The event an issue record produces. */
  function IssueEventOf(issue: Issue, cursor: int, repository: Repository): Event {
    IssueEvent(IssueAction(issue, cursor), issue, repository, issue.user)
  }

  /** An issue record yields an event when it is not a pull request and its
      verb is allowed. */
  predicate EmitsIssue(rec: IssueRecord, cursor: int, actions: seq<string>) {
    !rec.pullRequestMarker && IssueAction(rec.issue, cursor) in actions
  }

  /** The issue events of one fetched page, in page order. */
  function IssueEvents(records: seq<IssueRecord>, cursor: int, actions: seq<string>, repository: Repository): (es: seq<Event>)
    ensures |es| <= |records|
    ensures forall e :: e in es ==> e.IssueEvent? && e.action in actions && e.repository == repository
    ensures forall e :: e in es ==> exists rec :: rec in records && EmitsIssue(rec, cursor, actions)
                                                 && e == IssueEventOf(rec.issue, cursor, repository)
    ensures forall rec :: rec in records && EmitsIssue(rec, cursor, actions) ==> IssueEventOf(rec.issue, cursor, repository) in es
    decreases |records|
  {
    if |records| == 0 then []
    else
      var rest := IssueEvents(records[1..], cursor, actions, repository);
      if EmitsIssue(records[0], cursor, actions) then [IssueEventOf(records[0].issue, cursor, repository)] + rest
      else rest
  }

  /** Events of a concatenated page are the events of each part, in order:
      the emitted events follow the records' order. */
  lemma {:induction false} IssueEventsAppend(a: seq<IssueRecord>, b: seq<IssueRecord>, cursor: int, actions: seq<string>, repository: Repository)
    ensures IssueEvents(a + b, cursor, actions, repository)
            == IssueEvents(a, cursor, actions, repository) + IssueEvents(b, cursor, actions, repository)
    decreases |a|
  {
    if |a| > 0 {
      assert (a + b)[1..] == a[1..] + b;
      IssueEventsAppend(a[1..], b, cursor, actions, repository);
    } else {
      assert a + b == b;
    }
  }

  /** A page made only of pull requests in issue shape yields no issue event. */
  lemma {:induction false} PullRequestRecordsYieldNoIssues(records: seq<IssueRecord>, cursor: int, actions: seq<string>, repository: Repository)
    requires forall i :: 0 <= i < |records| ==> records[i].pullRequestMarker
    ensures IssueEvents(records, cursor, actions, repository) == []
    decreases |records|
  {
    if |records| > 0 {
      PullRequestRecordsYieldNoIssues(records[1..], cursor, actions, repository);
    }
  }

  /** The verb of a pull request that passed the `updated_at` gate. Created
      after the cursor is `opened`; any closed one is `closed`, merged or not;
      any open one without `merged_at` is `reopened`, even one that was never
      closed; only what is left is `updated`. */
  function PullRequestAction(pr: PullRequest, cursor: int): (a: string)
    ensures a in {Opened, Closed, Reopened, Updated}
    ensures a == Opened <==> pr.issue.createdAt > cursor
    ensures a == Closed <==> pr.issue.createdAt <= cursor && pr.issue.state == "closed"
    ensures a == Reopened <==> pr.issue.createdAt <= cursor && pr.issue.state == "open" && pr.mergedAt.None?
  {
    if pr.issue.createdAt > cursor then Opened
    else if pr.issue.state == "closed" then Closed
    else if pr.issue.state == "open" && pr.mergedAt.None? then Reopened
    else Updated
  }

  /** Only pull requests updated after the cursor are considered. */
  predicate UpdatedSince(pr: PullRequest, cursor: int) {
    pr.issue.updatedAt > cursor
  }

  /** The pull request as the event carries it: `merged` set from `merged_at`. */
  function WithMergedFlag(pr: PullRequest): (p: PullRequest)
    ensures p.merged <==> p.mergedAt.Some?
    ensures p.issue == pr.issue && p.mergedAt == pr.mergedAt
    ensures p.head == pr.head && p.base == pr.base && p.mergeCommitSha == pr.mergeCommitSha
  {
    pr.(merged := pr.mergedAt.Some?)
  }

  function PullRequestEventOf(pr: PullRequest, cursor: int, repository: Repository): Event {
    PullRequestEvent(PullRequestAction(pr, cursor), WithMergedFlag(pr), repository, pr.issue.user)
  }

  predicate EmitsPullRequest(pr: PullRequest, cursor: int, actions: seq<string>) {
    UpdatedSince(pr, cursor) && PullRequestAction(pr, cursor) in actions
  }

  /** The pull request events of one fetched page, in page order. */
  function PullRequestEvents(records: seq<PullRequest>, cursor: int, actions: seq<string>, repository: Repository): (es: seq<Event>)
    ensures |es| <= |records|
    ensures forall e :: e in es ==> e.PullRequestEvent? && e.action in actions && e.repository == repository
                                    && e.pullRequest.issue.updatedAt > cursor
                                    && (e.pullRequest.merged <==> e.pullRequest.mergedAt.Some?)
    ensures forall e :: e in es ==> exists pr :: pr in records && EmitsPullRequest(pr, cursor, actions)
                                                && e == PullRequestEventOf(pr, cursor, repository)
    ensures forall pr :: pr in records && EmitsPullRequest(pr, cursor, actions) ==> PullRequestEventOf(pr, cursor, repository) in es
    decreases |records|
  {
    if |records| == 0 then []
    else
      var rest := PullRequestEvents(records[1..], cursor, actions, repository);
      if EmitsPullRequest(records[0], cursor, actions) then [PullRequestEventOf(records[0], cursor, repository)] + rest
      else rest
  }

  lemma {:induction false} PullRequestEventsAppend(a: seq<PullRequest>, b: seq<PullRequest>, cursor: int, actions: seq<string>, repository: Repository)
    ensures PullRequestEvents(a + b, cursor, actions, repository)
            == PullRequestEvents(a, cursor, actions, repository) + PullRequestEvents(b, cursor, actions, repository)
    decreases |a|
  {
    if |a| > 0 {
      assert (a + b)[1..] == a[1..] + b;
      PullRequestEventsAppend(a[1..], b, cursor, actions, repository);
    } else {
      assert a + b == b;
    }
  }

  /** A pull request not updated after the cursor is never emitted, even one
      that would classify as `opened`. */
  lemma StalePullRequestNeverEmitted(pr: PullRequest, records: seq<PullRequest>, cursor: int, actions: seq<string>, repository: Repository)
    requires pr.issue.updatedAt <= cursor
    ensures forall e :: e in PullRequestEvents(records, cursor, actions, repository) ==> e.pullRequest.issue != pr.issue
  {
  }

  /** Merged and unmerged closes give the same verb, and the merge data never
      changes the verb of a closed pull request. */
  lemma ClosedVerbIgnoresMerge(pr: PullRequest, cursor: int, merged: bool, mergedAt: Option<int>)
    requires pr.issue.createdAt <= cursor && pr.issue.state == "closed"
    ensures PullRequestAction(pr.(merged := merged, mergedAt := mergedAt), cursor) == Closed
  {
  }

  /** An issue created after the cursor is `opened`; once it is closed, the
      next tick (whose cursor is the previous tick's time) calls it `closed`. */
  lemma IssueLifecycle(issue: Issue, t0: int, t1: int, t2: int, t3: int)
    requires t0 < t1 < t2 < t3
    requires issue.createdAt == t1 && issue.state == "open" && issue.closedAt.None?
    ensures IssueAction(issue, t0) == Opened
    ensures IssueAction(issue.(state := "closed", closedAt := Some(t3)), t2) == Closed
    ensures IssueAction(issue.(state := "closed", closedAt := Some(t3)), t3) == Updated
  {
  }

  /** A pull request created after the cursor and seen before it is merged
      passes the `updated_at` gate and is `opened`. */
  lemma NewPullRequestSeenBeforeMerge(pr: PullRequest, t0: int, t1: int)
    requires t0 < t1 && pr.issue.createdAt == t1 && pr.issue.updatedAt >= t1
    requires pr.issue.state == "open" && pr.mergedAt.None?
    ensures EmitsPullRequest(pr, t0, [Opened]) && PullRequestAction(pr, t0) == Opened
  {
  }

  /** One file entry of the commit detail endpoint. */
  datatype FileEntry = FileEntry(filename: string, status: string)

  /** The names of the files with the given status, in order. */
  function NamesWithStatus(files: seq<FileEntry>, status: string): (names: seq<string>)
    ensures |names| <= |files|
    decreases |files|
  {
    if |files| == 0 then []
    else (if files[0].status == status then [files[0].filename] else []) + NamesWithStatus(files[1..], status)
  }

  lemma {:induction false} NamesWithStatusSnoc(files: seq<FileEntry>, f: FileEntry, status: string)
    ensures NamesWithStatus(files + [f], status)
            == NamesWithStatus(files, status) + (if f.status == status then [f.filename] else [])
    decreases |files|
  {
    if |files| == 0 {
      assert files + [f] == [f];
    } else {
      assert (files + [f])[1..] == files[1..] + [f];
      NamesWithStatusSnoc(files[1..], f, status);
    }
  }

  /** The added/modified/removed lists, built as the source builds them: one
      pass, each file pushed onto the list of its status, other statuses
      dropped. Each list holds exactly the files of its status, in input
      order. */
  function Partition(files: seq<FileEntry>): (r: FileChanges)
    ensures r.added == NamesWithStatus(files, "added")
    ensures r.modified == NamesWithStatus(files, "modified")
    ensures r.removed == NamesWithStatus(files, "removed")
    decreases |files|
  {
    if |files| == 0 then FileChanges([], [], [])
    else
      var init := files[..|files| - 1];
      var f := files[|files| - 1];
      var p := Partition(init);
      assert init + [f] == files;
      NamesWithStatusSnoc(init, f, "added");
      NamesWithStatusSnoc(init, f, "modified");
      NamesWithStatusSnoc(init, f, "removed");
      if f.status == "added" then p.(added := p.added + [f.filename])
      else if f.status == "modified" then p.(modified := p.modified + [f.filename])
      else if f.status == "removed" then p.(removed := p.removed + [f.filename])
      else p
  }

  predicate IsTrackedStatus(status: string) {
    status == "added" || status == "modified" || status == "removed"
  }

  /** Number of files whose status is one of the three tracked ones. */
  function TrackedCount(files: seq<FileEntry>): nat
    decreases |files|
  {
    if |files| == 0 then 0
    else (if IsTrackedStatus(files[0].status) then 1 else 0) + TrackedCount(files[1..])
  }

  /** Every tracked file lands in exactly one list and no other file lands in
      any: the three lists together are as long as the tracked files. */
  lemma {:induction false} PartitionCountsTrackedFiles(files: seq<FileEntry>)
    ensures var p := Partition(files);
            |p.added| + |p.modified| + |p.removed| == TrackedCount(files)
    decreases |files|
  {
    if |files| > 0 {
      PartitionCountsTrackedFiles(files[1..]);
    }
  }

  /** Files whose status is none of the three appear in no list. */
  lemma {:induction false} UntrackedFilesDropped(files: seq<FileEntry>)
    requires forall i :: 0 <= i < |files| ==> !IsTrackedStatus(files[i].status)
    ensures Partition(files) == FileChanges([], [], [])
    decreases |files|
  {
    if |files| > 0 {
      UntrackedFilesDropped(files[1..]);
    }
  }

  /** Result of the per-commit detail request: failed, or answered with a
      `files` array that may be missing. */
  datatype Detail = DetailFailed | DetailFetched(files: Option<seq<FileEntry>>)

  /** One record of the commits endpoint with the answer to its detail
      request. `linkedAuthor` is the account GitHub linked, if any. */
  datatype CommitRecord = CommitRecord(
    sha: string,
    message: string,
    url: string,
    htmlUrl: string,
    author: Signature,
    committer: Signature,
    tree: Tree,
    linkedAuthor: Option<User>,
    detail: Detail)

  /** `repository.default_branch || 'main'`. */
  function BranchOf(repository: Repository): (b: string)
    ensures b != ""
    ensures repository.defaultBranch.Some? && repository.defaultBranch.value != "" ==> b == repository.defaultBranch.value
    ensures repository.defaultBranch.None? || repository.defaultBranch.value == "" ==> b == "main"
  {
    if repository.defaultBranch.Some? && repository.defaultBranch.value != "" then repository.defaultBranch.value
    else "main"
  }

  /** The linked account, or else the author name with id 0 and no avatar. */
  function SenderOf(rec: CommitRecord): (u: User)
    ensures rec.linkedAuthor.Some? ==> u == rec.linkedAuthor.value
    ensures rec.linkedAuthor.None? ==> u == User(rec.author.name, 0, "")
  {
    match rec.linkedAuthor
    case Some(user) => User(user.login, user.id, user.avatarUrl)
    case None => User(rec.author.name, 0, "")
  }

  /** File lists are attached only when the detail request answered with a
      `files` array. */
  function FilesOf(detail: Detail): (r: Option<FileChanges>)
    ensures r.Some? <==> detail.DetailFetched? && detail.files.Some?
    ensures r.Some? ==> r == Some(Partition(detail.files.value))
  {
    match detail
    case DetailFailed => None
    case DetailFetched(files) => if files.Some? then Some(Partition(files.value)) else None
  }

  /** The commit a record maps to: the sha doubles as id, the message,
      links, signatures and tree are copied, a fetched commit counts as
      distinct, and the file lists come from the detail request. */
  function CommitOf(rec: CommitRecord): (c: Commit)
    ensures c.id == rec.sha && c.sha == rec.sha && c.message == rec.message
    ensures c.url == rec.url && c.htmlUrl == rec.htmlUrl
    ensures c.author == rec.author && c.committer == rec.committer && c.tree == rec.tree
    ensures c.distinct
    ensures c.files == FilesOf(rec.detail)
  {
    Commit(rec.sha, rec.sha, rec.message, rec.url, rec.htmlUrl,
           Signature(rec.author.name, rec.author.email, rec.author.date),
           Signature(rec.committer.name, rec.committer.email, rec.committer.date),
           Tree(rec.tree.sha, rec.tree.url), true, FilesOf(rec.detail))
  }

  /** The event a record yields: always `pushed`, on the repository's default
      branch, sent by the linked account or the author. */
  function CommitEventOf(rec: CommitRecord, repository: Repository): (e: Event)
    ensures e.CommitEvent? && e.action == Pushed && e.repository == repository
    ensures e.commit == CommitOf(rec) && e.sender == SenderOf(rec) && e.branch == BranchOf(repository)
  {
    CommitEvent(Pushed, CommitOf(rec), repository, SenderOf(rec), BranchOf(repository))
  }

  /** What the commit check builds from each record, field by field. */
  lemma CommitEventFields(rec: CommitRecord, repository: Repository)
    ensures var e := CommitEventOf(rec, repository);
            && e.CommitEvent? && e.action == Pushed && e.repository == repository
            && e.commit.id == rec.sha && e.commit.sha == rec.sha && e.commit.distinct
            && e.commit.message == rec.message && e.commit.url == rec.url && e.commit.htmlUrl == rec.htmlUrl
            && e.commit.author == rec.author && e.commit.committer == rec.committer && e.commit.tree == rec.tree
            && e.branch == (if repository.defaultBranch.Some? && repository.defaultBranch.value != ""
                            then repository.defaultBranch.value else "main")
            && (rec.linkedAuthor.Some? ==> e.sender == rec.linkedAuthor.value)
            && (rec.linkedAuthor.None? ==> e.sender == User(rec.author.name, 0, ""))
            && (e.commit.files.Some? <==> rec.detail.DetailFetched? && rec.detail.files.Some?)
            && (e.commit.files.Some? ==> e.commit.files.value == Partition(rec.detail.files.value))
  {
  }

  /** The commit events of one fetched page: one `pushed` event per record in
      page order when `pushed` is allowed, none otherwise. */
  function CommitEvents(records: seq<CommitRecord>, actions: seq<string>, repository: Repository): (es: seq<Event>)
    ensures Pushed in actions ==> |es| == |records|
    ensures Pushed in actions ==> forall i :: 0 <= i < |records| ==> es[i] == CommitEventOf(records[i], repository)
    ensures Pushed !in actions ==> es == []
    ensures forall e :: e in es ==> e.CommitEvent? && e.action == Pushed && e.repository == repository
  {
    if Pushed in actions then seq(|records|, i requires 0 <= i < |records| => CommitEventOf(records[i], repository))
    else []
  }
}
