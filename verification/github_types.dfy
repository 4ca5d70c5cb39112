/** The records the service passes around, after the shapes of
    `src/types.ts`. Timestamps are integers (milliseconds); fields the source
    declares nullable are `Option`s. The event union is tagged instead of being
    told apart by which field is present. */
module GitHubTypes {
  import opened Wrappers

  /** An account: `GitHubUser`. */
  datatype User = User(login: string, id: int, avatarUrl: string)

  /** A repository as returned by the repository endpoint. `defaultBranch` is
      read only by the commit check; `types.ts` leaves it out. */
  datatype Repository = Repository(id: int, fullName: string, htmlUrl: string, defaultBranch: Option<string>)

  /** `GitHubIssue`, restricted to the fields the service reads or prints. */
  datatype Issue = Issue(
    id: int,
    number: nat,
    title: string,
    body: Option<string>,
    state: string,
    htmlUrl: string,
    user: User,
    assignees: seq<User>,
    createdAt: int,
    updatedAt: int,
    closedAt: Option<int>)

  /** One record of the issues endpoint: an issue, or a pull request that the
      endpoint reports in issue shape and marks with a `pull_request` field. */
  datatype IssueRecord = IssueRecord(issue: Issue, pullRequestMarker: bool)

  datatype GitRef = GitRef(ref: string, sha: string)

  /** `GitHubPullRequestEvent['pull_request']`: the issue fields plus the
      merge data. `merged` is whatever the record carries; the pulls list
      endpoint leaves it out, so a fetched record has it `false`. */
  datatype PullRequest = PullRequest(
    issue: Issue,
    merged: bool,
    mergedAt: Option<int>,
    mergeCommitSha: Option<string>,
    head: GitRef,
    base: GitRef)

  /** Name, e-mail and date of a commit author or committer. */
  datatype Signature = Signature(name: string, email: string, date: string)

  datatype Tree = Tree(sha: string, url: string)

  /** Paths a commit added, modified and removed. */
  datatype FileChanges = FileChanges(added: seq<string>, modified: seq<string>, removed: seq<string>)

  /** `GitHubCommit`. */
  datatype Commit = Commit(
    id: string,
    sha: string,
    message: string,
    url: string,
    htmlUrl: string,
    author: Signature,
    committer: Signature,
    tree: Tree,
    distinct: bool,
    files: Option<FileChanges>)

  /** `GitHubEvent`, with one tag per variant. */
  datatype Event =
    | IssueEvent(action: string, issue: Issue, repository: Repository, sender: User)
    | PullRequestEvent(action: string, pullRequest: PullRequest, repository: Repository, sender: User)
    | CommitEvent(action: string, commit: Commit, repository: Repository, sender: User, branch: string)
}
