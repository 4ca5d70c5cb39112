/** The polling service's state and operations: per-category cursor maps,
    the list of valid repositories, the timer, repository validation, the
    per-category checks and one timer tick. Network answers are inputs and
    `now` is the clock reading. */
module Poller {
  import opened Wrappers
  import opened GitHubTypes
  import opened Classify

  /** `GitHubAPIConfig` without the token. */
  datatype Config = Config(
    repositories: seq<string>,
    pollingInterval: int,
    issueActions: seq<string>,
    prActions: seq<string>,
    commitActions: seq<string>)

  /** The interval handle. `startPolling` clears a running interval without
      dropping the handle, so a handle can be present but cleared. */
  datatype Timer = NoHandle | Running | Cleared

  datatype PollerState = PollerState(
    config: Config,
    issuesChecked: map<string, int>,
    pullsChecked: map<string, int>,
    commitsChecked: map<string, int>,
    valid: seq<string>,
    timer: Timer)

  /** The state a fresh service starts in. */
  function Initial(config: Config): PollerState {
    PollerState(config, map[], map[], map[], [], NoHandle)
  }

  datatype Category = Issues | PullRequests | Commits

  function CursorsOf(s: PollerState, c: Category): map<string, int> {
    match c
    case Issues => s.issuesChecked
    case PullRequests => s.pullsChecked
    case Commits => s.commitsChecked
  }

  /** The stored cursor of a repository in a category, if any. */
  function LastChecked(s: PollerState, c: Category, repo: string): (r: Option<int>)
    ensures r.Some? <==> repo in CursorsOf(s, c)
    ensures r.Some? ==> r.value == CursorsOf(s, c)[repo]
  {
    if repo in CursorsOf(s, c) then Some(CursorsOf(s, c)[repo]) else None
  }

  /** `getLastCheckedCommits`: `null` until the first commit check. */
  function LastCheckedCommits(s: PollerState, repo: string): (r: Option<int>)
    ensures r.Some? <==> repo in s.commitsChecked
    ensures r.Some? ==> r.value == s.commitsChecked[repo]
  {
    LastChecked(s, Commits, repo)
  }

  /** `map.get(repo) || new Date()`: the stored cursor, or `now`. */
  function ReadCursor(s: PollerState, c: Category, repo: string, now: int): (r: int)
    ensures repo in CursorsOf(s, c) ==> r == CursorsOf(s, c)[repo]
    ensures repo !in CursorsOf(s, c) ==> r == now
  {
    LastChecked(s, c, repo).GetOr(now)
  }

  function SetCursor(s: PollerState, c: Category, repo: string, now: int): (r: PollerState)
    ensures CursorsOf(r, c) == CursorsOf(s, c)[repo := now]
    ensures forall d :: d != c ==> CursorsOf(r, d) == CursorsOf(s, d)
    ensures r.config == s.config && r.valid == s.valid && r.timer == s.timer
  {
    match c
    case Issues => s.(issuesChecked := s.issuesChecked[repo := now])
    case PullRequests => s.(pullsChecked := s.pullsChecked[repo := now])
    case Commits => s.(commitsChecked := s.commitsChecked[repo := now])
  }

  /** `valid.filter(r => r !== repo)`: every copy of `repo` goes, the rest
      stays in order. */
  function Without(valid: seq<string>, repo: string): (r: seq<string>)
    ensures forall x :: x in r <==> x in valid && x != repo
    ensures |r| <= |valid|
    ensures repo !in valid ==> r == valid
    decreases |valid|
  {
    if |valid| == 0 then []
    else (if valid[0] == repo then [] else [valid[0]]) + Without(valid[1..], repo)
  }

  lemma WithoutCons(h: string, t: seq<string>, repo: string)
    ensures Without([h] + t, repo) == (if h == repo then [] else [h]) + Without(t, repo)
  {
    assert ([h] + t)[1..] == t;
  }

  lemma WithoutAppendStep(h: string, t: seq<string>, b: seq<string>, repo: string)
    requires Without(t + b, repo) == Without(t, repo) + Without(b, repo)
    ensures Without([h] + t + b, repo) == Without([h] + t, repo) + Without(b, repo)
  {
    assert [h] + t + b == [h] + (t + b);
    WithoutCons(h, t + b, repo);
    WithoutCons(h, t, repo);
    Regroup(if h == repo then [] else [h], Without(t + b, repo), Without(t, repo), Without(b, repo),
            Without([h] + (t + b), repo), Without([h] + t, repo));
  }

  /** Sequence algebra of the step above, kept apart from `Without`. */
  lemma Regroup<T>(head: seq<T>, tb: seq<T>, t: seq<T>, b: seq<T>, htb: seq<T>, ht: seq<T>)
    requires tb == t + b && htb == head + tb && ht == head + t
    ensures htb == ht + b
  {
  }

  /** Removal keeps the rest in order: the list removed from in two parts is
      the two parts removed from. With the ensures of `Without`, which settle
      lists of one entry, this fixes the result for every list. */
  lemma {:induction false} WithoutAppend(a: seq<string>, b: seq<string>, repo: string)
    ensures Without(a + b, repo) == Without(a, repo) + Without(b, repo)
    decreases |a|
  {
    if |a| == 0 {
      assert a + b == b;
    } else {
      assert a == [a[0]] + a[1..];
      WithoutAppend(a[1..], b, repo);
      WithoutAppendStep(a[0], a[1..], b, repo);
    }
  }

  /** Answer to the repository probe of the validation: an HTTP status, or
      no response at all. */
  datatype Probe = Answered(status: int) | NoAnswer

  /** Outcome of the requests of one category check: the repository and the
      page of records, or the error status (absent when there was no HTTP
      response). */
  datatype Fetch<T> = Fetched(repository: Repository, records: seq<T>) | FetchFailed(status: Option<int>)

  predicate IsNotFound<T>(f: Fetch<T>) {
    f.FetchFailed? && f.status == Some(404)
  }

  /** Only a 404 removes the repository; other errors leave the list alone. */
  function ValidAfter<T>(valid: seq<string>, repo: string, f: Fetch<T>): seq<string> {
    if IsNotFound(f) then Without(valid, repo) else valid
  }

  datatype Checked = Checked(state: PollerState, events: seq<Event>)

  /** `checkForNewIssues`: read the cursor (default `now`), overwrite it with
      `now` before the requests, and classify the page against the cursor that
      was read. On an error no events come out but the cursor has moved. */
  function CheckIssues(s: PollerState, repo: string, now: int, fetch: Fetch<IssueRecord>): (r: Checked)
    ensures CursorsOf(r.state, Issues) == CursorsOf(s, Issues)[repo := now]
    ensures CursorsOf(r.state, PullRequests) == s.pullsChecked && CursorsOf(r.state, Commits) == s.commitsChecked
    ensures r.state.config == s.config && r.state.timer == s.timer
    ensures forall x :: x in r.state.valid <==> x in s.valid && !(x == repo && IsNotFound(fetch))
    ensures IsNotFound(fetch) ==> r.state.valid == Without(s.valid, repo)
    ensures !IsNotFound(fetch) ==> r.state.valid == s.valid
    ensures fetch.FetchFailed? ==> r.events == []
    ensures fetch.Fetched? ==> r.events == IssueEvents(fetch.records, ReadCursor(s, Issues, repo, now), s.config.issueActions, fetch.repository)
  {
    var cursor := ReadCursor(s, Issues, repo, now);
    var s1 := SetCursor(s, Issues, repo, now);
    match fetch
    case FetchFailed(_) => Checked(s1.(valid := ValidAfter(s1.valid, repo, fetch)), [])
    case Fetched(repository, records) => Checked(s1, IssueEvents(records, cursor, s.config.issueActions, repository))
  }

  /** `checkForNewPullRequests`, with the same cursor discipline. */
  function CheckPullRequests(s: PollerState, repo: string, now: int, fetch: Fetch<PullRequest>): (r: Checked)
    ensures CursorsOf(r.state, PullRequests) == CursorsOf(s, PullRequests)[repo := now]
    ensures CursorsOf(r.state, Issues) == s.issuesChecked && CursorsOf(r.state, Commits) == s.commitsChecked
    ensures r.state.config == s.config && r.state.timer == s.timer
    ensures forall x :: x in r.state.valid <==> x in s.valid && !(x == repo && IsNotFound(fetch))
    ensures IsNotFound(fetch) ==> r.state.valid == Without(s.valid, repo)
    ensures !IsNotFound(fetch) ==> r.state.valid == s.valid
    ensures fetch.FetchFailed? ==> r.events == []
    ensures fetch.Fetched? ==> r.events == PullRequestEvents(fetch.records, ReadCursor(s, PullRequests, repo, now), s.config.prActions, fetch.repository)
  {
    var cursor := ReadCursor(s, PullRequests, repo, now);
    var s1 := SetCursor(s, PullRequests, repo, now);
    match fetch
    case FetchFailed(_) => Checked(s1.(valid := ValidAfter(s1.valid, repo, fetch)), [])
    case Fetched(repository, records) => Checked(s1, PullRequestEvents(records, cursor, s.config.prActions, repository))
  }

  /** `checkForNewCommits`: same cursor discipline; the cursor only filters on
      the server side, so the page is taken as it comes. */
  function CheckCommits(s: PollerState, repo: string, now: int, fetch: Fetch<CommitRecord>): (r: Checked)
    ensures CursorsOf(r.state, Commits) == CursorsOf(s, Commits)[repo := now]
    ensures CursorsOf(r.state, Issues) == s.issuesChecked && CursorsOf(r.state, PullRequests) == s.pullsChecked
    ensures r.state.config == s.config && r.state.timer == s.timer
    ensures forall x :: x in r.state.valid <==> x in s.valid && !(x == repo && IsNotFound(fetch))
    ensures IsNotFound(fetch) ==> r.state.valid == Without(s.valid, repo)
    ensures !IsNotFound(fetch) ==> r.state.valid == s.valid
    ensures fetch.FetchFailed? ==> r.events == []
    ensures fetch.Fetched? ==> r.events == CommitEvents(fetch.records, s.config.commitActions, fetch.repository)
    ensures |r.events| <= (if fetch.Fetched? then |fetch.records| else 0)
  {
    var s1 := SetCursor(s, Commits, repo, now);
    match fetch
    case FetchFailed(_) => Checked(s1.(valid := ValidAfter(s1.valid, repo, fetch)), [])
    case Fetched(repository, records) => Checked(s1, CommitEvents(records, s.config.commitActions, repository))
  }

  /** The answers a tick gets for one repository, one per category. */
  datatype Responses = Responses(issues: Fetch<IssueRecord>, pulls: Fetch<PullRequest>, commits: Fetch<CommitRecord>)

  predicate AnyNotFound(resp: Responses) {
    IsNotFound(resp.issues) || IsNotFound(resp.pulls) || IsNotFound(resp.commits)
  }

  /** The events one repository yields in a tick when every category is judged
      against the cursor it had before the visit. */
  function VisitEvents(s: PollerState, repo: string, now: int, resp: Responses): seq<Event> {
    (if resp.issues.Fetched?
     then IssueEvents(resp.issues.records, ReadCursor(s, Issues, repo, now), s.config.issueActions, resp.issues.repository)
     else [])
    + (if resp.pulls.Fetched?
       then PullRequestEvents(resp.pulls.records, ReadCursor(s, PullRequests, repo, now), s.config.prActions, resp.pulls.repository)
       else [])
    + (if resp.commits.Fetched? then CommitEvents(resp.commits.records, s.config.commitActions, resp.commits.repository) else [])
  }

  /** One repository in a tick: issues, then pull requests, then commits. A
      404 in one category removes the repository but does not stop the later
      categories: all three cursors move to `now` and every category still
      yields its events. */
  function Visit(s: PollerState, repo: string, now: int, resp: Responses): (r: Checked)
    ensures forall c :: CursorsOf(r.state, c) == CursorsOf(s, c)[repo := now]
    ensures r.state.config == s.config && r.state.timer == s.timer
    ensures forall x :: x in r.state.valid <==> x in s.valid && !(x == repo && AnyNotFound(resp))
    ensures r.state.valid == if AnyNotFound(resp) then Without(s.valid, repo) else s.valid
    ensures r.events == VisitEvents(s, repo, now, resp)
  {
    var a := CheckIssues(s, repo, now, resp.issues);
    var b := CheckPullRequests(a.state, repo, now, resp.pulls);
    var c := CheckCommits(b.state, repo, now, resp.commits);
    assert ReadCursor(a.state, PullRequests, repo, now) == ReadCursor(s, PullRequests, repo, now);
    EveryCategoryAdvanced(s, c.state, repo, now);
    Checked(c.state, a.events + b.events + c.events)
  }

  lemma EveryCategoryAdvanced(s: PollerState, s': PollerState, repo: string, now: int)
    requires s'.issuesChecked == s.issuesChecked[repo := now]
    requires s'.pullsChecked == s.pullsChecked[repo := now]
    requires s'.commitsChecked == s.commitsChecked[repo := now]
    ensures forall c :: CursorsOf(s', c) == CursorsOf(s, c)[repo := now]
  {
    forall c ensures CursorsOf(s', c) == CursorsOf(s, c)[repo := now] {
      match c
      case Issues =>
      case PullRequests =>
      case Commits =>
    }
  }

  /** The rest of a tick, over the list of repositories it started with. */
  function TickFrom(s: PollerState, snapshot: seq<string>, responses: seq<Responses>, now: int): Checked
    requires |responses| == |snapshot|
    decreases |snapshot|
  {
    if |snapshot| == 0 then Checked(s, [])
    else
      var v := Visit(s, snapshot[0], now, responses[0]);
      var rest := TickFrom(v.state, snapshot[1..], responses[1..], now);
      Checked(rest.state, v.events + rest.events)
  }

  /** Some visit of `x` in the tick met a 404. */
  predicate NotFoundDuring(x: string, snapshot: seq<string>, responses: seq<Responses>)
    requires |responses| == |snapshot|
  {
    exists i :: 0 <= i < |snapshot| && snapshot[i] == x && AnyNotFound(responses[i])
  }

  lemma NotFoundDuringSnoc(x: string, snapshot: seq<string>, responses: seq<Responses>, i: nat)
    requires |responses| == |snapshot| && i < |snapshot|
    ensures NotFoundDuring(x, snapshot[..i + 1], responses[..i + 1])
            <==> NotFoundDuring(x, snapshot[..i], responses[..i]) || (x == snapshot[i] && AnyNotFound(responses[i]))
  {
    if NotFoundDuring(x, snapshot[..i + 1], responses[..i + 1]) {
      var j :| 0 <= j < i + 1 && snapshot[..i + 1][j] == x && AnyNotFound(responses[..i + 1][j]);
      if j < i {
        assert snapshot[..i][j] == x && AnyNotFound(responses[..i][j]);
      }
    }
    if NotFoundDuring(x, snapshot[..i], responses[..i]) {
      var j :| 0 <= j < i && snapshot[..i][j] == x && AnyNotFound(responses[..i][j]);
      assert snapshot[..i + 1][j] == x && AnyNotFound(responses[..i + 1][j]);
    }
    if x == snapshot[i] && AnyNotFound(responses[i]) {
      assert snapshot[..i + 1][i] == x && AnyNotFound(responses[..i + 1][i]);
    }
  }

  /** Reference for the valid list after a tick: the entries of `valid`, in
      order and with their copies, whose repository met no 404 during the
      visits of `snapshot`. */
  function Survivors(valid: seq<string>, snapshot: seq<string>, responses: seq<Responses>): (r: seq<string>)
    requires |responses| == |snapshot|
    ensures forall x :: x in r <==> x in valid && !NotFoundDuring(x, snapshot, responses)
    decreases |valid|
  {
    if |valid| == 0 then []
    else (if NotFoundDuring(valid[0], snapshot, responses) then [] else [valid[0]]) + Survivors(valid[1..], snapshot, responses)
  }

  lemma {:induction false} SurvivorsOfNone(valid: seq<string>)
    ensures Survivors(valid, [], []) == valid
    decreases |valid|
  {
    if |valid| > 0 {
      SurvivorsOfNone(valid[1..]);
      assert [valid[0]] + valid[1..] == valid;
    }
  }

  /** The survivors after one more visit, over any earlier visits. */
  lemma {:induction false} SurvivorsSnoc(valid: seq<string>, sn: seq<string>, rs: seq<Responses>, x: string, resp: Responses)
    requires |rs| == |sn|
    requires forall y :: NotFoundDuring(y, sn + [x], rs + [resp]) <==> NotFoundDuring(y, sn, rs) || (y == x && AnyNotFound(resp))
    ensures Survivors(valid, sn + [x], rs + [resp])
            == if AnyNotFound(resp) then Without(Survivors(valid, sn, rs), x) else Survivors(valid, sn, rs)
    decreases |valid|
  {
    if |valid| > 0 {
      var h := valid[0];
      SurvivorsSnoc(valid[1..], sn, rs, x, resp);
      var head := if NotFoundDuring(h, sn, rs) then [] else [h];
      assert Survivors(valid, sn, rs) == head + Survivors(valid[1..], sn, rs);
      if AnyNotFound(resp) {
        WithoutAppend(head, Survivors(valid[1..], sn, rs), x);
        assert Without(head, x) == if NotFoundDuring(h, sn + [x], rs + [resp]) then [] else [h];
      }
    }
  }

  /** One more visit in the tick removes its repository from the survivors
      exactly when that visit met a 404. */
  lemma SurvivorsStep(valid: seq<string>, snapshot: seq<string>, responses: seq<Responses>, i: nat)
    requires |responses| == |snapshot| && i < |snapshot|
    ensures Survivors(valid, snapshot[..i + 1], responses[..i + 1])
            == if AnyNotFound(responses[i]) then Without(Survivors(valid, snapshot[..i], responses[..i]), snapshot[i])
               else Survivors(valid, snapshot[..i], responses[..i])
  {
    assert snapshot[..i + 1] == snapshot[..i] + [snapshot[i]];
    assert responses[..i + 1] == responses[..i] + [responses[i]];
    forall y ensures NotFoundDuring(y, snapshot[..i] + [snapshot[i]], responses[..i] + [responses[i]])
                     <==> NotFoundDuring(y, snapshot[..i], responses[..i]) || (y == snapshot[i] && AnyNotFound(responses[i])) {
      NotFoundDuringSnoc(y, snapshot, responses, i);
    }
    SurvivorsSnoc(valid, snapshot[..i], responses[..i], snapshot[i], responses[i]);
  }

  /** The valid list after the first `i` visits of a tick. */
  predicate SurvivedSoFar(s: PollerState, st: PollerState, responses: seq<Responses>, i: nat)
    requires |responses| == |s.valid| && i <= |s.valid|
  {
    st.valid == Survivors(s.valid, s.valid[..i], responses[..i])
  }

  lemma SurvivedVisit(s: PollerState, st: PollerState, responses: seq<Responses>, i: nat, now: int)
    requires |responses| == |s.valid| && i < |s.valid|
    requires SurvivedSoFar(s, st, responses, i)
    ensures SurvivedSoFar(s, Visit(st, s.valid[i], now, responses[i]).state, responses, i + 1)
  {
    SurvivorsStep(s.valid, s.valid, responses, i);
  }

  lemma SurvivedBounds(s: PollerState, st: PollerState, responses: seq<Responses>)
    requires |responses| == |s.valid|
    ensures SurvivedSoFar(s, s, responses, 0)
    ensures SurvivedSoFar(s, st, responses, |s.valid|) ==> st.valid == Survivors(s.valid, s.valid, responses)
  {
    assert s.valid[..0] == [] && responses[..0] == [];
    SurvivorsOfNone(s.valid);
    assert s.valid[..|s.valid|] == s.valid && responses[..|s.valid|] == responses;
  }

  /** `after` is `before` with the cursors of `keys` stamped `now` and
      nothing else changed. */
  ghost predicate StampedFor(before: map<string, int>, after: map<string, int>, keys: seq<string>, now: int) {
    && (forall k :: k in after <==> k in before || k in keys)
    && (forall k :: k in keys ==> after[k] == now)
    && (forall k :: k in before && k !in keys ==> after[k] == before[k])
  }

  lemma StampedForStep(before: map<string, int>, after: map<string, int>, keys: seq<string>, key: string, now: int)
    requires StampedFor(before, after, keys, now)
    ensures StampedFor(before, after[key := now], keys + [key], now)
  {
  }

  /** Every cursor is at most `t`. */
  predicate CursorsAtMost(s: PollerState, t: int) {
    forall c, k :: k in CursorsOf(s, c) ==> CursorsOf(s, c)[k] <= t
  }

  /** No cursor of `s` is missing from `s'` or smaller there. */
  predicate NoCursorRetreats(s: PollerState, s': PollerState) {
    forall c, k :: k in CursorsOf(s, c) ==> k in CursorsOf(s', c) && CursorsOf(s, c)[k] <= CursorsOf(s', c)[k]
  }

  /** Stamping cursors with a `now` no earlier than any of them moves none
      backwards. */
  lemma StampingNeverRetreats(s: PollerState, s': PollerState, keys: seq<string>, now: int)
    requires forall c :: StampedFor(CursorsOf(s, c), CursorsOf(s', c), keys, now)
    ensures CursorsAtMost(s, now) ==> NoCursorRetreats(s, s') && CursorsAtMost(s', now)
  {
    if !CursorsAtMost(s, now) { return; }
    forall c, k | k in CursorsOf(s', c) ensures CursorsOf(s', c)[k] <= now {
      assert StampedFor(CursorsOf(s, c), CursorsOf(s', c), keys, now);
    }
    forall c, k | k in CursorsOf(s, c)
      ensures k in CursorsOf(s', c) && CursorsOf(s, c)[k] <= CursorsOf(s', c)[k]
    {
      assert StampedFor(CursorsOf(s, c), CursorsOf(s', c), keys, now);
    }
  }

  /** What holds after the first visits of a tick. */
  ghost predicate Visited(s: PollerState, st: PollerState, snapshot: seq<string>, responses: seq<Responses>, i: nat, now: int)
    requires |responses| == |snapshot| && i <= |snapshot|
  {
    && (forall c :: StampedFor(CursorsOf(s, c), CursorsOf(st, c), snapshot[..i], now))
    && (forall x :: x in st.valid <==> x in snapshot && !NotFoundDuring(x, snapshot[..i], responses[..i]))
    && st.config == s.config && st.timer == s.timer
  }

  lemma VisitedStep(s: PollerState, st: PollerState, snapshot: seq<string>, responses: seq<Responses>, i: nat, now: int)
    requires |responses| == |snapshot| && i < |snapshot|
    requires Visited(s, st, snapshot, responses, i, now)
    ensures Visited(s, Visit(st, snapshot[i], now, responses[i]).state, snapshot, responses, i + 1, now)
  {
    var st' := Visit(st, snapshot[i], now, responses[i]).state;
    assert snapshot[..i + 1] == snapshot[..i] + [snapshot[i]];
    forall c ensures StampedFor(CursorsOf(s, c), CursorsOf(st', c), snapshot[..i + 1], now) {
      StampedForStep(CursorsOf(s, c), CursorsOf(st, c), snapshot[..i], snapshot[i], now);
    }
    forall x ensures x in st'.valid <==> x in snapshot && !NotFoundDuring(x, snapshot[..i + 1], responses[..i + 1]) {
      NotFoundDuringSnoc(x, snapshot, responses, i);
    }
  }

  lemma TickFromUnfold(st: PollerState, snapshot: seq<string>, responses: seq<Responses>, i: nat, now: int)
    requires |responses| == |snapshot| && i < |snapshot|
    ensures var v := Visit(st, snapshot[i], now, responses[i]);
            var rest := TickFrom(v.state, snapshot[i + 1..], responses[i + 1..], now);
            TickFrom(st, snapshot[i..], responses[i..], now) == Checked(rest.state, v.events + rest.events)
  {
    assert snapshot[i..][1..] == snapshot[i + 1..];
    assert responses[i..][1..] == responses[i + 1..];
  }

  /** The loop state of a tick after `i` visits: the events so far followed by
      the rest of the tick make up the whole tick. */
  ghost predicate TickSoFar(s: PollerState, st: PollerState, events: seq<Event>, responses: seq<Responses>, i: nat, now: int)
    requires |responses| == |s.valid| && i <= |s.valid|
  {
    && TickFrom(st, s.valid[i..], responses[i..], now).state == TickFrom(s, s.valid, responses, now).state
    && events + TickFrom(st, s.valid[i..], responses[i..], now).events == TickFrom(s, s.valid, responses, now).events
  }

  lemma TickSoFarStep(s: PollerState, st: PollerState, events: seq<Event>, responses: seq<Responses>, i: nat, now: int)
    requires |responses| == |s.valid| && i < |s.valid|
    requires TickSoFar(s, st, events, responses, i, now)
    ensures var v := Visit(st, s.valid[i], now, responses[i]);
            TickSoFar(s, v.state, events + v.events, responses, i + 1, now)
  {
    TickFromUnfold(st, s.valid, responses, i, now);
  }

  /** After the last visit the stamped keys are the whole snapshot. */
  lemma VisitedAll(s: PollerState, st: PollerState, responses: seq<Responses>, now: int)
    requires |responses| == |s.valid|
    requires Visited(s, st, s.valid, responses, |s.valid|, now)
    ensures forall c :: StampedFor(CursorsOf(s, c), CursorsOf(st, c), s.valid, now)
    ensures forall x :: x in st.valid <==> x in s.valid && !NotFoundDuring(x, s.valid, responses)
    ensures st.config == s.config && st.timer == s.timer
  {
    assert s.valid[..|s.valid|] == s.valid && responses[..|s.valid|] == responses;
  }

  lemma TickSoFarDone(s: PollerState, st: PollerState, events: seq<Event>, responses: seq<Responses>, now: int)
    requires |responses| == |s.valid|
    requires TickSoFar(s, st, events, responses, |s.valid|, now)
    requires Visited(s, st, s.valid, responses, |s.valid|, now)
    ensures Checked(st, events) == TickFrom(s, s.valid, responses, now)
    ensures forall c :: StampedFor(CursorsOf(s, c), CursorsOf(st, c), s.valid, now)
    ensures forall x :: x in st.valid <==> x in s.valid && !NotFoundDuring(x, s.valid, responses)
    ensures st.config == s.config && st.timer == s.timer
    ensures CursorsAtMost(s, now) ==> NoCursorRetreats(s, st) && CursorsAtMost(st, now)
  {
    VisitedAll(s, st, responses, now);
    StampingNeverRetreats(s, st, s.valid, now);
  }

  /** One timer tick: for each repository of the list as it stood when the
      tick began, check issues, then pull requests, then commits, handing every
      event to the consumer in that order. Repositories removed during the
      tick are still visited; after it, every visited repository has all three
      cursors at `now`, other cursors are untouched, and exactly the
      repositories that met a 404 are gone. */
  method Tick(s: PollerState, responses: seq<Responses>, now: int) returns (r: Checked)
    requires |responses| == |s.valid|
    ensures r == TickFrom(s, s.valid, responses, now)
    ensures forall c :: StampedFor(CursorsOf(s, c), CursorsOf(r.state, c), s.valid, now)
    ensures forall x :: x in r.state.valid <==> x in s.valid && !NotFoundDuring(x, s.valid, responses)
    ensures r.state.valid == Survivors(s.valid, s.valid, responses)
    ensures r.state.config == s.config && r.state.timer == s.timer
    ensures CursorsAtMost(s, now) ==> NoCursorRetreats(s, r.state) && CursorsAtMost(r.state, now)
  {
    var snapshot := s.valid;
    var st := s;
    var events: seq<Event> := [];
    var i := 0;
    assert snapshot[..0] == [] && responses[..0] == [];
    SurvivedBounds(s, s, responses);
    while i < |snapshot|
      invariant 0 <= i <= |snapshot|
      invariant TickSoFar(s, st, events, responses, i, now)
      invariant Visited(s, st, s.valid, responses, i, now)
      invariant SurvivedSoFar(s, st, responses, i)
    {
      TickSoFarStep(s, st, events, responses, i, now);
      VisitedStep(s, st, s.valid, responses, i, now);
      SurvivedVisit(s, st, responses, i, now);
      var v := Visit(st, snapshot[i], now, responses[i]);
      st := v.state;
      events := events + v.events;
      i := i + 1;
    }
    TickSoFarDone(s, st, events, responses, now);
    SurvivedBounds(s, st, responses);
    r := Checked(st, events);
  }

  /** Only an answer 200 admits a configured repository, in configured order. */
  function Accepted(repos: seq<string>, probes: seq<Probe>): (r: seq<string>)
    requires |probes| == |repos|
    ensures forall x :: x in r <==> exists i :: 0 <= i < |repos| && repos[i] == x && probes[i] == Answered(200)
    ensures |r| <= |repos|
    decreases |repos|
  {
    if |repos| == 0 then []
    else
      var n := |repos| - 1;
      var prefix := Accepted(repos[..n], probes[..n]);
      assert forall i :: 0 <= i < n ==> repos[..n][i] == repos[i] && probes[..n][i] == probes[i];
      prefix + (if probes[n] == Answered(200) then [repos[n]] else [])
  }

  /** Accepting two stretches of the configured list one after the other
      keeps each stretch's accepted repositories in place: configured order
      is preserved. */
  lemma {:induction false} AcceptedAppend(r1: seq<string>, p1: seq<Probe>, r2: seq<string>, p2: seq<Probe>)
    requires |p1| == |r1| && |p2| == |r2|
    ensures Accepted(r1 + r2, p1 + p2) == Accepted(r1, p1) + Accepted(r2, p2)
    decreases |r2|
  {
    if |r2| == 0 {
      assert r1 + r2 == r1 && p1 + p2 == p1;
    } else {
      var n := |r2| - 1;
      AcceptedAppend(r1, p1, r2[..n], p2[..n]);
      assert (r1 + r2)[..|r1| + n] == r1 + r2[..n];
      assert (p1 + p2)[..|p1| + n] == p1 + p2[..n];
    }
  }

  /** `validateRepositories`: rebuild the valid list from empty, probing each
      configured repository in order; the ones answering 200 are kept and get
      their issue and pull request cursors set to `now`. The commit cursors
      are not touched. */
  method ValidateRepositories(s: PollerState, probes: seq<Probe>, now: int) returns (r: PollerState)
    requires |probes| == |s.config.repositories|
    ensures r.valid == Accepted(s.config.repositories, probes)
    ensures StampedFor(s.issuesChecked, r.issuesChecked, r.valid, now)
    ensures StampedFor(s.pullsChecked, r.pullsChecked, r.valid, now)
    ensures r.commitsChecked == s.commitsChecked
    ensures r.config == s.config && r.timer == s.timer
  {
    var repos := s.config.repositories;
    r := s.(valid := []);
    var i := 0;
    while i < |repos|
      invariant 0 <= i <= |repos|
      invariant r.valid == Accepted(repos[..i], probes[..i])
      invariant StampedFor(s.issuesChecked, r.issuesChecked, r.valid, now)
      invariant StampedFor(s.pullsChecked, r.pullsChecked, r.valid, now)
      invariant r.commitsChecked == s.commitsChecked
      invariant r.config == s.config && r.timer == s.timer
    {
      assert repos[..i + 1][..i] == repos[..i] && probes[..i + 1][..i] == probes[..i];
      if probes[i] == Answered(200) {
        StampedForStep(s.issuesChecked, r.issuesChecked, r.valid, repos[i], now);
        StampedForStep(s.pullsChecked, r.pullsChecked, r.valid, repos[i], now);
        r := r.(valid := r.valid + [repos[i]],
                issuesChecked := r.issuesChecked[repos[i] := now],
                pullsChecked := r.pullsChecked[repos[i] := now]);
      }
      i := i + 1;
    }
    assert repos[..i] == repos && probes[..i] == probes;
  }

  /** `startPolling`: clear a running interval, validate, and arm the
      interval only when some repository is valid. With no valid repository no
      interval runs; a handle that was there stays, cleared. */
  method StartPolling(s: PollerState, probes: seq<Probe>, now: int) returns (r: PollerState)
    requires |probes| == |s.config.repositories|
    ensures r.valid == Accepted(s.config.repositories, probes)
    ensures |r.valid| == 0 ==> r.timer != Running && (r.timer == NoHandle <==> s.timer == NoHandle)
    ensures |r.valid| > 0 ==> r.timer == Running
    ensures StampedFor(s.issuesChecked, r.issuesChecked, r.valid, now)
    ensures StampedFor(s.pullsChecked, r.pullsChecked, r.valid, now)
    ensures r.commitsChecked == s.commitsChecked && r.config == s.config
    ensures forall repo :: repo !in s.commitsChecked ==> LastCheckedCommits(r, repo).None?
  {
    var cleared := if s.timer == NoHandle then s else s.(timer := Cleared);
    r := ValidateRepositories(cleared, probes, now);
    if |r.valid| > 0 {
      r := r.(timer := Running);
    }
  }

  /** `stopPolling`: drop the handle if there is one; otherwise nothing
      happens. */
  function StopPolling(s: PollerState): (r: PollerState)
    ensures r.timer == NoHandle
    ensures s.timer == NoHandle ==> r == s
    ensures r.(timer := s.timer) == s
  {
    if s.timer != NoHandle then s.(timer := NoHandle) else s
  }

  lemma StopPollingIdempotent(s: PollerState)
    ensures StopPolling(StopPolling(s)) == StopPolling(s)
  {
  }
}
