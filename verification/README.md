# GitHub event receipt printer, modelled in Dafny

The system watches GitHub repositories and turns their activity into issue,
pull-request and pushed-commit events. Events that pass the configured action
lists go to the printer, which prints a paper receipt on an Epson ESC/POS
printer for issue and pull-request events only; a commit event prints
nothing. It learns about activity in one of two ways: a webhook receives
`issues`, `pull_request` and `push` deliveries, or a poller visits each
repository on a timer. This project models the parts of
it that make decisions:

- **Classifiers** (`Classify`). Issue and pull-request records are turned
  into `opened` / `closed` / `reopened` / `updated` events by comparing their
  timestamps with a per-repository cursor. An allow-list then filters them.
  Commit records become `pushed` events, with their changed files sorted into
  added, modified and removed.
- **Poller** (`Poller`). This is the service's state: three cursor maps, the
  list of repositories that answered, and the timer. The operations are
  repository validation, the three per-category checks (each reads the
  cursor, advances it to "now" before fetching, and drops the repository on a
  404), one timer tick, and starting and stopping the timer.
- **ESC/POS QR encoder** (`EpsonQRCode`). This builds the five `GS ( k`
  commands: select the model, set the module size, set the error-correction
  level, store the data, and print. It applies the `||` defaults and checks
  the size range. A decoder is provided as its inverse.
- **Receipt text** (`Printer`). This covers the printer-config check, the
  header chosen from the action (and for pull requests from the merged flag),
  the assignee, status and description text, the printed pieces of a receipt,
  and dispatch on the kind of event. `Printer.IssueReceipt` and
  `Printer.PullRequestReceipt` build the line-by-line receipt (17 and 18
  pieces, the QR code of the link among them). The lemmas
  `Printer.IssueReceiptIdentifies` and `Printer.PullRequestReceiptIdentifies`
  state the header and the QR code, not the title, creator, assignee, status
  and body lines.
- **Glue** (`App`). This parses the action and repository lists from the
  environment and builds the poller config. It also covers:
  - the allow-list gate of `handleGitHubEvent`;
  - mapping a webhook push payload to commit events;
  - the monitoring endpoint's add-if-absent;
  - the diagnostic commit endpoint.

Supporting modules:

- `Wrappers` holds `Option` and `Result`.
- `Bytes` holds bytes, the `Buffer` truncation and UTF-8.
- `Text` holds the JavaScript string operations the code relies on:
  - `trim`;
  - `split`;
  - `join`;
  - `indexOf`;
  - `replace` with a string pattern, which replaces only the first occurrence.
- `GitHubTypes` holds the record and event shapes of `src/types.ts`.

Timestamps are integers. Every HTTP answer is an input: either the list of
records or an error status. The clock is a `now` parameter, and the printer
device is reduced to whether it opened.

Behaviours of the code worth knowing:

- **Commit cursor.** Validation sets only the issue and pull-request
  cursors, not the commit cursor (src/github-api-service.ts:120-121). So
  `getLastCheckedCommits` is null until the first commit check.
- **Consumer failures.** The tick has one catch around the whole loop, not
  one per event. The consumer (`handleGitHubEvent`) catches printer errors
  itself, so nothing reaches the tick's catch
  (src/github-api-service.ts:156-180, src/index.ts:126-152).
- **Forced diagnostic check.** It runs for any repository in the
  *configured* list, not the valid list (src/index.ts:379-383). That check
  advances the commit cursor and can drop the repository from the valid list.
- **Monitoring endpoint.** It appends to the configured list only. The
  repository is not polled until a later validation (src/index.ts:336-340).
- **A 404 removal lasts until the next validation.** A later validation
  that finds the repository again puts it back in the valid list.
- **Cursors move back if the clock does.** `Poller.Tick` states that no
  cursor moves back under the hypothesis that `now` is not earlier than any
  cursor.
- **The commit link of a push** is built by two first-occurrence replaces.
  For an owner or repository literally named `commits`, the second replace
  rewrites that path segment instead of the `/commits/` before the sha
  (`App.CommitsOwnerRewritten`).

## Model

| member | source | states |
|---|---|---|
| Bytes.ToByte | src/epson-qrcode.ts:58-60 | a value written into a `Buffer` keeps only its low 8 bits: the result is a byte congruent to the input mod 256 |
| Bytes.Utf8Encode | src/epson-qrcode.ts:73 | `Buffer.from(string)` takes 1 to 4 bytes per character, and ASCII text is copied byte for byte |
| Text.Trim | src/index.ts:30-32 | `trim()` yields the slice left after dropping the leading and trailing whitespace, and it has no whitespace at either end |
| Text.TrimDropsPadding | src/index.ts:53 | trimming an already-trimmed core padded with whitespace on both sides gives back the core |
| Text.Split | src/index.ts:30-31 | `split(sep)` yields at least one piece, no piece contains the separator, and the pieces joined by it are the input |
| Text.SplitJoin | src/index.ts:30-31 | splitting the join of a non-empty list of separator-free pieces gives back those pieces, the converse of `Text.Split`'s own round trip; `Text.Join` is `join` |
| Text.SplitTrim | src/index.ts:30-32 | `split(',').map(trim)` yields trimmed, separator-free pieces, one per split piece |
| Text.SplitTrimJoin | src/index.ts:30-32 | a list of trimmed, separator-free entries written as a separated list is parsed back to the same list |
| Text.IndexOf | src/index.ts:182 | the first occurrence: the pattern occurs at the result and nowhere before it, or nowhere at all |
| Text.ReplaceFirst | src/index.ts:182 | `replace(p, q)` with a string pattern rewrites only the first occurrence and leaves text without `p` unchanged |
| Text.ReplaceFirstAfter | src/index.ts:191 | when the prefix holds no occurrence of `p`, the first replace happens right after the prefix |
| Text.ReplaceFirstKeepsLater | src/index.ts:182 | a second occurrence of the pattern survives a `replace`: only the first one is rewritten |
| Text.NatToDecimal | src/printer-service.ts:88 | the decimal rendering of a number is a non-empty string of digits, with no leading zero except for 0 itself |
| Text.DecimalRoundTrip | src/printer-service.ts:88 | reading the decimal rendering back yields the number |
| EpsonQRCode.OrDefault | src/epson-qrcode.ts:45-47 | `value \|\| fallback`: a present non-zero value wins, while an absent value or 0 gives the fallback |
| EpsonQRCode.Layout | src/epson-qrcode.ts:57-90 | five commands totalling 41 + n bytes; every command starts `GS ( k`; model at 7, size at 16, level at 24; the length bytes at 28-29; the data verbatim at 33 |
| EpsonQRCode.Generate | src/epson-qrcode.ts:36-91 | fails with the size message exactly when the defaulted size is outside 1..16, and otherwise lays out the defaulted settings and the data |
| EpsonQRCode.DecodeLayout | src/epson-qrcode.ts:72-82 | when n + 3 fits the two-byte length field, decoding the layout recovers the settings and the data |
| EpsonQRCode.DecodedSettings | src/epson-qrcode.ts:57-70 | a decodable sequence begins with the three settings commands for the settings it decodes to |
| EpsonQRCode.DecodedLengthField | src/epson-qrcode.ts:74-79 | in a decodable sequence, the length field is n + 3 split into a low and a high byte |
| EpsonQRCode.DecodedStore | src/epson-qrcode.ts:72-87 | a decodable sequence ends with the store command for its data, followed by the print command |
| EpsonQRCode.LayoutOfDecoded | src/epson-qrcode.ts:57-90 | the decoder accepts only command layouts: whatever decodes is the layout of its decoding |
| EpsonQRCode.GenerateDecodes | src/epson-qrcode.ts:36-91 | the output of a successful `generate` decodes to the defaulted settings and the original data |
| EpsonQRCode.DefaultSettings | src/epson-qrcode.ts:45-47 | with no options the output selects Model 2, size 3 and level M |
| EpsonQRCode.FalsyZeroSettings | src/epson-qrcode.ts:45-52 | level L (0) becomes level M, and size 0 becomes size 3 rather than an error |
| Classify.IssueAction | src/github-api-service.ts:248-256 | the verb order: `opened` iff created after the cursor; else `closed` iff closed after the cursor; else `reopened` iff open with a close date; else `updated` |
| Classify.IssueLifecycle | src/github-api-service.ts:248-256 | an issue created after the cursor is `opened`; once closed it is `closed` on the next tick and `updated` after that |
| Classify.IssueEvents | src/github-api-service.ts:243-272 | an event is produced for a record iff it is not pull-request shaped and its verb is allowed; every event's verb is in the allow-list |
| Classify.IssueEventsAppend | src/github-api-service.ts:243-272 | the events of a concatenation are the events of the parts, in order |
| Classify.PullRequestRecordsYieldNoIssues | src/github-api-service.ts:245 | records carrying a pull-request marker never yield an issue event |
| Classify.PullRequestAction | src/github-api-service.ts:333-345 | `opened` iff created after the cursor; else `closed` iff closed, merged or not; else `reopened` iff open and unmerged; else `updated` |
| Classify.WithMergedFlag | src/github-api-service.ts:353-358 | the emitted `merged` flag is true exactly when the record has a merge time |
| Classify.PullRequestEvents | src/github-api-service.ts:326-364 | an event is produced iff the record was updated after the cursor and its verb is allowed; every event's verb is in the allow-list |
| Classify.PullRequestEventsAppend | src/github-api-service.ts:326-364 | the events of a concatenation are the events of the parts, in order |
| Classify.StalePullRequestNeverEmitted | src/github-api-service.ts:327-330 | a pull request not updated after the cursor yields no event, whatever the allow-list |
| Classify.ClosedVerbIgnoresMerge | src/github-api-service.ts:337-342 | the verb of a closed pull request does not depend on whether it was merged |
| Classify.NewPullRequestSeenBeforeMerge | src/github-api-service.ts:326-345 | a pull request created after the cursor and seen while still open and unmerged is emitted as `opened` |
| Classify.Partition | src/github-api-service.ts:458-473 | added, modified and removed hold exactly the names of files with that status, in input order |
| Classify.PartitionCountsTrackedFiles | src/github-api-service.ts:463-471 | the three lists together hold as many names as there are files with a tracked status |
| Classify.UntrackedFilesDropped | src/github-api-service.ts:463-471 | a file with any other status lands in none of the lists |
| Classify.BranchOf | src/github-api-service.ts:415 | the branch is the repository's default branch, or `main` when that is missing |
| Classify.SenderOf | src/github-api-service.ts:488-496 | the sender is the linked author; without one it is the author's name with id 0 and an empty avatar |
| Classify.FilesOf | src/github-api-service.ts:445-477 | the file lists are absent when the detail fetch failed or had no files, and otherwise they are the partition |
| Classify.CommitOf | src/github-api-service.ts:422-443 | the commit of a record copies the sha (as id too), message, links, both signatures and tree, counts as distinct, and takes its files from the detail request |
| Classify.CommitEventOf | src/github-api-service.ts:480-504 | the event of a record is `pushed`, on the repository, with that record's commit, the fallback sender and the default branch |
| Classify.CommitEventFields | src/github-api-service.ts:420-504 | a commit event carries `pushed` and the repository; its commit copies sha (as id too), message, links, both signatures and tree, and counts as distinct; the branch is the default branch or `main`; the sender is the linked account, or the author's name with id 0; files are present iff the detail answered with files, and are then their partition |
| Classify.CommitEvents | src/github-api-service.ts:419-508 | no events unless `pushed` is allowed; otherwise one `pushed` event per record, in order |
| Poller.LastChecked | src/github-api-service.ts:204-205 | a category's cursor for a repository is present exactly when one is stored, and then it is that time |
| Poller.LastCheckedCommits | src/github-api-service.ts:198-200 | `getLastCheckedCommits` is set exactly when a commit cursor is stored, and then it is that cursor |
| Poller.ReadCursor | src/github-api-service.ts:204-205 | `get(repo) \|\| new Date()`: the stored cursor, or "now" when none is stored |
| Poller.SetCursor | src/github-api-service.ts:204-208 | only the named cursor of the named repository changes |
| Poller.Without | src/github-api-service.ts:278 | exactly the named repository leaves the valid list; the list is unchanged when it was absent |
| Poller.WithoutAppend | src/github-api-service.ts:278 | removal from a list split in two is removal from each part, one after the other: like `filter`, it keeps the order and the copies of the other repositories |
| Poller.CheckIssues | src/github-api-service.ts:202-284 | the cursor becomes "now" even on error; only a 404 drops the repository, and then the list is `Poller.Without` of it; errors yield no events; success yields the classified events |
| Poller.CheckPullRequests | src/github-api-service.ts:286-376 | the same cursor and 404 behaviour, with the pull-request classifier |
| Poller.CheckCommits | src/github-api-service.ts:378-527 | the same cursor and 404 behaviour, with the commit builder; no more events than records |
| Poller.Visit | src/github-api-service.ts:158-175 | one repository's visit stamps all three cursors and drops the repository iff some category answered 404, the list then being `Poller.Without` of it |
| Poller.Tick | src/github-api-service.ts:156-180 | the loop computes `Poller.TickFrom`, the recursive visit of the snapshot; every repository of the snapshot has all three cursors stamped, even one dropped mid-tick; a repository stays valid iff no category answered 404, and the valid list is `Poller.Survivors`, the snapshot's entries in order with every copy of a 404'd repository removed; config and timer are unchanged; with a clock not behind any cursor, no cursor moves back |
| Poller.StampingNeverRetreats | src/github-api-service.ts:156-180 | when "now" is not earlier than any cursor, stamping it leaves every cursor at or after its old value |
| Poller.Accepted | src/github-api-service.ts:98-122 | a configured repository is kept exactly when its probe answered 200 |
| Poller.AcceptedAppend | src/github-api-service.ts:100-122 | validating two stretches of the configured list keeps each stretch's accepted repositories in place, so the valid list follows configured order |
| Poller.ValidateRepositories | src/github-api-service.ts:98-141 | the valid list is rebuilt from empty and holds exactly the accepted repositories; their issue and PR cursors are set to "now", and the commit cursors are untouched |
| Poller.StartPolling | src/github-api-service.ts:143-154 | after validation, a timer runs iff some repository is valid; the issue and pull-request cursors of every accepted repository are stamped `now` and no other cursor changes; commit cursors stay unset when they were unset |
| Poller.StopPolling | src/github-api-service.ts:185-191 | a running timer is cleared, and nothing else changes |
| Poller.StopPollingIdempotent | src/github-api-service.ts:185-191 | stopping twice is the same as stopping once |
| Printer.GetDevice | src/printer-service.ts:177-191 | fails with the configuration message exactly when the sub-config matching the type is missing, and otherwise opens the device that sub-config describes |
| Printer.IssueHeader | src/printer-service.ts:57-69 | opened, reopened, closed and assigned print "New", "Reopened", "Closed" and "Assigned GitHub Issue"; any other action is printed in parentheses after "GitHub Issue" |
| Printer.IssueHeaderRoundTrip | src/printer-service.ts:57-69 | the action can be read back from the printed issue header |
| Printer.IssueHeaderInjective | src/printer-service.ts:57-69 | different actions print different issue headers |
| Printer.PullRequestHeader | src/printer-service.ts:118-132 | opened and reopened print "New" and "Reopened GitHub Pull Request"; closed prints "Merged" or "Closed GitHub Pull Request" by the merged flag; any other action is printed in parentheses after "GitHub Pull Request" |
| Printer.PullRequestHeaderRoundTrip | src/printer-service.ts:118-132 | the action (and for `closed` the merged flag) can be read back from the printed header |
| Printer.PullRequestHeaderInjective | src/printer-service.ts:118-132 | different action and merged-flag combinations that matter print different headers |
| Printer.AssigneesText | src/printer-service.ts:71-74 | "None" for no assignees, the login itself for one, and for more the first login, ", " and the text of the rest |
| Printer.CommaSpaceListRoundTrip | src/printer-service.ts:73 | a list of comma-free, trimmed logins joined with ", " is split back to the same list |
| Printer.AssigneesRoundTrip | src/printer-service.ts:71-74 | the assignee list can be recovered from its printed text |
| Printer.StatusText | src/printer-service.ts:154 | "Merged" when merged, otherwise the state |
| Printer.BodyText | src/printer-service.ts:95 | an empty or missing body prints "No description", and any other body prints as itself |
| Printer.LinkQrCode | src/printer-service.ts:101-105 | the link's QR commands are 41 bytes longer than its UTF-8 encoding |
| Printer.LinkQrCodeDecodes | src/printer-service.ts:101-105 | the link's QR commands decode to those settings and the link's UTF-8 bytes |
| Printer.IssueReceiptIdentifies | src/printer-service.ts:52-110 | an issue receipt has 17 pieces; its header reads back as the action and its QR piece decodes to the issue link |
| Printer.PullRequestReceiptIdentifies | src/printer-service.ts:113-175 | a pull request receipt has 18 pieces; its header reads back as the action and, for a close, the merged flag, and its QR piece decodes to the link |
| Printer.PrintEvent | src/printer-service.ts:22-50 | true iff the device config is valid and the device opens; commit events print nothing; issue and PR events print `Printer.IssueReceipt` and `Printer.PullRequestReceipt` |
| Printer.PrintedReceiptIdentifiesEvent | src/printer-service.ts:22-175 | from a printed receipt, the header gives back the action, and for a pull request close the merged flag, and the QR code decodes to the link |
| App.OrFallback | src/index.ts:30-35 | `env \|\| default`: an unset or empty variable gives the default |
| App.ActionList | src/index.ts:29-37 | one entry per comma-separated piece of the variable, or of the default when it is unset or empty, each piece trimmed; so entries are trimmed and comma-free |
| App.ActionListRoundTrip | src/index.ts:29-37 | a comma-separated list of trimmed, comma-free actions is parsed back to the same list |
| App.DefaultIssueActionList | src/index.ts:30-32 | the default issue actions are `opened` and `reopened` |
| App.DefaultCommitActionList | src/index.ts:35-37 | the default commit actions are just `pushed` |
| App.WithSlash | src/index.ts:54 | keeps exactly the entries containing "/" |
| App.WithSlashAppend | src/index.ts:54 | filtering two stretches keeps each stretch's entries in place, so the filter keeps input order |
| App.RepositoryList | src/index.ts:51-54 | the configured repositories are exactly the trimmed split entries containing "/", none holding a comma |
| App.RepositoryListRoundTrip | src/index.ts:51-54 | a comma-separated list of trimmed "owner/name" entries is parsed back to the same list |
| App.RepositoryListUnset | src/index.ts:51-59 | an unset variable gives no repositories |
| App.ApiConfig | src/index.ts:51-73 | startup stops exactly when there are no repositories or no token; otherwise the repositories are the parsed list, the interval is the configured one, and the pull-request actions are the issue actions, each list parsed with its default |
| App.HandleEvent | src/index.ts:126-152 | an event is forwarded to the printer iff its verb is in its category's allow-list |
| App.VisitEventsPassGate | src/index.ts:128-138 | every event of one repository's visit passes the gate, given the same allow-lists |
| App.TickEventsPassGate | src/index.ts:128-138 | every event a tick emits passes the gate |
| App.BranchOfRef | src/index.ts:182 | the first "refs/heads/" is cut out of the ref and everything around it kept; a ref without one is unchanged |
| App.BranchOfHeadsRef | src/index.ts:182 | for "refs/heads/" followed by any name, even one holding "refs/heads/" again, the branch is that name |
| App.ApiHostReplaced | src/index.ts:191 | the API host right after the scheme becomes the web host, and the path is kept |
| App.CommitHtmlUrlOfApiUrl | src/index.ts:191 | `App.CommitHtmlUrl` (the two first-occurrence replaces) turns, for any owner and name that are single path segments other than `commits`, the API commit URL into the web commit URL with the same sha |
| App.CommitsOwnerRewritten | src/index.ts:191 | for an owner named `commits`, the owner segment is the one rewritten to `/commit/` and the real `/commits/` stays |
| App.PushCommitOf | src/index.ts:186-212 | the commit copies id (as sha too), message, url and distinct; its web URL is the rewritten url; both signatures keep name and e-mail and carry the push timestamp; the tree is empty; missing file lists become empty |
| App.PushEventOf | src/index.ts:214-225 | the event of a push commit is `pushed`, with its commit, on the push's branch, repository and sender |
| App.PushEvents | src/index.ts:185-227 | one `pushed` event per distinct commit, each built from a distinct commit, with the push's repository, branch and sender |
| App.PushEventsOf | src/index.ts:177-227 | the webhook's push events come from the payload's own commit list: one per distinct commit, each the event of such a commit, and every distinct commit's event present |
| App.PushEventsAppend | src/index.ts:185-227 | the events of a payload split at any point are the events of the two parts one after the other: payload order is kept |
| App.PushEventsSingle | src/index.ts:222-225 | a single commit yields its event exactly when it is distinct |
| App.AddIfAbsent | src/index.ts:336-340 | the name is present afterwards and is appended only if it was absent |
| App.AddIfAbsentKeepsDistinct | src/index.ts:336-340 | a list without duplicates stays without duplicates |
| App.AddIfAbsentIdempotent | src/index.ts:336-340 | adding twice is the same as adding once |
| App.MonitorRepository | src/index.ts:309-360 | a missing name is refused, and so is a repository whose probe fails; otherwise it is added to the configured list and cursors stay untouched |
| App.MonitoredRepositoryNotYetPolled | src/index.ts:337-340 | a newly monitored repository is not in the valid list until a later validation |
| App.DebugCommits | src/index.ts:363-388 | no report without an owner/name parameter; the commit cursor is reported as it was before any check; a forced check runs exactly for a configured repository, and otherwise the state is unchanged |
| App.DebugForceIgnoresValidList | src/index.ts:379-383 | whether the forced check runs depends on the configured list, not the valid list |
| App.DebugReportsCursorBeforeCheck | src/index.ts:375-383 | the reported cursor is the one read before the forced check |

## Left out

- HTTP calls, the `setInterval` timer and overlapping ticks: every answer is an input, and ticks run one after another. No single-flight guard exists, so overlap is out of scope.
- ISO-8601 parsing and `new Date()`: timestamps are integers and the clock is a `now` parameter, one per check, tick or validation.
- `toLocaleString` of the print time: the printed time is a parameter.
- `listUserRepositories` and `getUsername`: the remote listing and the base64/JSON token decoding take no part in the polling decisions.
- `verifySignature`: HMAC-SHA256 comes from a foreign crypto library.
- Express routes, dotenv, `parseInt` of the interval, `process.exit` and signal handlers: only the pure snippets inside them are modelled.
- Webhook route dispatch on the event header: the push mapping is modelled, while the route is I/O.
- The escpos device: opening and closing it and the styling and alignment calls. Only the printed text, the raw QR bytes and whether the device opened are modelled.
- The tick's catch-all: the consumer catches its own errors and the checks catch theirs, so nothing reaches it.
- The diagnostic endpoint's listing of recent commits: it is a separate fetch whose failure only changes the HTTP status.
- Labels, milestone and assignee fields other than the assignee logins: they are not printed.
- The monitoring endpoint's 500 answer: validation catches every error, so the code path is unreachable.
- A `null` assignee list is modelled as the empty list.
- App.RepositoryList: states which entries are kept; their order follows from `App.WithSlashAppend`, since the list is the slash filter of the trimmed pieces, and is not a clause of its own.
- Printer.IssueReceipt and Printer.PullRequestReceipt: only the header and the QR code are stated about the printed pieces; the title, creator, assignee, status, branch and body lines are built but carry no contract.
- Non-integer QR options: the options are integers. A fractional size such as 2.5 passes the range check in JavaScript and is truncated by `Buffer`, which the model does not represent.
- `src/test-qrcode.ts` and `src/types/escpos.d.ts` are a device script and a foreign declaration; they are not part of this model.
