/** The receipt printer: which device a configuration selects, the text of
    an issue or pull request receipt, the QR code with the link, and the
    dispatch on the kind of event. The receipt is a list of pieces in print
    order; styling calls (font, alignment, size, cut) carry no content and are
    not part of it. */
module Printer {
  import opened Wrappers
  import opened Bytes
  import opened Text
  import opened GitHubTypes
  import EpsonQRCode

  datatype PrinterKind = Usb | Network

  datatype UsbIds = UsbIds(vendorId: int, productId: int)

  datatype NetworkAddress = NetworkAddress(host: string, port: int)

  /** `PrinterConfig`: the kind and the sub-configuration of each kind, if
      given. */
  datatype PrinterConfig = PrinterConfig(kind: PrinterKind, usb: Option<UsbIds>, network: Option<NetworkAddress>)

  /** The adapter `getDevice` builds. */
  datatype Device = UsbDevice(vendorId: int, productId: int) | NetworkDevice(host: string, port: int)

  const InvalidConfiguration: string := "Invalid printer configuration"

  /** `getDevice`: the adapter of the configured kind, built from that kind's
      sub-configuration; the configuration is invalid when it is missing. The
      other kind's sub-configuration is never looked at. */
  function GetDevice(config: PrinterConfig): (r: Result<Device, string>)
    ensures r.Success? <==> (config.kind == Usb && config.usb.Some?) || (config.kind == Network && config.network.Some?)
    ensures r.Failure? ==> r.error == InvalidConfiguration
    ensures r.Success? ==> (r.value.UsbDevice? <==> config.kind == Usb)
    ensures r.Success? && r.value.UsbDevice? ==> UsbIds(r.value.vendorId, r.value.productId) == config.usb.value
    ensures r.Success? && r.value.NetworkDevice? ==> NetworkAddress(r.value.host, r.value.port) == config.network.value
  {
    if config.kind == Usb && config.usb.Some? then Success(UsbDevice(config.usb.value.vendorId, config.usb.value.productId))
    else if config.kind == Network && config.network.Some? then Success(NetworkDevice(config.network.value.host, config.network.value.port))
    else Failure(InvalidConfiguration)
  }

  /** `prefix + " (" + x + ")"`, the header shape for actions without a header
      of their own. */
  function Parenthesised(prefix: string, x: string): string {
    prefix + " (" + x + ")"
  }

  /** Reads `x` back out of `Parenthesised(prefix, x)`. */
  function Unparenthesise(prefix: string, h: string): Option<string> {
    var k := |prefix| + 2;
    if |h| >= k + 1 && h[..k] == prefix + " (" && h[|h| - 1] == ')' then Some(h[k..|h| - 1]) else None
  }

  lemma UnparenthesiseInverts(prefix: string, x: string)
    ensures Unparenthesise(prefix, Parenthesised(prefix, x)) == Some(x)
  {
    var h := Parenthesised(prefix, x);
    var k := |prefix| + 2;
    assert h[..k] == prefix + " (";
    assert h[k..|h| - 1] == x;
  }

  const IssueNoun: string := "GitHub Issue"
  const PullRequestNoun: string := "GitHub Pull Request"

  /** The bold header of an issue receipt. */
  function IssueHeader(action: string): (h: string)
    ensures action == "opened" ==> h == "New GitHub Issue"
    ensures action == "reopened" ==> h == "Reopened GitHub Issue"
    ensures action == "closed" ==> h == "Closed GitHub Issue"
    ensures action == "assigned" ==> h == "Assigned GitHub Issue"
    ensures action !in {"opened", "reopened", "closed", "assigned"} ==> h == Parenthesised(IssueNoun, action)
  {
    if action == "opened" then "New GitHub Issue"
    else if action == "reopened" then "Reopened GitHub Issue"
    else if action == "closed" then "Closed GitHub Issue"
    else if action == "assigned" then "Assigned GitHub Issue"
    else Parenthesised(IssueNoun, action)
  }

  /** The action an issue header stands for. */
  function IssueActionOfHeader(h: string): Option<string> {
    if h == "New GitHub Issue" then Some("opened")
    else if h == "Reopened GitHub Issue" then Some("reopened")
    else if h == "Closed GitHub Issue" then Some("closed")
    else if h == "Assigned GitHub Issue" then Some("assigned")
    else Unparenthesise(IssueNoun, h)
  }

  /** The header names the action: reading it back gives the action, so
      different actions never share a header. */
  lemma IssueHeaderRoundTrip(action: string)
    ensures IssueActionOfHeader(IssueHeader(action)) == Some(action)
  {
    if action !in {"opened", "reopened", "closed", "assigned"} {
      var h := Parenthesised(IssueNoun, action);
      assert h[0] == 'G';
      UnparenthesiseInverts(IssueNoun, action);
    }
  }

  lemma IssueHeaderInjective(a: string, b: string)
    requires IssueHeader(a) == IssueHeader(b)
    ensures a == b
  {
    IssueHeaderRoundTrip(a);
    IssueHeaderRoundTrip(b);
  }

  /** The bold header of a pull request receipt; only a close looks at the
      merged flag. */
  function PullRequestHeader(action: string, merged: bool): (h: string)
    ensures action == "opened" ==> h == "New GitHub Pull Request"
    ensures action == "reopened" ==> h == "Reopened GitHub Pull Request"
    ensures action == "closed" && merged ==> h == "Merged GitHub Pull Request"
    ensures action == "closed" && !merged ==> h == "Closed GitHub Pull Request"
    ensures action !in {"opened", "reopened", "closed"} ==> h == Parenthesised(PullRequestNoun, action)
  {
    if action == "opened" then "New GitHub Pull Request"
    else if action == "reopened" then "Reopened GitHub Pull Request"
    else if action == "closed" then (if merged then "Merged GitHub Pull Request" else "Closed GitHub Pull Request")
    else Parenthesised(PullRequestNoun, action)
  }

  /** The action and, for a close, whether it was a merge. */
  datatype HeaderReading = HeaderReading(action: string, merged: Option<bool>)

  function PullRequestActionOfHeader(h: string): Option<HeaderReading> {
    if h == "New GitHub Pull Request" then Some(HeaderReading("opened", None))
    else if h == "Reopened GitHub Pull Request" then Some(HeaderReading("reopened", None))
    else if h == "Merged GitHub Pull Request" then Some(HeaderReading("closed", Some(true)))
    else if h == "Closed GitHub Pull Request" then Some(HeaderReading("closed", Some(false)))
    else
      match Unparenthesise(PullRequestNoun, h)
      case Some(a) => Some(HeaderReading(a, None))
      case None => None
  }

  /** The header gives back the action, and for a close the merged flag; for
      any other action the flag leaves no trace. */
  lemma PullRequestHeaderRoundTrip(action: string, merged: bool)
    ensures PullRequestActionOfHeader(PullRequestHeader(action, merged))
            == Some(HeaderReading(action, if action == "closed" then Some(merged) else None))
  {
    if action !in {"opened", "reopened", "closed"} {
      var h := Parenthesised(PullRequestNoun, action);
      assert h[0] == 'G' && h[7] == 'P';
      UnparenthesiseInverts(PullRequestNoun, action);
    }
  }

  lemma PullRequestHeaderInjective(a: string, m: bool, b: string, n: bool)
    requires PullRequestHeader(a, m) == PullRequestHeader(b, n)
    ensures a == b
    ensures a == "closed" ==> m == n
  {
    PullRequestHeaderRoundTrip(a, m);
    PullRequestHeaderRoundTrip(b, n);
  }

  function Logins(users: seq<User>): (r: seq<string>)
    ensures |r| == |users| && forall i :: 0 <= i < |users| ==> r[i] == users[i].login
  {
    seq(|users|, i requires 0 <= i < |users| => users[i].login)
  }

  /** The "Assigned to" text: the logins joined with ", ", or "None". */
  function AssigneesText(assignees: seq<User>): (t: string)
    ensures |assignees| == 0 ==> t == "None"
    ensures |assignees| == 1 ==> t == assignees[0].login
    ensures |assignees| >= 2 ==> t == assignees[0].login + ", " + AssigneesText(assignees[1..])
  {
    if |assignees| > 0 then
      assert |assignees| >= 2 ==> Logins(assignees)[1..] == Logins(assignees[1..]);
      Join(Logins(assignees), ", ")
    else "None"
  }

  /** Reads an "Assigned to" text back into logins. */
  function AssigneesOfText(t: string): seq<string> {
    if t == "None" then [] else SplitTrim(t, ',')
  }

  /** The pieces of `xs.join(", ")` seen as `join(",")`: every piece but the
      first gains the space. */
  function Padded(xs: seq<string>): (r: seq<string>)
    ensures |r| == |xs|
  {
    seq(|xs|, i requires 0 <= i < |xs| => if i == 0 then xs[0] else " " + xs[i])
  }

  lemma {:induction false} JoinCommaSpace(xs: seq<string>)
    requires |xs| >= 1
    ensures Join(xs, ", ") == Join(Padded(xs), ",")
    decreases |xs|
  {
    if |xs| >= 2 {
      var tail := xs[1..];
      JoinCommaSpace(tail);
      var p := Padded(xs);
      var q := Padded(tail);
      assert p[1..] == [[' '] + q[0]] + q[1..];
      JoinConsHead(' ', q, ",");
    }
  }

  /** Each padded piece is comma-free and trims back to its entry. */
  lemma PaddedPieces(xs: seq<string>, i: nat)
    requires i < |xs| && ',' !in xs[i] && HasTrimmedEdges(xs[i])
    ensures ',' !in Padded(xs)[i] && Trim(Padded(xs)[i]) == xs[i]
  {
    if i == 0 {
      TrimKeepsTrimmed(xs[0]);
    } else {
      TrimDropsPadding(" ", xs[i], "");
    }
  }

  /** Parsing `xs.join(", ")` as a comma list gives back `xs` when every
      entry is free of commas and of edge whitespace. */
  lemma CommaSpaceListRoundTrip(xs: seq<string>)
    requires |xs| >= 1
    requires forall i :: 0 <= i < |xs| ==> ',' !in xs[i] && HasTrimmedEdges(xs[i])
    ensures SplitTrim(Join(xs, ", "), ',') == xs
  {
    JoinCommaSpace(xs);
    var p := Padded(xs);
    forall i | 0 <= i < |p| ensures ',' !in p[i] && Trim(p[i]) == xs[i] {
      PaddedPieces(xs, i);
    }
    SplitJoin(p, ',');
  }

  /** A comma-space join of logins reads "None" only when it is the single
      login "None". */
  lemma JoinedLoginsNotNone(xs: seq<string>)
    requires |xs| > 0 && xs != ["None"]
    requires forall i :: 0 <= i < |xs| ==> ',' !in xs[i]
    ensures Join(xs, ", ") != "None"
  {
    var t := Join(xs, ", ");
    if |xs| > 1 {
      assert t[|xs[0]|] == ',';
    } else {
      assert xs == [xs[0]];
    }
  }

  /** The printed assignee text gives back the logins, in order, when every
      login is free of commas and of edge whitespace (GitHub logins are) and
      the list is not the single login "None". */
  lemma AssigneesRoundTrip(assignees: seq<User>)
    requires forall i :: 0 <= i < |assignees| ==> ',' !in assignees[i].login && HasTrimmedEdges(assignees[i].login)
    requires Logins(assignees) != ["None"]
    ensures AssigneesOfText(AssigneesText(assignees)) == Logins(assignees)
  {
    var xs := Logins(assignees);
    if |xs| > 0 {
      var t := Join(xs, ", ");
      assert AssigneesText(assignees) == t;
      CommaSpaceListRoundTrip(xs);
      JoinedLoginsNotNone(xs);
    }
  }

  /** The status line of a pull request: "Merged" when merged, else the state. */
  function StatusText(pr: PullRequest): (t: string)
    ensures pr.merged ==> t == "Merged"
    ensures !pr.merged ==> t == pr.issue.state
  {
    if pr.merged then "Merged" else pr.issue.state
  }

  const NoDescription: string := "No description"

  /** `body || 'No description'`: a missing or empty body prints the
      placeholder, so the description is never blank. */
  function BodyText(body: Option<string>): (t: string)
    ensures t != ""
    ensures body.Some? && body.value != "" ==> t == body.value
    ensures body.None? || body.value == "" ==> t == NoDescription
  {
    if body.Some? && body.value != "" then body.value else NoDescription
  }

  /** One piece of a receipt: a line of text or raw command bytes. */
  datatype Piece = Line(text: string) | Raw(bytes: seq<Byte>)

  const Rule: string := "------------------------"

  /** The QR settings the receipts use: Model 2, size 5, level M. */
  const ReceiptQrOptions: EpsonQRCode.QrOptions :=
    EpsonQRCode.QrOptions(Some(EpsonQRCode.Model2), Some(5), Some(EpsonQRCode.LevelM))

  /** The QR commands for a link, over its UTF-8 bytes. The size is fixed at
      5, so generation never fails. */
  function LinkQrCode(url: string): (b: seq<Byte>)
    ensures |b| == 41 + |Utf8Encode(url)|
  {
    var g := EpsonQRCode.Generate(Utf8Encode(url), ReceiptQrOptions);
    if g.Success? then g.value else assert false; []
  }

  /** The QR code on a receipt decodes to the link's bytes with the receipt
      settings, as long as the length field does not overflow. */
  lemma LinkQrCodeDecodes(url: string)
    requires |Utf8Encode(url)| + 3 < 0x1_0000
    ensures EpsonQRCode.Decode(LinkQrCode(url))
            == Some(EpsonQRCode.QrCommands(EpsonQRCode.Model2, 5, EpsonQRCode.LevelM, Utf8Encode(url)))
  {
    EpsonQRCode.GenerateDecodes(Utf8Encode(url), ReceiptQrOptions);
  }

  /** The receipt of an issue event. */
  function IssueReceipt(action: string, issue: Issue, repository: Repository, printedAt: string): (r: seq<Piece>)
  {
    [ Line(IssueHeader(action)),
      Line(Rule),
      Line("Repository: " + repository.fullName),
      Line("Issue #" + NatToDecimal(issue.number) + ": " + issue.title),
      Line("Created by: " + issue.user.login),
      Line("Assigned to: " + AssigneesText(issue.assignees)),
      Line("Status: " + issue.state),
      Line("\n"),
      Line("Description:"),
      Line(Rule),
      Line(BodyText(issue.body)),
      Line(Rule),
      Line("URL: " + issue.htmlUrl),
      Line("\n"),
      Raw(LinkQrCode(issue.htmlUrl)),
      Line("\n"),
      Line("Printed: " + printedAt) ]
  }

  /** The receipt of a pull request event; it adds the branch line. */
  function PullRequestReceipt(action: string, pr: PullRequest, repository: Repository, printedAt: string): (r: seq<Piece>)
  {
    [ Line(PullRequestHeader(action, pr.merged)),
      Line(Rule),
      Line("Repository: " + repository.fullName),
      Line("PR #" + NatToDecimal(pr.issue.number) + ": " + pr.issue.title),
      Line("Created by: " + pr.issue.user.login),
      Line("Assigned to: " + AssigneesText(pr.issue.assignees)),
      Line("Status: " + StatusText(pr)),
      Line("Branch: " + pr.head.ref + " \U{2192} " + pr.base.ref),
      Line("\n"),
      Line("Description:"),
      Line(Rule),
      Line(BodyText(pr.issue.body)),
      Line(Rule),
      Line("URL: " + pr.issue.htmlUrl),
      Line("\n"),
      Raw(LinkQrCode(pr.issue.htmlUrl)),
      Line("\n"),
      Line("Printed: " + printedAt) ]
  }

  /** What a print attempt resolves to, and what reached the paper. */
  datatype PrintOutcome = PrintOutcome(ok: bool, receipt: seq<Piece>)

  /** `printEvent`: an invalid configuration or a device that fails to open
      resolves to false with nothing printed; otherwise issue and pull
      request events are printed and the call resolves to true, also for a
      commit event, for which nothing is printed. `deviceOpens` is the
      outcome of opening the device and `printedAt` the formatted clock. */
  function PrintEvent(config: PrinterConfig, event: Event, deviceOpens: bool, printedAt: string): (r: PrintOutcome)
    ensures r.ok <==> GetDevice(config).Success? && deviceOpens
    ensures !r.ok || event.CommitEvent? ==> r.receipt == []
    ensures r.ok && event.IssueEvent? ==> r.receipt == IssueReceipt(event.action, event.issue, event.repository, printedAt)
    ensures r.ok && event.PullRequestEvent? ==> r.receipt == PullRequestReceipt(event.action, event.pullRequest, event.repository, printedAt)
  {
    if GetDevice(config).Failure? || !deviceOpens then PrintOutcome(false, [])
    else
      match event
      case IssueEvent(action, issue, repository, _) => PrintOutcome(true, IssueReceipt(action, issue, repository, printedAt))
      case PullRequestEvent(action, pr, repository, _) => PrintOutcome(true, PullRequestReceipt(action, pr, repository, printedAt))
      case CommitEvent(_, _, _, _, _) => PrintOutcome(true, [])
  }

  /** An issue receipt opens with a header naming the action, and its QR
      code decodes to the issue's link. */
  lemma IssueReceiptIdentifies(action: string, issue: Issue, repository: Repository, printedAt: string)
    requires |Utf8Encode(issue.htmlUrl)| + 3 < 0x1_0000
    ensures var r := IssueReceipt(action, issue, repository, printedAt);
            && |r| == 17 && r[0].Line? && IssueActionOfHeader(r[0].text) == Some(action)
            && r[14].Raw?
            && EpsonQRCode.Decode(r[14].bytes)
               == Some(EpsonQRCode.QrCommands(EpsonQRCode.Model2, 5, EpsonQRCode.LevelM, Utf8Encode(issue.htmlUrl)))
  {
    IssueHeaderRoundTrip(action);
    LinkQrCodeDecodes(issue.htmlUrl);
  }

  /** A pull request receipt opens with a header naming the action (and for
      a close, whether it was a merge), and its QR code decodes to the link. */
  lemma PullRequestReceiptIdentifies(action: string, pr: PullRequest, repository: Repository, printedAt: string)
    requires |Utf8Encode(pr.issue.htmlUrl)| + 3 < 0x1_0000
    ensures var r := PullRequestReceipt(action, pr, repository, printedAt);
            && |r| == 18 && r[0].Line?
            && PullRequestActionOfHeader(r[0].text)
               == Some(HeaderReading(action, if action == "closed" then Some(pr.merged) else None))
            && r[15].Raw?
            && EpsonQRCode.Decode(r[15].bytes)
               == Some(EpsonQRCode.QrCommands(EpsonQRCode.Model2, 5, EpsonQRCode.LevelM, Utf8Encode(pr.issue.htmlUrl)))
  {
    PullRequestHeaderRoundTrip(action, pr.merged);
    LinkQrCodeDecodes(pr.issue.htmlUrl);
  }

  /** A printed receipt identifies its event: the header gives back the action
      (and for a pull request close, whether it was merged) and the QR code
      decodes to the link. */
  lemma PrintedReceiptIdentifiesEvent(config: PrinterConfig, event: Event, printedAt: string)
    requires GetDevice(config).Success?
    requires !event.CommitEvent?
    requires event.IssueEvent? ==> |Utf8Encode(event.issue.htmlUrl)| + 3 < 0x1_0000
    requires event.PullRequestEvent? ==> |Utf8Encode(event.pullRequest.issue.htmlUrl)| + 3 < 0x1_0000
    ensures var r := PrintEvent(config, event, true, printedAt);
            && r.ok && |r.receipt| >= 17 && r.receipt[0].Line?
            && (event.IssueEvent? ==>
                  && IssueActionOfHeader(r.receipt[0].text) == Some(event.action)
                  && r.receipt[14].Raw?
                  && EpsonQRCode.Decode(r.receipt[14].bytes)
                     == Some(EpsonQRCode.QrCommands(EpsonQRCode.Model2, 5, EpsonQRCode.LevelM, Utf8Encode(event.issue.htmlUrl))))
            && (event.PullRequestEvent? ==>
                  && PullRequestActionOfHeader(r.receipt[0].text)
                     == Some(HeaderReading(event.action, if event.action == "closed" then Some(event.pullRequest.merged) else None))
                  && r.receipt[15].Raw?
                  && EpsonQRCode.Decode(r.receipt[15].bytes)
                     == Some(EpsonQRCode.QrCommands(EpsonQRCode.Model2, 5, EpsonQRCode.LevelM, Utf8Encode(event.pullRequest.issue.htmlUrl))))
  {
    match event
    case IssueEvent(action, issue, repository, _) =>
      IssueReceiptIdentifies(action, issue, repository, printedAt);
    case PullRequestEvent(action, pr, repository, _) =>
      PullRequestReceiptIdentifies(action, pr, repository, printedAt);
  }
}
