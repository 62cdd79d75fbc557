/**
 * The scraper's session: logging in, opening an issue page, and downloading the attachments of
 * an issue into its attachment directory. Every reply the server gives is an input; the session
 * records the requests it sends.
 */
module Scraper {
  import opened Wrappers
  import opened Text
  import opened Http
  import opened Page
  import opened Links

  /** What the username step's reply must contain. */
  function PasswordPrompt(username: string): string
  {
    "Enter password for '" + username + "'"
  }

  /** What the password step's reply must contain. */
  const LoggedInMarker := "Assigned to Me (Unresolved)"

  /** What an issue page must contain. */
  const IssuePageMarker := "View Issue Details"

  /** Why a login fails: a `RequestException` (from the transport or `raise_for_status`) at step 1
      or 2, or a `ValueError` because the reply lacked the expected text. */
  datatype LoginError =
    | RequestFailed(step: nat)
    | UsernameRejected
    | LoginRejected

  /** The reply raises a `RequestException` (transport failure or an error status). */
  predicate Raises(r: Reply)
  {
    !Delivered(r)
  }

  /** Step 1: the username form. */
  function UsernameRequest(usernameUrl: string, username: string): Request
  {
    Post(usernameUrl, [("return", "index.php"), ("username", username)])
  }

  /** Step 2: the password form. */
  function PasswordRequest(passwordUrl: string, username: string, password: string): Request
  {
    Post(passwordUrl, [("return", "login.php"), ("username", username), ("password", password)])
  }

  /** The two-step login as a function of the two replies: the requests it sends, in order, and how it ends. */
  function LoginRun(usernameUrl: string, passwordUrl: string, username: string, password: string, reply1: Reply, reply2: Reply)
    : (r: (seq<Request>, Option<LoginError>))
    ensures |r.0| == 2 ==> r.0[1] == PasswordRequest(passwordUrl, username, password)
    ensures 1 <= |r.0| <= 2 && r.0[0] == UsernameRequest(usernameUrl, username)
  {
    var step1 := UsernameRequest(usernameUrl, username);
    if Raises(reply1) then ([step1], Some(RequestFailed(1)))
    else if !Contains(reply1.text, PasswordPrompt(username)) then ([step1], Some(UsernameRejected))
    else
      var sent := [step1, PasswordRequest(passwordUrl, username, password)];
      if Raises(reply2) then (sent, Some(RequestFailed(2)))
      else if !Contains(reply2.text, LoggedInMarker) then (sent, Some(LoginRejected))
      else (sent, None)
  }

  /** The URL of an issue page. */
  function IssueUrl(baseUrl: string, issue: string): string
  {
    baseUrl + "/view.php?id=" + issue
  }

  /** The decision of `access_issue_page` on the reply to its GET: the page text and its URL when
      the page is usable, `None` when the request raised or the page is not an issue view. */
  function IssuePage(baseUrl: string, issue: string, reply: Reply): (r: Option<(string, string)>)
    ensures r.Some? ==> Delivered(reply) && r.value.0 == reply.text && r.value.1 == IssueUrl(baseUrl, issue)
  {
    if Raises(reply) || !Contains(reply.text, IssuePageMarker) then None
    else Some((reply.text, IssueUrl(baseUrl, issue)))
  }

  /** The directory `reports/<folder>/attachements`: file name to content. */
  class AttachmentDir {
    var files: map<string, seq<Byte>>

    constructor (files: map<string, seq<Byte>>)
      ensures this.files == files
    {
      this.files := files;
    }
  }

  /** The GETs of the download loop, one per link in enumeration order. */
  function DownloadRequests(baseUrl: string, order: seq<Element>): (r: seq<Request>)
    requires forall i :: 0 <= i < |order| ==> "href" in order[i].attrs
    ensures |r| == |order|
  {
    if order == [] then [] else [Get(ResolveUrl(baseUrl, order[0].attrs["href"]))] + DownloadRequests(baseUrl, order[1..])
  }

  /** Reference definition of the download loop: for each link in turn, the GET it sends and, when
      the reply is delivered, the file it writes under the link's name in `names`. */
  function DownloadRun(baseUrl: string, files: map<string, seq<Byte>>, sent: seq<Request>, order: seq<Element>, replies: seq<Reply>, index: nat)
    : (map<string, seq<Byte>>, seq<Request>)
    requires |replies| == |order| && forall i :: 0 <= i < |order| ==> "href" in order[i].attrs
    decreases |order|
  {
    if order == [] then (files, sent)
    else
      var sent' := sent + [Get(ResolveUrl(baseUrl, order[0].attrs["href"]))];
      var files' := if Delivered(replies[0]) then files[AttachmentFilename(index, order[0].text) := replies[0].content] else files;
      DownloadRun(baseUrl, files', sent', order[1..], replies[1..], index + 1)
  }

  /** The file names of a batch: link `order[i]` is number `index + i`. */
  function BatchNames(order: seq<Element>, index: nat): (r: seq<string>)
    ensures |r| == |order|
    decreases |order|
  {
    if order == [] then [] else [AttachmentFilename(index, order[0].text)] + BatchNames(order[1..], index + 1)
  }

  /** Reference definition of the files the download loop writes: each file is saved under its name
      when its reply was delivered; a reply that raised is skipped. */
  function SavedFiles(files: map<string, seq<Byte>>, names: seq<string>, replies: seq<Reply>): map<string, seq<Byte>>
    requires |replies| == |names|
    decreases |names|
  {
    if names == [] then files
    else
      var files' := if Delivered(replies[0]) then files[names[0] := replies[0].content] else files;
      SavedFiles(files', names[1..], replies[1..])
  }

  /** `main`'s loop over the issue list: `completes[i]` says whether the body for issue `i` ends
      without raising. Any exception in the body (a rejected page, whose `None` cannot be unpacked, or
      a failure while scraping, extracting or writing the report) reaches the `except … raise` around
      the loop and ends the run, so the run handles the issues before the first one that raises. */
  function IssuesProcessed(completes: seq<bool>): (r: nat)
    ensures r <= |completes|
  {
    if completes == [] || !completes[0] then 0 else 1 + IssuesProcessed(completes[1..])
  }

  class MantisScraper {
    const baseUrl: string
    const usernameUrl: string
    const passwordUrl: string
    const username: string
    const password: string
    /** The requests the session has sent, in order. */
    var sent: seq<Request>

    /** `__init__`: the base URL is kept without its trailing slashes. */
    constructor (baseUrl: string, usernameUrl: string, passwordUrl: string, username: string, password: string)
      ensures this.baseUrl == TrimBase(baseUrl)
      ensures this.usernameUrl == usernameUrl && this.passwordUrl == passwordUrl
      ensures this.username == username && this.password == password
      ensures sent == []
    {
      this.baseUrl := TrimBase(baseUrl);
      this.usernameUrl := usernameUrl;
      this.passwordUrl := passwordUrl;
      this.username := username;
      this.password := password;
      sent := [];
    }

    /** `login`: the username step, then, only if its reply was delivered and holds the password
        prompt, the password step. `reply1` and `reply2` are the server's replies to the two steps. */
    method Login(reply1: Reply, reply2: Reply) returns (err: Option<LoginError>)
      modifies this
      ensures var (requests, outcome) := LoginRun(usernameUrl, passwordUrl, username, password, reply1, reply2);
              sent == old(sent) + requests && err == outcome
    {
      sent := sent + [UsernameRequest(usernameUrl, username)];
      if Raises(reply1) {
        return Some(RequestFailed(1));
      }
      if !Contains(reply1.text, PasswordPrompt(username)) {
        return Some(UsernameRejected);
      }
      sent := sent + [PasswordRequest(passwordUrl, username, password)];
      if Raises(reply2) {
        return Some(RequestFailed(2));
      }
      if !Contains(reply2.text, LoggedInMarker) {
        return Some(LoginRejected);
      }
      return None;
    }

    /** `access_issue_page(issue)`: one GET of the issue's view page. */
    method AccessIssuePage(issue: string, reply: Reply) returns (r: Option<(string, string)>)
      modifies this
      ensures sent == old(sent) + [Get(IssueUrl(baseUrl, issue))]
      ensures r == IssuePage(baseUrl, issue, reply)
    {
      var issueUrl := baseUrl + "/view.php?id=" + issue;
      sent := sent + [Get(issueUrl)];
      if Raises(reply) {
        return None;
      }
      if !Contains(reply.text, IssuePageMarker) {
        return None;
      }
      return Some((reply.text, issueUrl));
    }

    /** `download_multiple_type_files(report_path, file_links)`. The set is iterated in `order`, which
        lists each of its links once; `replies[i]` answers the GET for `order[i]`. A failed download
        is skipped; the loop goes on with the next link. */
    method DownloadMultipleTypeFiles(dir: AttachmentDir, links: set<Element>, order: seq<Element>, replies: seq<Reply>)
      requires forall e :: e in links <==> e in order
      requires forall i, j :: 0 <= i < j < |order| ==> order[i] != order[j]
      requires forall i :: 0 <= i < |order| ==> "href" in order[i].attrs
      requires |replies| == |order|
      modifies this, dir
      ensures (dir.files, sent) == DownloadRun(baseUrl, old(dir.files), old(sent), order, replies, 1)
    {
      EnumerationEmpty(links, order);
      if links == {} {
        return;
      }
      var i := 0;
      while i < |order|
        invariant 0 <= i <= |order|
        invariant DownloadRun(baseUrl, dir.files, sent, order[i..], replies[i..], i + 1) == DownloadRun(baseUrl, old(dir.files), old(sent), order, replies, 1)
      {
        var link := order[i];
        var relativeUrl := link.attrs["href"];
        var fileUrl := ResolveUrl(baseUrl, relativeUrl);
        var filename := AttachmentFilename(i + 1, link.text);
        DownloadRunStep(baseUrl, dir.files, sent, order, replies, i);
        sent := sent + [Get(fileUrl)];
        if Delivered(replies[i]) {
          dir.files := dir.files[filename := replies[i].content];
        }
        i := i + 1;
      }
      assert order[i..] == [];
    }
  }

  /* ---------- Properties ---------- */

  /** One step of the download loop: link `i` is fetched, and saved when its reply is delivered. */
  lemma DownloadRunStep(baseUrl: string, files: map<string, seq<Byte>>, sent: seq<Request>, order: seq<Element>, replies: seq<Reply>, i: nat)
    requires |replies| == |order| && forall i :: 0 <= i < |order| ==> "href" in order[i].attrs
    requires i < |order|
    ensures DownloadRun(baseUrl, files, sent, order[i..], replies[i..], i + 1)
         == DownloadRun(baseUrl, if Delivered(replies[i]) then files[AttachmentFilename(i + 1, order[i].text) := replies[i].content] else files,
                        sent + [Get(ResolveUrl(baseUrl, order[i].attrs["href"]))], order[i + 1..], replies[i + 1..], i + 2)
  {
    assert replies[i..][0] == replies[i] && replies[i..][1..] == replies[i + 1..];
    assert order[i..][0] == order[i] && order[i..][1..] == order[i + 1..];
  }

  /** An enumeration of a set is empty exactly when the set is. */
  lemma EnumerationEmpty<T>(links: set<T>, order: seq<T>)
    requires forall e :: e in links <==> e in order
    ensures links == {} <==> order == []
  {
    if order != [] {
      assert order[0] in links;
    }
  }

  /** Login succeeds exactly when the first reply is delivered and holds the password prompt for the
      user, and the second is delivered and holds the logged-in marker. */
  lemma LoginSucceedsIff(usernameUrl: string, passwordUrl: string, username: string, password: string, reply1: Reply, reply2: Reply)
    ensures LoginRun(usernameUrl, passwordUrl, username, password, reply1, reply2).1.None?
        <==> (&& Delivered(reply1) && Contains(reply1.text, PasswordPrompt(username))
              && Delivered(reply2) && Contains(reply2.text, LoggedInMarker))
  {
  }

  /** The password is sent exactly when step 1 passed: its reply delivered and holding the prompt. */
  lemma PasswordSentOnlyAfterPrompt(usernameUrl: string, passwordUrl: string, username: string, password: string, reply1: Reply, reply2: Reply)
    ensures var requests := LoginRun(usernameUrl, passwordUrl, username, password, reply1, reply2).0;
            (|requests| == 2) <==> (Delivered(reply1) && Contains(reply1.text, PasswordPrompt(username)))
  {
  }

  /** The password step ignores its reply's effect on what is sent: the requests depend on the first reply only. */
  lemma LoginRequestsIgnoreSecondReply(usernameUrl: string, passwordUrl: string, username: string, password: string, reply1: Reply, reply2: Reply, other: Reply)
    ensures LoginRun(usernameUrl, passwordUrl, username, password, reply1, reply2).0
         == LoginRun(usernameUrl, passwordUrl, username, password, reply1, other).0
  {
  }

  /** An issue page is accepted exactly when its reply is delivered and holds the issue-view marker. */
  lemma IssuePageAcceptedIff(baseUrl: string, issue: string, reply: Reply)
    ensures IssuePage(baseUrl, issue, reply).Some? <==> Delivered(reply) && Contains(reply.text, IssuePageMarker)
  {
  }

  /** A delivered page with `View Issue Details` anywhere in its text is accepted, whatever
      surrounds the marker. */
  lemma IssuePageAcceptsMarkedText(baseUrl: string, issue: string, status: int, before: string, after: string, content: seq<Byte>)
    requires !RaisesForStatus(status)
    ensures IssuePage(baseUrl, issue, Reply(status, before + IssuePageMarker + after, content))
         == Some((before + IssuePageMarker + after, IssueUrl(baseUrl, issue)))
  {
    ContainsInfix(before, IssuePageMarker, after);
  }

  /** The issue URL is the trimmed base followed by `/view.php?id=` and the issue, with one slash at the join. */
  lemma IssueUrlShape(rawBase: string, issue: string)
    ensures var base := TrimBase(rawBase);
            var url := IssueUrl(base, issue);
            && url[..|base|] == base
            && url[|base|..|base| + 13] == "/view.php?id="
            && url[|base| + 13..] == issue
            && (|base| == 0 || url[|base| - 1] != '/')
  {
    var base := TrimBase(rawBase);
    assert IssueUrl(base, issue) == base + ("/view.php?id=" + issue);
  }

  /** The run handles issues up to, not past, the first one whose body raises: every issue before
      it completed, and the one it stops at raised. */
  lemma {:induction false} IssuesProcessedStopsAtFirstFailure(completes: seq<bool>)
    ensures var n := IssuesProcessed(completes);
            && (forall i :: 0 <= i < n ==> completes[i])
            && (n < |completes| ==> !completes[n])
  {
    if completes != [] && completes[0] {
      IssuesProcessedStopsAtFirstFailure(completes[1..]);
      var n := IssuesProcessed(completes[1..]);
      assert forall i :: 1 <= i < 1 + n ==> completes[i] == completes[1..][i - 1];
    }
  }

  /** The run reaches the end of the list exactly when no issue's body raises. */
  lemma {:induction false} IssuesProcessedAllIff(completes: seq<bool>)
    ensures IssuesProcessed(completes) == |completes| <==> forall i :: 0 <= i < |completes| ==> completes[i]
  {
    IssuesProcessedStopsAtFirstFailure(completes);
    if completes != [] && completes[0] {
      IssuesProcessedAllIff(completes[1..]);
      assert forall i :: 1 <= i < |completes| ==> completes[i] == completes[1..][i - 1];
    }
  }

  /** Link `order[i]` of a batch is number `index + i`. */
  lemma {:induction false} BatchNamesAt(order: seq<Element>, index: nat, i: nat)
    requires i < |order|
    ensures BatchNames(order, index)[i] == AttachmentFilename(index + i, order[i].text)
    decreases i
  {
    if i > 0 {
      BatchNamesAt(order[1..], index + 1, i - 1);
      assert order[1..][i - 1] == order[i];
    }
  }

  /** Attachments at different positions of a batch never share a file name. */
  lemma BatchNamesDistinct(order: seq<Element>, index: nat)
    ensures forall i, j :: 0 <= i < j < |order| ==> BatchNames(order, index)[i] != BatchNames(order, index)[j]
  {
    var names := BatchNames(order, index);
    forall i, j | 0 <= i < j < |order|
      ensures names[i] != names[j]
    {
      BatchNamesAt(order, index, i);
      BatchNamesAt(order, index, j);
      if names[i] == names[j] {
        FilenameDeterminesIndex(index + i, order[i].text, index + j, order[j].text);
      }
    }
  }

  /** A file whose name is not in the batch keeps its content. */
  lemma {:induction false} SavedFilesOthersUnchanged(files: map<string, seq<Byte>>, names: seq<string>, replies: seq<Reply>, name: string)
    requires |replies| == |names| && name !in names
    ensures name in SavedFiles(files, names, replies) <==> name in files
    ensures name in files ==> SavedFiles(files, names, replies)[name] == files[name]
    decreases |names|
  {
    if names != [] {
      var files' := if Delivered(replies[0]) then files[names[0] := replies[0].content] else files;
      SavedFilesOthersUnchanged(files', names[1..], replies[1..], name);
    }
  }

  /** With distinct names, every delivered file ends up saved under its name with its own content:
      no later file of the batch overwrites it. */
  lemma {:induction false} SavedFilesDelivered(files: map<string, seq<Byte>>, names: seq<string>, replies: seq<Reply>, j: nat)
    requires |replies| == |names| && j < |names| && Delivered(replies[j])
    requires forall a, b :: 0 <= a < b < |names| ==> names[a] != names[b]
    ensures names[j] in SavedFiles(files, names, replies) && SavedFiles(files, names, replies)[names[j]] == replies[j].content
    decreases |names|
  {
    var files' := if Delivered(replies[0]) then files[names[0] := replies[0].content] else files;
    if j == 0 {
      assert names[0] !in names[1..];
      SavedFilesOthersUnchanged(files', names[1..], replies[1..], names[0]);
    } else {
      assert forall a, b :: 0 <= a < b < |names| - 1 ==> names[1..][a] == names[a + 1] && names[1..][b] == names[b + 1];
      SavedFilesDelivered(files', names[1..], replies[1..], j - 1);
    }
  }

  /** The loop adds exactly the names of delivered files to what was there. */
  lemma {:induction false} SavedFilesKeys(files: map<string, seq<Byte>>, names: seq<string>, replies: seq<Reply>)
    requires |replies| == |names|
    ensures SavedFiles(files, names, replies).Keys == files.Keys + set i | 0 <= i < |names| && Delivered(replies[i]) :: names[i]
    decreases |names|
  {
    if names != [] {
      var files' := if Delivered(replies[0]) then files[names[0] := replies[0].content] else files;
      SavedFilesKeys(files', names[1..], replies[1..]);
      var rest := set i | 0 <= i < |names| - 1 && Delivered(replies[1..][i]) :: names[1..][i];
      var all := set i | 0 <= i < |names| && Delivered(replies[i]) :: names[i];
      assert all == rest + (if Delivered(replies[0]) then {names[0]} else {}) by {
        forall x | x in all
          ensures x in rest + (if Delivered(replies[0]) then {names[0]} else {})
        {
          var i :| 0 <= i < |names| && Delivered(replies[i]) && x == names[i];
          if i > 0 {
            assert replies[1..][i - 1] == replies[i] && names[1..][i - 1] == names[i];
          }
        }
        forall x | x in rest
          ensures x in all
        {
          var i :| 0 <= i < |names| - 1 && Delivered(replies[1..][i]) && x == names[1..][i];
          assert replies[1..][i] == replies[i + 1] && names[1..][i] == names[i + 1];
        }
      }
    }
  }

  /** The loop sends one GET per link, in enumeration order, to the link's resolved URL. */
  lemma {:induction false} DownloadRunRequests(baseUrl: string, files: map<string, seq<Byte>>, sent: seq<Request>, order: seq<Element>, replies: seq<Reply>, index: nat)
    requires |replies| == |order| && forall i :: 0 <= i < |order| ==> "href" in order[i].attrs
    ensures DownloadRun(baseUrl, files, sent, order, replies, index).1 == sent + DownloadRequests(baseUrl, order)
    decreases |order|
  {
    if order != [] {
      var sent' := sent + [Get(ResolveUrl(baseUrl, order[0].attrs["href"]))];
      var files' := if Delivered(replies[0]) then files[AttachmentFilename(index, order[0].text) := replies[0].content] else files;
      DownloadRunRequests(baseUrl, files', sent', order[1..], replies[1..], index + 1);
      RequestsStep(baseUrl, sent, order);
    }
  }

  lemma RequestsStep(baseUrl: string, sent: seq<Request>, order: seq<Element>)
    requires order != [] && forall i :: 0 <= i < |order| ==> "href" in order[i].attrs
    ensures (sent + [Get(ResolveUrl(baseUrl, order[0].attrs["href"]))]) + DownloadRequests(baseUrl, order[1..])
         == sent + DownloadRequests(baseUrl, order)
  {
    var first := [Get(ResolveUrl(baseUrl, order[0].attrs["href"]))];
    assert DownloadRequests(baseUrl, order) == first + DownloadRequests(baseUrl, order[1..]);
  }

  /** The files the loop leaves are those of `SavedFiles` over the batch names. */
  lemma {:induction false} DownloadRunFiles(baseUrl: string, files: map<string, seq<Byte>>, sent: seq<Request>, order: seq<Element>, replies: seq<Reply>, index: nat)
    requires |replies| == |order| && forall i :: 0 <= i < |order| ==> "href" in order[i].attrs
    ensures DownloadRun(baseUrl, files, sent, order, replies, index).0 == SavedFiles(files, BatchNames(order, index), replies)
    decreases |order|
  {
    if order != [] {
      var sent' := sent + [Get(ResolveUrl(baseUrl, order[0].attrs["href"]))];
      var files' := if Delivered(replies[0]) then files[AttachmentFilename(index, order[0].text) := replies[0].content] else files;
      DownloadRunFiles(baseUrl, files', sent', order[1..], replies[1..], index + 1);
      assert BatchNames(order, index)[1..] == BatchNames(order[1..], index + 1);
    }
  }

  /** Downloading a batch: every delivered link's content is saved under its own numbered name. */
  lemma DownloadSavesEachDelivered(files: map<string, seq<Byte>>, order: seq<Element>, replies: seq<Reply>, j: nat)
    requires |replies| == |order| && j < |order| && Delivered(replies[j])
    ensures var name := AttachmentFilename(1 + j, order[j].text);
            var saved := SavedFiles(files, BatchNames(order, 1), replies);
            name in saved && saved[name] == replies[j].content
  {
    BatchNamesDistinct(order, 1);
    BatchNamesAt(order, 1, j);
    SavedFilesDelivered(files, BatchNames(order, 1), replies, j);
  }
}
