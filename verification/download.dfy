/**
 * `Client::downloadTorrent` (src/Naji/T411/Client.php). The detail page is
 * fetched and searched for the download button; a button that leads to the
 * login page means the session has expired, so the client reconnects and
 * starts over; otherwise it fetches the button's link and writes the body to
 * `path/filename`, the file name coming from the `filename="…"` header.
 *
 * The button match (group 1 of the download-button pattern) and the
 * file-name match are inputs; the only pattern evaluated here is the
 * case-insensitive `users/login` test.
 */
module Download {
  import opened ByteStrings
  import opened Wrappers

  const LoginPath: Bytes := "users/login"

  /** `preg_match('/users\/login/i', $link)`. */
  predicate IsLoginLink(link: Bytes) {
    ContainsIgnoreCase(link, LoginPath)
  }

  /** The test matches `users/login` anywhere in the link, in any letter case. */
  lemma LoginLinkAnywhere(before: Bytes, spelled: Bytes, after: Bytes)
    requires EqualIgnoreCase(spelled, LoginPath)
    ensures IsLoginLink(before + spelled + after)
  {
    var s := before + spelled + after;
    assert s[|before|..|before| + |LoginPath|] == spelled;
    assert OccursIgnoreCaseAt(s, LoginPath, |before|);
  }

  /** What one call does after reading the detail page. */
  datatype Action =
    | Idle                                       // no download button: no request, no file
    | Reconnect(retryUrl: Bytes, retryPath: Bytes)  // `connect()`, then `downloadTorrent(retryUrl, retryPath)`
    | Fetch(fetchUrl: Bytes, saveDir: Bytes)     // GET `fetchUrl`, write its body under `saveDir`

  /**
   * The decision as the source writes it: the retry call passes only the URL,
   * so the path falls back to its default, the empty string.
   */
  function DecideAsWritten(baseUrl: Bytes, url: Bytes, path: Bytes, button: Option<Bytes>): (a: Action)
    ensures a.Idle? <==> button.None?
    ensures a.Reconnect? <==> button.Some? && IsLoginLink(button.value)
    ensures a.Reconnect? ==> a.retryUrl == url && a.retryPath == []
    ensures a.Fetch? ==> a.fetchUrl == baseUrl + button.value && a.saveDir == path
  {
    match button
    case None => Idle
    case Some(link) =>
      if IsLoginLink(link) then Reconnect(url, []) else Fetch(baseUrl + link, path)
  }

  /** The decision as intended: the retry keeps the caller's destination. */
  function Decide(baseUrl: Bytes, url: Bytes, path: Bytes, button: Option<Bytes>): (a: Action)
    ensures a.Idle? <==> button.None?
    ensures a.Reconnect? <==> button.Some? && IsLoginLink(button.value)
    ensures a.Reconnect? ==> a.retryUrl == url && a.retryPath == path
    ensures a.Fetch? ==> a.fetchUrl == baseUrl + button.value && a.saveDir == path
  {
    match button
    case None => Idle
    case Some(link) =>
      if IsLoginLink(link) then Reconnect(url, path) else Fetch(baseUrl + link, path)
  }

  /** The only case where the two decisions differ is a retry from a non-empty path. */
  lemma DecisionsDifferOnlyOnRetry(baseUrl: Bytes, url: Bytes, path: Bytes, button: Option<Bytes>)
    ensures DecideAsWritten(baseUrl, url, path, button) != Decide(baseUrl, url, path, button)
      <==> button.Some? && IsLoginLink(button.value) && path != []
  {
  }

  /** The file written: its name and the bytes written into it. */
  datatype Write = Write(file: Bytes, contents: Bytes)

  /**
   * `fopen($path.'/'.$filename[1], 'w+')` followed by `fwrite` of the body.
   * A missing file-name match reads as null, which concatenates as nothing.
   */
  function SaveTo(saveDir: Bytes, filename: Option<Bytes>, body: Bytes): (w: Write)
    ensures |w.file| > |saveDir| && w.file[..|saveDir|] == saveDir && w.file[|saveDir|] == '/'
    ensures w.file[|saveDir| + 1..] == filename.GetOr([])
    ensures w.contents == body
  {
    Write(saveDir + ['/'] + filename.GetOr([]), body)
  }

  /** How a download ends, given the detail pages the server serves one after another. */
  datatype Outcome =
    | NoButton(reconnects: nat)
    | Saved(fetchUrl: Bytes, write: Write, reconnects: nat)
    | PagesExhausted(reconnects: nat)

  /**
   * True when every attempt before `n` saw a login link and the one at `n`
   * (if any) did not: the shape of a run that reconnected `n` times.
   */
  predicate ReconnectedBefore(buttons: seq<Option<Bytes>>, n: nat) {
    n <= |buttons| && forall j :: 0 <= j < n ==> buttons[j].Some? && IsLoginLink(buttons[j].value)
  }

  /**
   * The source's recursion, driven by the pages the server returns: attempt
   * `i` sees `buttons[i]`; `filename` and `body` describe the response to the
   * final fetch. The source's recursion has no bound; here it ends when the
   * given pages do.
   */
  function RunAsWritten(baseUrl: Bytes, url: Bytes, path: Bytes, buttons: seq<Option<Bytes>>,
                        filename: Option<Bytes>, body: Bytes): (o: Outcome)
    ensures ReconnectedBefore(buttons, o.reconnects)
    ensures o.PagesExhausted? <==> o.reconnects == |buttons|
    ensures o.NoButton? ==> buttons[o.reconnects].None?
    ensures o.Saved? ==> buttons[o.reconnects].Some? && !IsLoginLink(buttons[o.reconnects].value)
    ensures o.Saved? ==> o.fetchUrl == baseUrl + buttons[o.reconnects].value
    ensures o.Saved? ==> o.write == SaveTo(if o.reconnects == 0 then path else [], filename, body)
    decreases |buttons|
  {
    if |buttons| == 0 then PagesExhausted(0)
    else
      match DecideAsWritten(baseUrl, url, path, buttons[0])
      case Idle => NoButton(0)
      case Fetch(fetchUrl, saveDir) => Saved(fetchUrl, SaveTo(saveDir, filename, body), 0)
      case Reconnect(retryUrl, retryPath) =>
        var o := RunAsWritten(baseUrl, retryUrl, retryPath, buttons[1..], filename, body);
        Shift(o)
  }

  /** The same run with the corrected decision: whatever happens, the file lands under `path`. */
  function Run(baseUrl: Bytes, url: Bytes, path: Bytes, buttons: seq<Option<Bytes>>,
               filename: Option<Bytes>, body: Bytes): (o: Outcome)
    ensures ReconnectedBefore(buttons, o.reconnects)
    ensures o.PagesExhausted? <==> o.reconnects == |buttons|
    ensures o.NoButton? ==> buttons[o.reconnects].None?
    ensures o.Saved? ==> buttons[o.reconnects].Some? && !IsLoginLink(buttons[o.reconnects].value)
    ensures o.Saved? ==> o.fetchUrl == baseUrl + buttons[o.reconnects].value
    ensures o.Saved? ==> o.write == SaveTo(path, filename, body)
    decreases |buttons|
  {
    if |buttons| == 0 then PagesExhausted(0)
    else
      match Decide(baseUrl, url, path, buttons[0])
      case Idle => NoButton(0)
      case Fetch(fetchUrl, saveDir) => Saved(fetchUrl, SaveTo(saveDir, filename, body), 0)
      case Reconnect(retryUrl, retryPath) =>
        var o := Run(baseUrl, retryUrl, retryPath, buttons[1..], filename, body);
        Shift(o)
  }

  /** One more reconnect in front of an outcome. */
  function Shift(o: Outcome): Outcome {
    match o
    case NoButton(n) => NoButton(n + 1)
    case Saved(u, w, n) => Saved(u, w, n + 1)
    case PagesExhausted(n) => PagesExhausted(n + 1)
  }

  /**
   * One expired session followed by a real button: both versions reconnect
   * once and fetch the same link, but only the corrected one saves under the
   * caller's path; the source saves under the empty path.
   */
  lemma RetryOnce(baseUrl: Bytes, url: Bytes, path: Bytes, login: Bytes, link: Bytes,
                  filename: Option<Bytes>, body: Bytes)
    requires IsLoginLink(login) && !IsLoginLink(link)
    ensures RunAsWritten(baseUrl, url, path, [Some(login), Some(link)], filename, body)
      == Saved(baseUrl + link, SaveTo([], filename, body), 1)
    ensures Run(baseUrl, url, path, [Some(login), Some(link)], filename, body)
      == Saved(baseUrl + link, SaveTo(path, filename, body), 1)
    ensures path != [] ==> SaveTo([], filename, body).file != SaveTo(path, filename, body).file
  {
    var b := [Some(login), Some(link)];
    assert b[1..] == [Some(link)];
    if path != [] {
      var lost := SaveTo([], filename, body).file;
      var kept := SaveTo(path, filename, body).file;
      assert |kept| == |lost| + |path|;
    }
  }
}
