/**
 * `makeRequest` and `getMsgId`: the request for the "original message" view
 * and the identifier composed from its answer.
 */
module Fetcher {
  import opened Wrappers
  import opened DiagnosticUrl

  const StatusOk: int := 200
  const MsgIdPrefix: string := "rfc822msgid:"

  /** What `fetch(url)` settles to: a rejection (the request failed) or a
      response with its status and body text. */
  datatype Response = NetworkError | Response(status: int, body: string)

  /** A settled promise: a value, or a rejection passed on to the caller. */
  datatype Settled<T> = Resolved(value: T) | Rejected

  /** One run of `makeRequest`: whether `fetch` was called, and what the
      returned promise settles to. */
  datatype Request = Request(fetched: bool, outcome: Settled<string>)

  /** `makeRequest(url)`, with `response` standing for what the server would
      answer. No URL (the empty string) returns "" without fetching; status
      200 gives the body; 404 and every other status give "". */
  function MakeRequest(url: Option<Url>, response: Response): (r: Request)
    ensures r.fetched <==> url.Some?
    ensures r.outcome == Rejected <==> url.Some? && response.NetworkError?
    ensures r.outcome.Resolved? && r.outcome.value != "" ==>
      url.Some? && response == Response(StatusOk, r.outcome.value)
    ensures url.Some? && response.Response? && response.status == StatusOk ==>
      r.outcome == Resolved(response.body)
  {
    if url.None? then Request(false, Resolved(""))
    else match response
      case NetworkError => Request(true, Rejected)
      case Response(status, body) =>
        if status == StatusOk then Request(true, Resolved(body))
        else Request(true, Resolved(""))
  }

  /** A template literal's rendering of `msgId`: an absent value reads
      "undefined". */
  function Interpolate(v: Option<string>): string
  {
    match v
    case Some(s) => s
    case None => "undefined"
  }

  /** `getMsgId()`. `messageIdText` stands for parsing the body as HTML and
      reading `querySelector('.message_id')?.textContent`. */
  function GetMsgId(page: Page, response: Response, messageIdText: string -> Option<string>): Settled<string>
  {
    match MakeRequest(BuiltUrl(page), response).outcome
    case Rejected => Rejected
    case Resolved(htmlTxt) =>
      if htmlTxt == "" then Resolved("")
      else Resolved(MsgIdPrefix + Interpolate(messageIdText(htmlTxt)))
  }

  /** `getMsgId` gives a non-empty identifier exactly when a URL was built and
      answered with status 200 and a non-empty body; that identifier is
      `rfc822msgid:` followed by the extracted text (or "undefined"), so
      stripping the prefix gives the text back. It gives "" when no URL is
      built or the answer is not a 200 with a body, and it rejects only when
      the request itself fails. */
  lemma GetMsgIdSpec(page: Page, response: Response, messageIdText: string -> Option<string>)
    ensures GetMsgId(page, response, messageIdText) == Rejected <==>
      BuiltUrl(page).Some? && response.NetworkError?
    ensures GetMsgId(page, response, messageIdText) == Resolved("") <==>
      || BuiltUrl(page).None?
      || (response.Response? && (response.status != StatusOk || response.body == ""))
    ensures BuiltUrl(page).Some? && response.Response? && response.status == StatusOk && response.body != "" ==>
      var id := GetMsgId(page, response, messageIdText);
      && id.Resolved?
      && |id.value| >= |MsgIdPrefix|
      && id.value[..|MsgIdPrefix|] == MsgIdPrefix
      && id.value[|MsgIdPrefix|..] == Interpolate(messageIdText(response.body))
  {
    var r := MakeRequest(BuiltUrl(page), response);
    if r.outcome.Resolved? && r.outcome.value != "" {
      var id := MsgIdPrefix + Interpolate(messageIdText(r.outcome.value));
      assert id[..|MsgIdPrefix|] == MsgIdPrefix;
      assert id[|MsgIdPrefix|..] == Interpolate(messageIdText(r.outcome.value));
      assert id != "";
    }
  }

  /** A body whose `.message_id` element reads `ABC123` yields
      `rfc822msgid:ABC123`. */
  lemma GetMsgIdOfMessageIdElement(page: Page, body: string, messageIdText: string -> Option<string>)
    requires BuiltUrl(page).Some? && body != ""
    requires messageIdText(body) == Some("ABC123")
    ensures GetMsgId(page, Response(StatusOk, body), messageIdText) == Resolved("rfc822msgid:ABC123")
  {
    assert MsgIdPrefix + Interpolate(Some("ABC123")) == "rfc822msgid:ABC123";
  }
}
