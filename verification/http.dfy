/** What one fetch of the vehicle-position endpoint yields, once the network call and
    the protobuf decoder are taken as given. */
module Http {
  import opened GtfsRealtime

  /** What reading and decoding the response body gives: the body read rejects, the
      decoder throws on malformed bytes, or a decoded feed message. */
  datatype Body = Unreadable | Undecodable | Decoded(message: FeedMessage)

  /** A fetch either rejects before any response arrives (a network failure), or
      yields a response whose `ok`, `url` and `statusText` mirror the fetch response
      and whose `body` is what reading and decoding it would give. */
  datatype Response =
    | Rejected
    | Received(ok: bool, url: string, statusText: string, body: Body)

  /** The ways one poll can fail before any state is touched. */
  datatype PollError =
    | RequestRejected
    | FetchFailed(message: string)
    | BodyRejected
    | DecodeFailed

  /** A poll gets as far as a decoded feed message. */
  predicate Succeeds(res: Response)
  {
    res.Received? && res.ok && res.body.Decoded?
  }

  /** The thrown text for a non-OK response: the URL, a colon, and the status text. */
  function FetchErrorMessage(res: Response): (m: string)
    requires res.Received?
    ensures |m| == |"Error fetching "| + |res.url| + |": "| + |res.statusText|
    ensures "Error fetching " <= m
    ensures m[|"Error fetching "|..|"Error fetching "| + |res.url|] == res.url
    ensures m[|"Error fetching "| + |res.url|..|m| - |res.statusText|] == ": "
    ensures m[|m| - |res.statusText|..] == res.statusText
  {
    "Error fetching " + res.url + ": " + res.statusText
  }

  /** The error a failed poll throws, in the order the fetch meets them: the request,
      the status check, the body read, the decoder. */
  function PollFailure(res: Response): (e: PollError)
    requires !Succeeds(res)
    ensures res.Rejected? <==> e == RequestRejected
    ensures res.Received? && !res.ok <==> e.FetchFailed?
    ensures e.FetchFailed? ==> e.message == FetchErrorMessage(res)
    ensures e == BodyRejected <==> res.Received? && res.ok && res.body.Unreadable?
    ensures e == DecodeFailed <==> res.Received? && res.ok && res.body.Undecodable?
  {
    match res
    case Rejected => RequestRejected
    case Received(ok, _, _, body) =>
      if !ok then FetchFailed(FetchErrorMessage(res))
      else if body.Unreadable? then BodyRejected
      else DecodeFailed
  }
}
