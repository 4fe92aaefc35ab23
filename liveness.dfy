/** The liveness probe: whether the pinning service still lists a content
    identifier as pinned. The HTTP exchange itself is an input; what is
    modelled is how the client decides from its outcome. */
module Liveness {
  import opened Wrappers

  /** What `res.json()` gives for a pinList answer: a body that does not parse
      (the call rejects), or an object whose `count` field may be absent. */
  datatype PinListBody = Unparsable | PinList(count: Option<int>)

  /** The outcome of the request: `fetch` rejected (network failure), or an
      HTTP response with its `ok` flag and its body. */
  datatype PinListResponse = NetworkFailure | HttpResponse(ok: bool, body: PinListBody)

  /** A JavaScript-truthy credential: present and not the empty string. */
  predicate HasCredential(token: Option<string>)
  {
    token.Some? && token.value != ""
  }

  /** `isCIDAlive`: fails closed on a missing credential, a failed request, a
      non-OK status or an unreadable body, and otherwise reports `count > 0`. */
  function IsCidAlive(token: Option<string>, response: PinListResponse): (alive: bool)
    ensures !HasCredential(token) ==> !alive
    ensures response.NetworkFailure? ==> !alive
    ensures response.HttpResponse? && !response.ok ==> !alive
    ensures response.HttpResponse? && response.body.Unparsable? ==> !alive
    ensures alive ==> response.HttpResponse? && response.body.PinList? && response.body.count.Some?
    ensures HasCredential(token) && response.HttpResponse? && response.ok && response.body.PinList?
              && response.body.count.Some?
            ==> (alive <==> response.body.count.value > 0)
  {
    if !HasCredential(token) then false
    else match response
      case NetworkFailure => false
      case HttpResponse(ok, body) =>
        if !ok then false
        else match body
          case Unparsable => false
          case PinList(count) => count.Some? && count.value > 0
  }

  /** The probe verdict of each record, in ledger order. */
  function ProbeResults(token: Option<string>, responses: seq<PinListResponse>): (alive: seq<bool>)
    ensures |alive| == |responses|
    ensures forall i :: 0 <= i < |responses| ==> alive[i] == IsCidAlive(token, responses[i])
  {
    seq(|responses|, i requires 0 <= i < |responses| => IsCidAlive(token, responses[i]))
  }
}
