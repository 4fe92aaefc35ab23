/** Issuing a certificate: the upload builds a gateway URL around the new
    content identifier, and `handleIssue` recovers the identifier from that URL
    with `split("/").pop()` before calling the ledger. */
module Issuance {
  import opened Wrappers
  import opened Gateway

  /** `url.split("/").pop()`: the text after the last `/`, or all of `url`
      when it has none. */
  function LastSegment(url: string): (seg: string)
    ensures '/' !in seg
    ensures |seg| <= |url| && seg == url[|url| - |seg|..]
    ensures |seg| < |url| ==> url[|url| - |seg| - 1] == '/'
    decreases |url|
  {
    if url == [] || url[|url| - 1] == '/' then []
    else LastSegment(url[..|url| - 1]) + [url[|url| - 1]]
  }

  /** Whatever comes before the last `/`, the segment after it is recovered. */
  lemma LastSegmentAfterSlash(prefix: string, cid: string)
    requires '/' !in cid
    ensures LastSegment(prefix + "/" + cid) == cid
  {
    var url := prefix + "/" + cid;
    var seg := LastSegment(url);
    var n := |url|;
    assert url[n - |cid|..] == cid;
    assert url[n - |cid| - 1] == '/';
  }

  /** What the pinning service answers to the upload. */
  datatype UploadResponse = Pinned(ipfsHash: string) | UploadRejected

  /** `uploadToIPFS`: the gateway URL of the new identifier, or null on failure. */
  function UploadToIpfs(response: UploadResponse): (url: Option<string>)
    ensures url.None? <==> response.UploadRejected?
    ensures response.Pinned? ==> url == Some(GatewayUrl(response.ipfsHash))
  {
    match response
    case Pinned(cid) => Some(GatewayUrl(cid))
    case UploadRejected => None
  }

  /** Where `handleIssue` ends: an alert before the upload, an alert after a
      failed upload, or the ledger call with the extracted identifier. */
  datatype IssueStep = MissingInputAlert | UploadFailedAlert | IssueWith(ipfsHash: string)

  /** `handleIssue` up to the ledger call; `upload` is what `uploadToIPFS`
      resolved to (consulted only when a wallet and a file are present). */
  function HandleIssue(walletConnected: bool, fileChosen: bool, upload: Option<string>): (step: IssueStep)
    ensures !(walletConnected && fileChosen) ==> step == MissingInputAlert
    ensures step.IssueWith? <==> walletConnected && fileChosen && upload.Some? && upload.value != ""
    ensures step.IssueWith? ==> step.ipfsHash == LastSegment(upload.value)
  {
    if !walletConnected || !fileChosen then MissingInputAlert
    else if upload.None? || upload.value == "" then UploadFailedAlert
    else IssueWith(LastSegment(upload.value))
  }

  /** The identifier issued on the ledger is the one the pinning service
      assigned, and a rejected upload never reaches the ledger. */
  lemma IssueRoundTrip(cid: string)
    requires '/' !in cid
    ensures HandleIssue(true, true, UploadToIpfs(Pinned(cid))) == IssueWith(cid)
    ensures HandleIssue(true, true, UploadToIpfs(UploadRejected)) == UploadFailedAlert
  {
    assert GatewayUrl(cid) == "https://ipfs.io/ipfs" + "/" + cid;
    LastSegmentAfterSlash("https://ipfs.io/ipfs", cid);
  }
}
