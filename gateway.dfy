/** The public IPFS gateway address that the client uses both to build the
    URL of a fresh upload and to fetch or link a certificate document. */
module Gateway {

  const IpfsGateway: string := "https://ipfs.io/ipfs/"

  /** The gateway URL of a content identifier. */
  function GatewayUrl(cid: string): (url: string)
    ensures |url| == |IpfsGateway| + |cid|
    ensures url[..|IpfsGateway|] == IpfsGateway && url[|IpfsGateway|..] == cid
  {
    IpfsGateway + cid
  }

  /** Different identifiers never share a gateway URL, so the URL names the
      document unambiguously. */
  lemma GatewayUrlInjective(a: string, b: string)
    ensures GatewayUrl(a) == GatewayUrl(b) ==> a == b
  {
    if GatewayUrl(a) == GatewayUrl(b) {
      assert a == GatewayUrl(a)[|IpfsGateway|..];
      assert b == GatewayUrl(b)[|IpfsGateway|..];
    }
  }
}
