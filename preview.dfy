/** The explore page of one certificate: the document is fetched from the
    IPFS gateway by its content identifier, its metadata is recorded, and a
    preview is chosen from its MIME type. */
module Preview {
  import opened Wrappers
  import opened Gateway

  /** The blob the gateway returned: its MIME type (`res.data.type`), its size
      in bytes (`res.data.size`) and the `content-length` header, if sent. */
  datatype BlobResponse = BlobResponse(blobType: Option<string>, blobSize: nat, contentLength: Option<string>)

  /** The recorded size: a byte count from the blob, the header text, or nothing. */
  datatype SizeValue = Bytes(count: nat) | HeaderText(text: string) | NoSize

  datatype FileInfo = FileInfo(cid: string, url: string, fileType: Option<string>, size: SizeValue)

  /** What the page shows after the fetch. */
  datatype PageState = FetchFailed | Showing(info: FileInfo)

  /** The URL the metadata request is sent to, written out on its own in
      `fetchMetadata`; it is the gateway URL the upload handed out. */
  function RequestUrl(cid: string): (url: string)
    ensures url == GatewayUrl(cid)
  {
    "https://ipfs.io/ipfs/" + cid
  }

  /** `res.data.size || res.headers["content-length"]`: the blob size unless
      it is 0, otherwise the header as sent (absent when not sent). */
  function SizeOf(response: BlobResponse): (size: SizeValue)
    ensures response.blobSize != 0 ==> size == Bytes(response.blobSize)
    ensures response.blobSize == 0 && response.contentLength.Some? ==> size == HeaderText(response.contentLength.value)
    ensures response.blobSize == 0 && response.contentLength.None? ==> size == NoSize
  {
    if response.blobSize != 0 then Bytes(response.blobSize)
    else match response.contentLength
      case Some(text) => HeaderText(text)
      case None => NoSize
  }

  /** `fetchMetadata`: a failed request shows the error; otherwise the page
      records the identifier, its own copy of the gateway URL, the type and the
      size. */
  function FetchMetadata(cid: string, response: Option<BlobResponse>): (state: PageState)
    ensures response.None? <==> state.FetchFailed?
    ensures state.Showing? ==> state.info.cid == cid && state.info.url == RequestUrl(cid)
    ensures state.Showing? ==> state.info.fileType == response.value.blobType
    ensures state.Showing? ==> state.info.size == SizeOf(response.value)
  {
    match response
    case None => FetchFailed
    case Some(blob) => Showing(FileInfo(cid, "https://ipfs.io/ipfs/" + cid, blob.blobType, SizeOf(blob)))
  }

  /** JavaScript truthiness of the recorded size. */
  predicate SizeTruthy(size: SizeValue)
  {
    match size
    case Bytes(n) => n != 0
    case HeaderText(t) => t != ""
    case NoSize => false
  }

  /** The size line: kilobytes of the recorded value, or "N/A". */
  datatype SizeLabel = Kilobytes(raw: SizeValue) | NotAvailable

  function SizeDisplay(size: SizeValue): (shown: SizeLabel)
    ensures shown.NotAvailable? <==> !SizeTruthy(size)
    ensures shown.Kilobytes? ==> shown.raw == size
  {
    if SizeTruthy(size) then Kilobytes(size) else NotAvailable
  }

  /** "N/A" is shown exactly when the blob is empty and the header is absent or
      empty; a header of "0" is a non-empty string and still shows a size. */
  lemma SizeNotAvailableExactly(response: BlobResponse)
    ensures SizeDisplay(SizeOf(response)).NotAvailable?
        <==> response.blobSize == 0 && (response.contentLength.None? || response.contentLength.value == "")
  {
  }

  /** `fileInfo.type || "Unknown"`. */
  function TypeLabel(fileType: Option<string>): (shown: string)
    ensures shown != ""
    ensures fileType.Some? && fileType.value != "" ==> shown == fileType.value
    ensures !(fileType.Some? && fileType.value != "") ==> shown == "Unknown"
  {
    if fileType.Some? && fileType.value != "" then fileType.value else "Unknown"
  }

  /** The preview chosen by `renderFilePreview`. */
  datatype PreviewKind = NoPreview | ImagePreview(src: string) | PdfPreview(src: string) | FallbackNotice(fileType: string)

  /** A file info that is there and carries a non-empty type. */
  predicate HasType(info: Option<FileInfo>)
  {
    info.Some? && info.value.fileType.Some? && info.value.fileType.value != ""
  }

  /** `renderFilePreview`: nothing without a type; an image for any type that
      starts with "image/" (checked first); a PDF frame only for exactly
      "application/pdf"; the notice naming the type otherwise. */
  function RenderFilePreview(info: Option<FileInfo>): (p: PreviewKind)
    ensures p.NoPreview? <==> !HasType(info)
    ensures p.ImagePreview? <==> HasType(info) && "image/" <= info.value.fileType.value
    ensures p.PdfPreview? <==> HasType(info) && !("image/" <= info.value.fileType.value)
                                && info.value.fileType.value == "application/pdf"
    ensures p.FallbackNotice? <==> HasType(info) && !("image/" <= info.value.fileType.value)
                                   && info.value.fileType.value != "application/pdf"
    ensures p.ImagePreview? || p.PdfPreview? ==> p.src == info.value.url
    ensures p.FallbackNotice? ==> p.fileType == info.value.fileType.value
  {
    if !HasType(info) then NoPreview
    else
      var t := info.value.fileType.value;
      if "image/" <= t then ImagePreview(info.value.url)
      else if t == "application/pdf" then PdfPreview(info.value.url)
      else FallbackNotice(t)
  }

  /** The previewed document is the one fetched: its source is the gateway URL
      of the route identifier, the same string the request went to. */
  lemma PreviewShowsFetchedDocument(cid: string, response: Option<BlobResponse>)
    requires FetchMetadata(cid, response).Showing?
    ensures var p := RenderFilePreview(Some(FetchMetadata(cid, response).info));
            p.ImagePreview? || p.PdfPreview? ==> p.src == RequestUrl(cid) == GatewayUrl(cid)
  {
  }

  /** A PDF type with parameters is not the exact PDF type and gets the notice;
      "image/png" is an image; an empty type gives no preview. */
  lemma PreviewExamples(cid: string, url: string, size: SizeValue)
    ensures RenderFilePreview(Some(FileInfo(cid, url, Some("application/pdf; x"), size)))
         == FallbackNotice("application/pdf; x")
    ensures RenderFilePreview(Some(FileInfo(cid, url, Some("image/png"), size))) == ImagePreview(url)
    ensures RenderFilePreview(Some(FileInfo(cid, url, Some("application/pdf"), size))) == PdfPreview(url)
    ensures RenderFilePreview(Some(FileInfo(cid, url, Some(""), size))) == NoPreview
  {
    var withParameters := "application/pdf; x";
    assert withParameters[0] != "image/"[0];
    assert withParameters != "application/pdf" by {
      assert |withParameters| != |"application/pdf"|;
    }
  }
}
