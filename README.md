# Certificate verifier DApp: the certificate list logic, in Dafny

This project models the client-side logic of a certificate issuance and
verification web application. Certificates live on a ledger (a smart
contract). Each one is an IPFS content identifier plus an issuance timestamp.
The documents themselves are pinned on a pinning service.

The model covers:

- **Loading the certificate list** (`loadCertificates`). It reads the wallet's
  records from the ledger. It probes the pinning service once per record, in
  ledger order, and keeps only the records whose content is still pinned. It
  then drops the records at positions 1, 2, 3, 4 and 7 of that live list.
  Finally it sorts the rest by issuance time with the stable
  `Array.prototype.sort` of ECMA-262 (section 23.1.3.30, 2023 edition).
- **The liveness decision** (`isCIDAlive`). It fails closed.
- **Deleting** (`handleDelete`). Records of an identifier leave the list only
  after a successful unpin.
- **Issuing** (`handleIssue`). It recovers the identifier from the upload URL
  with `split("/").pop()`.
- **The explore page**. It builds the gateway URL, falls back between two
  size sources, shows "N/A" for a missing size, and classifies the MIME type
  into one of four previews.

Modules follow the files of `frontend/src`. `Records` holds the certificate record and the
order-preserving mask filter that both the push loop and `Array.prototype.filter`
are instances of. `Liveness`, `LegacyExclusion`, `StableSort` and
`ViewAssembly` cover `loadCertificates`, and `Deletion` and `Issuance` cover the
other two handlers of `frontend/src/App.js`. `Gateway` holds the one
`https://ipfs.io/ipfs/` URL template that the upload, the list links and the
explore page share. `Preview` covers `frontend/src/ExplorePage.jsx`.

Inputs from the outside world are parameters:

- the ledger's answer (`Option<seq<Certificate>>`; `None` is a ledger failure);
- the pinning credential (`Option<string>`);
- one pinList response per record;
- the unpin and upload responses;
- the gateway's blob response.

React state setters are modelled as returned values (`LoadResult`,
`DeleteOutcome`, `IssueStep`, `PageState`).

What `loadCertificates` in `frontend/src/App.js` (lines 95-102) does, and the
lemmas that state it:

- The positions 1, 2, 3, 4 and 7 are dropped from whatever list is live. Two
  live records issued at 100 and 50 therefore show only the first one
  (`ViewAssembly.TwoLiveRecordsKeepFirst`).
- Seven live records keep live positions 0, 5 and 6, so three records are
  shown (`ViewAssembly.SevenLiveRecordsKeepThree`).
- The probes run one after another: each is an `await` inside the `for` loop.
- `Number(issuedAt)` gives `NaN` for a non-numeric timestamp. Timestamps are
  modelled as integers.
- The legacy positions are counted in the live list. Which ledger records are
  hidden therefore depends on which earlier records are dead
  (`ViewAssembly.SixLiveShowSixth`, `ViewAssembly.FirstDeadHidesSixth`).

## Model

| member | source | states |
|---|---|---|
| `ViewAssembly.LoadCertificates` | frontend/src/App.js:91-105 | A ledger failure publishes no list. Otherwise the push loop over the probe verdicts, then the exclusion and the sort, yield exactly `AssembleView(records, verdicts)`. |
| `ViewAssembly.AssembleView` | frontend/src/App.js:93-102 | The list the page publishes is ordered by `issuedAt` and no longer than the ledger list. `AssembleViewOrdered`, `AssembleViewStable` and `AssembleViewFromLiveRecords` give the rest of its meaning. |
| `ViewAssembly.AssembleViewOrdered` | frontend/src/App.js:100-102 | The published list is non-decreasing in `issuedAt` and is a permutation of the post-exclusion list. |
| `ViewAssembly.AssembleViewStable` | frontend/src/App.js:102 | For every timestamp, the records issued then appear in the same relative order as after the exclusion. |
| `ViewAssembly.AssembleViewFromLiveRecords` | frontend/src/App.js:93-101 | The published list is a sub-multiset of the ledger list: nothing is fabricated or duplicated. Every record shown sits at a ledger position whose probe said alive. |
| `ViewAssembly.TwoLiveRecordsKeepFirst` | frontend/src/App.js:100-102 | Two live records at times 100 and 50: only the first is shown, because live position 1 is excluded. |
| `ViewAssembly.SingleDeadRecordEmpty` | frontend/src/App.js:95-98 | One record whose probe failed gives an empty list. |
| `ViewAssembly.SevenLiveRecordsKeepThree` | frontend/src/App.js:100-102 | Seven live records in time order give live positions 0, 5 and 6. Position 7 drops nothing. |
| `ViewAssembly.SixLiveShowSixth` | frontend/src/App.js:93-101 | With six live records the sixth ledger record is shown. |
| `ViewAssembly.FirstDeadHidesSixth` | frontend/src/App.js:93-101 | If only the first record is dead, the sixth lands on live position 4 and is hidden. Only the second ledger record is shown. |
| `Records.KeepWhere` | frontend/src/App.js:93-98 | The filtered list is never longer than its input. |
| `Records.KeptIndices` | frontend/src/App.js:95-97 | The kept positions are strictly ascending and all marked, and every marked position is among them. |
| `Records.KeepWhereAt` | frontend/src/App.js:93-98 | The filtered list is the input read at the kept positions. So it is a subsequence in original order, and every live record is in it. |
| `Records.KeepWhereMembership` | frontend/src/App.js:95-98 | A value is in the filtered list if and only if it occurs at a position marked alive. |
| `Records.KeepWhereSubMultiset` | frontend/src/App.js:93-98 | The filter holds no element more often than its input. |
| `Records.KeepWhereAll` | frontend/src/App.js:95-98 | When every probe says alive, the filtered list is the ledger list. |
| `Records.KeepWhereFirstDropped` | frontend/src/App.js:95-98 | A dead first record does not reach the filtered list. |
| `Liveness.IsCidAlive` | frontend/src/App.js:63-89 | All of these give false: a missing or empty credential, a rejected request, a non-OK status, an unreadable body, a missing `count`. With a credential, an OK response and a count, the result is true exactly when `count > 0`. |
| `LegacyExclusion.ExcludeLegacy` | frontend/src/App.js:101 | The exclusion never lengthens the list and always keeps its first element. `ExcludeLegacyShape` gives the exact positions kept. |
| `Liveness.ProbeResults` | frontend/src/App.js:95-96 | One verdict per ledger record, in ledger order, each the `isCIDAlive` verdict on that record's own pinList response. |
| `LegacyExclusion.ExcludeLegacyShape` | frontend/src/App.js:101 | The exclusion keeps exactly positions 0, 5, 6 and 8 onwards, in order, clipped to the list's length. |
| `LegacyExclusion.ExcludeLegacyLength` | frontend/src/App.js:101 | Result length is the input length minus the size of {1,2,3,4,7} ∩ [0, n). A list of at most one element is unchanged. |
| `LegacyExclusion.SevenLiveKeepsThree` | frontend/src/App.js:101 | A seven-element list keeps its elements 0, 5 and 6. |
| `LegacyExclusion.ExcludeLegacySubMultiset` | frontend/src/App.js:101 | The exclusion adds and duplicates nothing. |
| `StableSort.SortByIssuedAt` | frontend/src/App.js:102 | The sorted list is non-decreasing in `issuedAt` and is a permutation of its input. |
| `StableSort.Insert` | frontend/src/App.js:102 | Insertion adds exactly the one record to the multiset. |
| `StableSort.InsertSorted` | frontend/src/App.js:102 | Inserting into an ordered list keeps it ordered. |
| `StableSort.SortStable` | frontend/src/App.js:102 | For every timestamp, the records issued then keep their input order (stability). |
| `StableSort.SortUnique` | frontend/src/App.js:102 | Any ordered arrangement that keeps equal timestamps in input order equals `SortByIssuedAt`. So it is what a stable sort with the numeric comparator returns. |
| `StableSort.SortIdempotent` | frontend/src/App.js:102 | An ordered list is left unchanged. Sorting twice equals sorting once. |
| `StableSort.IssuedAtMembers` | frontend/src/App.js:102 | The per-time selection holds exactly the records with that time. |
| `Deletion.HandleDelete` | frontend/src/App.js:48-61 | After a successful unpin the list loses exactly `cid`'s records and shows the success notice. After a refusal or an exception the list is unchanged and an alert is shown. |
| `Deletion.WithoutHash` | frontend/src/App.js:52 | The filtered list is never longer than the list. `WithoutHashExact` gives exactly which records remain. |
| `Deletion.WithoutHashExact` | frontend/src/App.js:52 | The remaining records are exactly those whose `ipfsHash` differs from `cid`, each read at an ascending original position. |
| `Deletion.WithoutHashIdempotent` | frontend/src/App.js:52 | Removing twice equals removing once. |
| `Deletion.WithoutAbsentHash` | frontend/src/App.js:52 | Removing an identifier that no record carries changes nothing. |
| `Deletion.DeleteFromIpfs` | frontend/src/utils/ipfs.js:28-41 | Unpinning succeeds exactly on status 200. Every other status and every rejected request reads as failure. |
| `Deletion.DeleteChangesListOnlyOn200` | frontend/src/App.js:50-56 | Through `deleteFromIPFS`, the list changes exactly when the service answered 200. |
| `Issuance.LastSegment` | frontend/src/App.js:40 | The extracted text has no `/`, is a suffix of the URL, and is either the whole URL or directly preceded by `/`. |
| `Issuance.LastSegmentAfterSlash` | frontend/src/App.js:40 | For any prefix, `prefix + "/" + cid` with a `/`-free `cid` gives back `cid`. |
| `Issuance.UploadToIpfs` | frontend/src/utils/ipfs.js:7-26 | A rejected upload gives null. A pinned one gives the gateway URL of its identifier. |
| `Issuance.HandleIssue` | frontend/src/App.js:34-41 | A missing wallet or file stops with an alert. A null or empty upload result stops before any ledger call. Otherwise the ledger gets the last URL segment. |
| `Issuance.IssueRoundTrip` | frontend/src/utils/ipfs.js:20-21 | The identifier sent to the ledger equals the one the pinning service assigned. A rejected upload never reaches the ledger. |
| `Gateway.GatewayUrl` | frontend/src/utils/ipfs.js:21 | The URL is the gateway address followed by exactly the identifier, so the identifier can be read back from it. |
| `Gateway.GatewayUrlInjective` | frontend/src/utils/ipfs.js:21 | Distinct identifiers have distinct gateway URLs. |
| `Preview.RequestUrl` | frontend/src/ExplorePage.jsx:16 | The address the explore page fetches is the gateway URL that the upload hands out for the same identifier. |
| `Preview.FetchMetadata` | frontend/src/ExplorePage.jsx:13-38 | A failed fetch shows the error state. Otherwise the page records the route identifier, the URL the request went to, the blob's type and the chosen size. |
| `Preview.SizeOf` | frontend/src/ExplorePage.jsx:21 | The size is the blob size unless it is 0. Then it is the `content-length` header, or nothing when the header is absent. |
| `Preview.SizeDisplay` | frontend/src/ExplorePage.jsx:124-127 | "N/A" is shown exactly when the recorded size is falsy. Otherwise the recorded value is formatted. |
| `Preview.SizeNotAvailableExactly` | frontend/src/ExplorePage.jsx:21 | "N/A" appears exactly when the blob is empty and the header is absent or empty. |
| `Preview.TypeLabel` | frontend/src/ExplorePage.jsx:121 | The type line is never empty. It shows the type when there is one, else "Unknown". |
| `Preview.RenderFilePreview` | frontend/src/ExplorePage.jsx:40-76 | The four outcomes are total and mutually exclusive. No type (or no file info) gives no preview. A type starting with "image/" gives an image, checked first. Only exactly "application/pdf" gives a PDF frame. Anything else gives the notice naming the type. Image and PDF show the page's URL. |
| `Preview.PreviewShowsFetchedDocument` | frontend/src/ExplorePage.jsx:16-25 | The image or PDF preview shows the URL stored in the file info, which equals the URL the request went to and the gateway URL of the route identifier. |
| `Preview.PreviewExamples` | frontend/src/ExplorePage.jsx:56-75 | "application/pdf; x" gets the notice. "image/png" is an image. "application/pdf" is a PDF. An empty type gives no preview. |

## Left out

- React rendering, routing, styling and `useState` plumbing. State updates are returned values; the message strings are reduced to the kind of notice.
- The `localStorage` login gate: browser storage and redirection, not list logic.
- The HTTP calls to the pinning service and the gateway. Their outcomes are inputs. The remote `hashContains` query matches substrings of pinned hashes; that is the service's behaviour and is not modelled.
- The ledger and wallet wrappers (`frontend/src/utils/contract.js`, `frontend/src/utils/wallet.js`) and the `issueCertificate` call itself. The ledger read is an input; the issuance model ends at the ledger call.
- The backend (`backend/controllers/authController.js`, `backend/server.js`): password hashing, tokens and database calls.
- Floating-point size formatting (`toFixed(2)`) and date formatting. `Preview.SizeDisplay` returns the raw value to be formatted.
- `Number(issuedAt)`: `NaN` for a malformed value and loss of precision above 2^53. Timestamps are unbounded integers.
- Asynchronous scheduling and a component torn down mid-load. The probes are sequential awaits, modelled as one probe outcome per record.
- `handleDelete` filters the list captured when the handler was created. A list replaced in between (a stale closure) is not modelled.
- `handleIssue` reloads the list after issuing. That reload is the same `ViewAssembly.LoadCertificates` on a fresh ledger read.
