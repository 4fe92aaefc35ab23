/** `handleDelete`: asks the pinning service to unpin a content identifier
    and, only when it reports success, removes that identifier's records from
    the displayed list. */
module Deletion {
  import opened Records

  /** What the unpin request gives back: an HTTP status, or a rejected request
      (network failure or an error status that the HTTP client throws on). */
  datatype UnpinResponse = Status(code: int) | RequestFailed

  /** `deleteFromIPFS`: true exactly for status 200; every failure, thrown or
      not, reads as false. */
  function DeleteFromIpfs(response: UnpinResponse): (success: bool)
    ensures success <==> response == Status(200)
  {
    match response
    case Status(code) => code == 200
    case RequestFailed => false
  }

  /** How the awaited `deleteFromIPFS(cid)` settles in the handler. */
  datatype DeleteAttempt = Settled(success: bool) | Threw

  /** What the user is told. */
  datatype Notice = Deleted | UnpinFailedAlert | DeleteErrorAlert

  /** The new list and the notice: the state updates of the handler, returned. */
  datatype DeleteOutcome = DeleteOutcome(certificates: seq<Certificate>, notice: Notice)

  /** Marks the records whose content identifier differs from `cid`. */
  function DiffersFrom(certs: seq<Certificate>, cid: string): (keep: seq<bool>)
    ensures |keep| == |certs|
    ensures forall i :: 0 <= i < |certs| ==> (keep[i] <==> certs[i].ipfsHash != cid)
  {
    seq(|certs|, i requires 0 <= i < |certs| => certs[i].ipfsHash != cid)
  }

  /** `certificates.filter((cert) => cert.ipfsHash !== cid)`. */
  function WithoutHash(certs: seq<Certificate>, cid: string): (r: seq<Certificate>)
    ensures |r| <= |certs|
  {
    KeepWhere(certs, DiffersFrom(certs, cid))
  }

  /** Exactly the records with a different identifier remain, each at its
      original relative position. */
  lemma WithoutHashExact(certs: seq<Certificate>, cid: string)
    ensures forall x :: x in WithoutHash(certs, cid) <==> x in certs && x.ipfsHash != cid
    ensures |WithoutHash(certs, cid)| == |KeptIndices(DiffersFrom(certs, cid))|
    ensures forall k :: 0 <= k < |KeptIndices(DiffersFrom(certs, cid))| ==>
              WithoutHash(certs, cid)[k] == certs[KeptIndices(DiffersFrom(certs, cid))[k]]
  {
    var keep := DiffersFrom(certs, cid);
    KeepWhereAt(certs, keep);
    forall x
      ensures x in WithoutHash(certs, cid) <==> x in certs && x.ipfsHash != cid
    {
      KeepWhereMembership(certs, keep, x);
    }
  }

  /** Removing an identifier twice is removing it once. */
  lemma WithoutHashIdempotent(certs: seq<Certificate>, cid: string)
    ensures WithoutHash(WithoutHash(certs, cid), cid) == WithoutHash(certs, cid)
  {
    var once := WithoutHash(certs, cid);
    var keep := DiffersFrom(once, cid);
    forall i | 0 <= i < |keep|
      ensures keep[i]
    {
      WithoutHashExact(certs, cid);
      assert once[i] in once;
    }
    KeepWhereAll(once, keep);
  }

  /** Removing an identifier that no record carries changes nothing. */
  lemma WithoutAbsentHash(certs: seq<Certificate>, cid: string)
    requires forall i :: 0 <= i < |certs| ==> certs[i].ipfsHash != cid
    ensures WithoutHash(certs, cid) == certs
  {
    KeepWhereAll(certs, DiffersFrom(certs, cid));
  }

  /** The handler: on success the list loses the records of `cid`; on a
      refusal or an exception it stays as it was and an alert is shown. */
  function HandleDelete(certs: seq<Certificate>, cid: string, attempt: DeleteAttempt): (r: DeleteOutcome)
    ensures attempt == Settled(true) ==> r == DeleteOutcome(WithoutHash(certs, cid), Deleted)
    ensures attempt != Settled(true) ==> r.certificates == certs && r.notice != Deleted
    ensures attempt.Threw? ==> r.notice == DeleteErrorAlert
  {
    match attempt
    case Threw => DeleteOutcome(certs, DeleteErrorAlert)
    case Settled(success) =>
      if success then DeleteOutcome(WithoutHash(certs, cid), Deleted)
      else DeleteOutcome(certs, UnpinFailedAlert)
  }

  /** Through the real `deleteFromIPFS`, which never throws: the list changes
      exactly when the service answered 200. */
  lemma DeleteChangesListOnlyOn200(certs: seq<Certificate>, cid: string, response: UnpinResponse)
    ensures HandleDelete(certs, cid, Settled(DeleteFromIpfs(response))).certificates
         == (if response == Status(200) then WithoutHash(certs, cid) else certs)
  {
  }
}
